/**
 * The activity log behind a user's karma: every submission, comment and
 * article vote appends one `UserActivity`, and `calculate_karma` sums the
 * points of the user's entries.
 */
module Karma {
  import opened Entities
  import Ordering

  const SubmitPoints: int := 1
  const CommentPoints: int := 1
  const VotePoints: int := 0

  /** The activity types that earn a point. */
  const EarningTypes: set<string> := {"submit", "comment"}

  /** Points agree with the type, as the model callbacks write them. */
  predicate Scored(a: Activity) {
    a.points == if a.activityType in EarningTypes then 1 else 0
  }

  /** `create_submit_activity`: the author earns a point for an article. */
  function SubmitActivity(author: nat, article: nat): (a: Activity)
    ensures ActivityValid(a) && Scored(a) && a.userId == author
  {
    Activity(author, "submit", ArticleRef(article), SubmitPoints)
  }

  /** `create_vote_activity`: an 'upvote' or 'downvote' entry for the voter, worth nothing. */
  function VoteActivity(voter: nat, article: nat, voteType: int): (a: Activity)
    ensures ActivityValid(a) && Scored(a) && a.userId == voter && a.points == 0
    ensures a.activityType == (if voteType > 0 then "upvote" else "downvote")
  {
    Activity(voter, if voteType > 0 then "upvote" else "downvote", ArticleRef(article), VotePoints)
  }

  /** `create_comment_activity`: the author earns a point for a comment. */
  function CommentActivity(author: nat, comment: nat): (a: Activity)
    ensures ActivityValid(a) && Scored(a) && a.userId == author
  {
    Activity(author, "comment", CommentRef(comment), CommentPoints)
  }

  /** A log the callbacks could have written: every entry has a known type and its type's points. */
  predicate LogValid(log: seq<Activity>) {
    forall i :: 0 <= i < |log| ==> ActivityValid(log[i]) && Scored(log[i])
  }

  /** Appending a valid entry keeps the log valid; the old entries are untouched. */
  lemma LogAppend(log: seq<Activity>, a: Activity)
    requires LogValid(log) && ActivityValid(a) && Scored(a)
    ensures LogValid(log + [a]) && (log + [a])[..|log|] == log
  {
  }

  /** `user_activities.sum(:points)`. */
  function KarmaOf(log: seq<Activity>, user: nat): int {
    if log == [] then 0
    else (if log[0].userId == user then log[0].points else 0) + KarmaOf(log[1..], user)
  }

  /** Appending an entry adds its points to its own user's karma and to no one else's. */
  lemma {:induction false} KarmaAppend(log: seq<Activity>, a: Activity, user: nat)
    ensures KarmaOf(log + [a], user) == KarmaOf(log, user) + (if a.userId == user then a.points else 0)
  {
    if log != [] {
      assert (log + [a])[1..] == log[1..] + [a];
      KarmaAppend(log[1..], a, user);
    }
  }

  /** An article vote never changes anyone's karma. */
  lemma VotingEarnsNothing(log: seq<Activity>, voter: nat, article: nat, voteType: int, user: nat)
    ensures KarmaOf(log + [VoteActivity(voter, article, voteType)], user) == KarmaOf(log, user)
  {
    KarmaAppend(log, VoteActivity(voter, article, voteType), user);
  }

  function Earns(user: nat): Activity -> bool {
    (a: Activity) => a.userId == user && a.activityType in EarningTypes
  }

  /**
   * On a log written by the callbacks, karma is exactly the number of the
   * user's submissions and comments.
   */
  lemma {:induction false} KarmaCountsSubmissionsAndComments(log: seq<Activity>, user: nat)
    requires LogValid(log)
    ensures KarmaOf(log, user) == |Ordering.Filter(log, Earns(user))|
    ensures KarmaOf(log, user) >= 0
  {
    if log != [] {
      assert log == [log[0]] + log[1..];
      KarmaCountsSubmissionsAndComments(log[1..], user);
    }
  }
}
