/** The user listings and the follow counts. */
module UserQueries {
  import opened Tables
  import opened Ordering
  import opened Entities

  predicate InTable(users: map<nat, User>, u: User) {
    exists k :: k in users && users[k] == u
  }

  /** `order(karma_score: :desc)`. */
  function HighestKarmaFirst(): (User, User) -> bool {
    Descending((u: User) => u.karmaScore)
  }

  /** `UsersController#index`: the active users, highest stored karma first. */
  function Index(users: map<nat, User>): (r: seq<User>)
    ensures forall u :: u in r <==> InTable(users, u) && u.isActive
    ensures Sorted(r, HighestKarmaFirst())
    ensures forall u :: multiset(r)[u] == if u.isActive then Occurrences(users, u) else 0
  {
    DescendingIsPreorder((u: User) => u.karmaScore);
    var p := (u: User) => u.isActive;
    SelectFromTable(users, p, HighestKarmaFirst())
  }

  /** `User#followers_count`: the follow rows naming the user as followed. */
  function FollowersCount(follows: seq<Follow>, user: nat): nat {
    |Filter(follows, (f: Follow) => f.followedId == user)|
  }

  /** `User#following_count`: the follow rows naming the user as follower. */
  function FollowingCount(follows: seq<Follow>, user: nat): nat {
    |Filter(follows, (f: Follow) => f.followerId == user)|
  }

  /**
   * A new follow row raises the followed user's follower count and the
   * follower's following count by one, and no other count.
   */
  lemma FollowCounts(follows: seq<Follow>, f: Follow, user: nat)
    ensures FollowersCount(follows + [f], user)
      == FollowersCount(follows, user) + (if f.followedId == user then 1 else 0)
    ensures FollowingCount(follows + [f], user)
      == FollowingCount(follows, user) + (if f.followerId == user then 1 else 0)
  {
    FilterAppend(follows, f, (g: Follow) => g.followedId == user);
    FilterAppend(follows, f, (g: Follow) => g.followerId == user);
  }
}
