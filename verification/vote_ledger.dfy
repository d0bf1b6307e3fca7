/**
 * The vote ledger shared by articles and comments: a table of vote rows,
 * at most one per (subject, user), each worth +1 or -1, and the subject's
 * vote count as the SUM of its rows.
 */
module VoteLedger {
  import opened Wrappers
  import opened Tables
  import opened Entities

  /** The term a vote row contributes to `sum(:vote_type)` for a subject. */
  function Weight(subject: nat): Vote -> int {
    (v: Vote) => if v.subjectId == subject then v.voteType else 0
  }

  /** `votes.sum(:vote_type)` restricted to one subject. */
  function Tally(votes: map<nat, Vote>, subject: nat): int {
    SumMap(votes, Weight(subject))
  }

  function IsVoteBy(subject: nat, user: nat): Vote -> bool {
    (v: Vote) => v.subjectId == subject && v.userId == user
  }

  /** `find_by(user: user)` among the subject's votes. */
  function FindVote(votes: map<nat, Vote>, subject: nat, user: nat): (r: Option<nat>)
    ensures r.Some? ==> r.value in votes && votes[r.value].subjectId == subject && votes[r.value].userId == user
    ensures r.None? <==> forall k :: k in votes ==> !(votes[k].subjectId == subject && votes[k].userId == user)
  {
    FindKey(votes, IsVoteBy(subject, user))
  }

  /** The vote the user currently holds on the subject, 0 when none. */
  function Current(votes: map<nat, Vote>, subject: nat, user: nat): int {
    match FindVote(votes, subject, user)
    case Some(k) => votes[k].voteType
    case None => 0
  }

  /** At most one row per (subject, user). */
  ghost predicate UniquePairs(votes: map<nat, Vote>) {
    forall i, j ::
      (i in votes && j in votes && votes[i].subjectId == votes[j].subjectId
       && votes[i].userId == votes[j].userId) ==> i == j
  }

  /** The ledger invariant: keyed rows, one per pair, each +1 or -1. */
  ghost predicate LedgerValid(t: Table<Vote>) {
    && KeyedBy(t, (v: Vote) => v.id)
    && UniquePairs(t.rows)
    && forall k :: k in t.rows ==> VoteTypeValid(t.rows[k].voteType)
  }

  /**
   * `find_or_initialize_by(user:)`, set `vote_type`, `save!`: overwrite the
   * user's vote on the subject in place, or insert a new row.
   */
  function Cast(t: Table<Vote>, subject: nat, user: nat, value: int): Table<Vote> {
    match FindVote(t.rows, subject, user)
    case Some(k) => t.Put(k, t.rows[k].(voteType := value))
    case None => t.Insert(Vote(t.next, subject, user, value))
  }

  /** `find_by(user:)&.destroy`: remove the user's vote if there is one. */
  function Retract(t: Table<Vote>, subject: nat, user: nat): Table<Vote> {
    match FindVote(t.rows, subject, user)
    case Some(k) => t.Delete(k)
    case None => t
  }

  /** Casting keeps the ledger valid and leaves exactly one row for the pair, with the new value. */
  lemma CastKeepsLedger(t: Table<Vote>, subject: nat, user: nat, value: int)
    requires LedgerValid(t) && VoteTypeValid(value)
    ensures var t' := Cast(t, subject, user, value);
      && LedgerValid(t')
      && FindVote(t'.rows, subject, user).Some?
      && t'.rows[FindVote(t'.rows, subject, user).value].voteType == value
      && Current(t'.rows, subject, user) == value
  {
    match FindVote(t.rows, subject, user)
    case Some(k) => CastOverwriteKeeps(t, subject, user, value, k);
    case None => CastInsertKeeps(t, subject, user, value);
  }

  /** The overwrite branch of `CastKeepsLedger`. */
  lemma CastOverwriteKeeps(t: Table<Vote>, subject: nat, user: nat, value: int, k: nat)
    requires LedgerValid(t) && VoteTypeValid(value) && FindVote(t.rows, subject, user) == Some(k)
    ensures var t' := t.Put(k, t.rows[k].(voteType := value));
      && LedgerValid(t')
      && FindVote(t'.rows, subject, user) == Some(k)
      && t'.rows[k].voteType == value
  {
    var t' := t.Put(k, t.rows[k].(voteType := value));
    assert FindVote(t'.rows, subject, user) == Some(k);
  }

  /** The insert branch of `CastKeepsLedger`. */
  lemma CastInsertKeeps(t: Table<Vote>, subject: nat, user: nat, value: int)
    requires LedgerValid(t) && VoteTypeValid(value) && FindVote(t.rows, subject, user).None?
    ensures var t' := t.Insert(Vote(t.next, subject, user, value));
      && LedgerValid(t')
      && FindVote(t'.rows, subject, user) == Some(t.next)
      && t'.rows[t.next].voteType == value
  {
    var t' := t.Insert(Vote(t.next, subject, user, value));
    assert t.next !in t.rows;
    assert t.next in t'.rows && IsVoteBy(subject, user)(t'.rows[t.next]);
    assert forall j :: j in t'.rows && j != t.next ==> j in t.rows && t'.rows[j] == t.rows[j];
    assert FindVote(t'.rows, subject, user) == Some(t.next);
  }

  /** Every row after a cast is an old row or a row on the subject. */
  lemma CastRows(t: Table<Vote>, subject: nat, user: nat, value: int)
    requires LedgerValid(t)
    ensures var t' := Cast(t, subject, user, value);
      forall k :: k in t'.rows ==>
        (k in t.rows && t'.rows[k].subjectId == t.rows[k].subjectId) || t'.rows[k].subjectId == subject
  {
  }

  /** A subject no vote row names has a tally of zero. */
  lemma TallyOfUnvoted(votes: map<nat, Vote>, subject: nat)
    requires forall k :: k in votes ==> votes[k].subjectId != subject
    ensures Tally(votes, subject) == 0
  {
    SumMapZero(votes, Weight(subject));
  }

  /** Casting touches only the pair's row: every other row is as it was. */
  lemma CastTouchesOnlyPair(t: Table<Vote>, subject: nat, user: nat, value: int, k: nat)
    requires LedgerValid(t)
    requires k in t.rows && !(t.rows[k].subjectId == subject && t.rows[k].userId == user)
    ensures var t' := Cast(t, subject, user, value); k in t'.rows && t'.rows[k] == t.rows[k]
  {
  }

  /** The tally moves by exactly the change of the user's vote; other subjects keep theirs. */
  lemma TallyAfterCast(t: Table<Vote>, subject: nat, user: nat, value: int, other: nat)
    requires LedgerValid(t)
    ensures Tally(Cast(t, subject, user, value).rows, other)
      == Tally(t.rows, other) + (if other == subject then value - Current(t.rows, subject, user) else 0)
  {
    match FindVote(t.rows, subject, user)
    case Some(k) => {
      SumMapPut(t.rows, k, t.rows[k].(voteType := value), Weight(other));
    }
    case None => {
      assert t.next !in t.rows;
      SumMapPut(t.rows, t.next, Vote(t.next, subject, user, value), Weight(other));
    }
  }

  /** Retracting removes the user's vote from the tally; a missing vote changes nothing. */
  lemma TallyAfterRetract(t: Table<Vote>, subject: nat, user: nat, other: nat)
    requires LedgerValid(t)
    ensures LedgerValid(Retract(t, subject, user))
    ensures FindVote(Retract(t, subject, user).rows, subject, user).None?
    ensures Tally(Retract(t, subject, user).rows, other)
      == Tally(t.rows, other) - (if other == subject then Current(t.rows, subject, user) else 0)
  {
    match FindVote(t.rows, subject, user)
    case Some(k) => {
      SumMapDelete(t.rows, k, Weight(other));
    }
    case None => {
    }
  }

  /** `unvote!` without a vote leaves the ledger exactly as it was. */
  lemma RetractMissingIsNoOp(t: Table<Vote>, subject: nat, user: nat)
    requires FindVote(t.rows, subject, user).None?
    ensures Retract(t, subject, user) == t
  {
  }

  /** Voting the same way twice is the same as voting once. */
  lemma CastIdempotent(t: Table<Vote>, subject: nat, user: nat, value: int)
    requires LedgerValid(t) && VoteTypeValid(value)
    ensures Cast(Cast(t, subject, user, value), subject, user, value) == Cast(t, subject, user, value)
  {
    var t1 := Cast(t, subject, user, value);
    CastKeepsLedger(t, subject, user, value);
    var k := FindVote(t1.rows, subject, user).value;
    assert t1.rows[k := t1.rows[k].(voteType := value)] == t1.rows;
  }

  /** An up-vote followed by an unvote restores the rows and the tally of a user who had not voted. */
  lemma UpThenUnvoteRestores(t: Table<Vote>, subject: nat, user: nat)
    requires LedgerValid(t) && FindVote(t.rows, subject, user).None?
    ensures Retract(Cast(t, subject, user, 1), subject, user).rows == t.rows
    ensures Tally(Retract(Cast(t, subject, user, 1), subject, user).rows, subject) == Tally(t.rows, subject)
  {
    var t1 := Cast(t, subject, user, 1);
    assert t.next !in t.rows;
    CastKeepsLedger(t, subject, user, 1);
    assert FindVote(t1.rows, subject, user) == Some(t.next);
    assert t1.rows - {t.next} == t.rows;
  }

  /** Two different users voting +1 and -1 on a subject neither had voted on leave its tally as it was. */
  lemma OpposingVotesCancel(t: Table<Vote>, subject: nat, u1: nat, u2: nat)
    requires LedgerValid(t) && u1 != u2
    requires FindVote(t.rows, subject, u1).None? && FindVote(t.rows, subject, u2).None?
    ensures Tally(Cast(Cast(t, subject, u1, 1), subject, u2, -1).rows, subject) == Tally(t.rows, subject)
  {
    var t1 := Cast(t, subject, u1, 1);
    TallyAfterCast(t, subject, u1, 1, subject);
    CastKeepsLedger(t, subject, u1, 1);
    assert FindVote(t1.rows, subject, u2).None? by {
      assert t.next !in t.rows;
      assert forall k :: k in t1.rows ==> k == t.next || k in t.rows;
    }
    TallyAfterCast(t1, subject, u2, -1, subject);
  }
}
