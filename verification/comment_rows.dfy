/**
 * The comments table and what keeps it consistent: every comment
 * validates, counts its votes, and sits where `set_path_and_depth` put it
 * under its parent.  The lemmas show that creating, voting on, editing and
 * soft-deleting comments keep it so, and what the stored paths then say.
 */
module CommentRows {
  import opened Wrappers
  import opened Tables
  import opened CommentPath
  import opened Entities
  import opened VoteLedger
  import opened CommentTree
  import ArticleRows

  /** A new comment: `set_defaults`, then `set_path_and_depth` under the given parent. */
  function NewComment(id: nat, articleId: nat, author: nat, parent: Option<Comment>, content: string, now: Time)
    : (c: Comment)
    ensures c.id == id && c.articleId == articleId && c.userId == author && c.content == content
    ensures c.voteCount == 0 && !c.isDeleted && c.createdAt == now
    ensures c.parentId == (if parent.Some? then Some(parent.value.id) else None)
    ensures parent.None? ==> c.path == [] && c.depth == 0
    ensures parent.Some? ==> c.path == parent.value.path + [parent.value.id] && c.depth == parent.value.depth + 1
  {
    var placement := Placement(parent);
    Comment(id, articleId, author, if parent.Some? then Some(parent.value.id) else None,
            content, placement.0, placement.1, 0, false, now)
  }

  /** Comment c, stored under key k, is where `set_path_and_depth` put it: under its parent, in the parent's article. */
  ghost predicate Placed(c: Comment, k: nat, rows: map<nat, Comment>) {
    match c.parentId
    case None => c.path == [] && c.depth == 0
    case Some(p) =>
      && p in rows && p < k
      && c.path == rows[p].path + [p]
      && c.depth == rows[p].depth + 1
      && rows[p].articleId == c.articleId
  }

  /** Comment k validates, its `vote_count` is the sum of its votes, and it is placed. */
  ghost predicate CommentRowValid(c: Comment, k: nat, rows: map<nat, Comment>, votes: map<nat, Vote>) {
    && c.id == k
    && ContentValid(c.content)
    && c.voteCount == Tally(votes, k)
    && Placed(c, k, rows)
  }

  ghost predicate CommentTableValid(t: Table<Comment>, votes: Table<Vote>) {
    && t.Valid()
    && LedgerValid(votes)
    && (forall k :: k in votes.rows ==> votes.rows[k].subjectId < t.next)
    && (forall k {:trigger CommentRowValid(t.rows[k], k, t.rows, votes.rows)} ::
          k in t.rows ==> CommentRowValid(t.rows[k], k, t.rows, votes.rows))
  }

  /** Comment k of a valid table satisfies the row invariant. */
  lemma RowOf(t: Table<Comment>, votes: Table<Vote>, k: nat)
    requires CommentTableValid(t, votes) && k in t.rows
    ensures CommentRowValid(t.rows[k], k, t.rows, votes.rows)
    ensures t.rows[k].id == k && t.rows[k].voteCount == Tally(votes.rows, k) && ContentValid(t.rows[k].content)
  {
    assert CommentRowValid(t.rows[k], k, t.rows, votes.rows);
  }

  /**
   * Rewriting comment `id` with a row that keeps its place (article,
   * parent, path, depth), validates, and counts the votes, after votes
   * changed on that comment only, keeps the table valid.
   */
  lemma PutKeeps(t: Table<Comment>, votes: Table<Vote>, votes': Table<Vote>, id: nat, c: Comment)
    requires CommentTableValid(t, votes) && id in t.rows
    requires LedgerValid(votes') && forall k :: k in votes'.rows ==> votes'.rows[k].subjectId < t.next
    requires forall k :: k != id ==> Tally(votes'.rows, k) == Tally(votes.rows, k)
    requires c.id == id && c.articleId == t.rows[id].articleId && c.parentId == t.rows[id].parentId
    requires c.path == t.rows[id].path && c.depth == t.rows[id].depth
    requires ContentValid(c.content) && c.voteCount == Tally(votes'.rows, id)
    ensures CommentTableValid(t.(rows := t.rows[id := c]), votes')
  {
    var t' := t.(rows := t.rows[id := c]);
    forall k | k in t'.rows
      ensures CommentRowValid(t'.rows[k], k, t'.rows, votes'.rows)
    {
      assert CommentRowValid(t.rows[k], k, t.rows, votes.rows);
    }
  }

  /**
   * Votes changed on comment `id` only: recomputing that comment's
   * `vote_count` makes the table valid again.
   */
  lemma VotesRecountKeeps(t: Table<Comment>, votes: Table<Vote>, votes': Table<Vote>, id: nat)
    requires CommentTableValid(t, votes) && id in t.rows
    requires LedgerValid(votes') && forall k :: k in votes'.rows ==> votes'.rows[k].subjectId < t.next
    requires forall k :: k != id ==> Tally(votes'.rows, k) == Tally(votes.rows, k)
    ensures CommentTableValid(t.(rows := t.rows[id := t.rows[id].(voteCount := Tally(votes'.rows, id))]), votes')
  {
    RowOf(t, votes, id);
    PutKeeps(t, votes, votes', id, t.rows[id].(voteCount := Tally(votes'.rows, id)));
  }

  /**
   * A vote cast on comment `id` and the recount that follows keep the
   * table valid, and the comment's count moves by the change of the
   * voter's vote.
   */
  lemma CastKeeps(t: Table<Comment>, votes: Table<Vote>, id: nat, voter: nat, voteType: int)
    requires CommentTableValid(t, votes) && id in t.rows && VoteTypeValid(voteType)
    ensures var votes' := Cast(votes, id, voter, voteType);
      && CommentTableValid(t.(rows := t.rows[id := t.rows[id].(voteCount := Tally(votes'.rows, id))]), votes')
      && Tally(votes'.rows, id) == t.rows[id].voteCount - Current(votes.rows, id, voter) + voteType
      && Current(votes'.rows, id, voter) == voteType
  {
    var votes' := Cast(votes, id, voter, voteType);
    RowOf(t, votes, id);
    CastKeepsLedger(votes, id, voter, voteType);
    CastRows(votes, id, voter, voteType);
    forall k | k != id
      ensures Tally(votes'.rows, k) == Tally(votes.rows, k)
    {
      TallyAfterCast(votes, id, voter, voteType, k);
    }
    TallyAfterCast(votes, id, voter, voteType, id);
    VotesRecountKeeps(t, votes, votes', id);
  }

  /**
   * Retracting a vote on comment `id` and the recount that follows keep
   * the table valid, and the comment's count loses the voter's vote.
   */
  lemma RetractKeeps(t: Table<Comment>, votes: Table<Vote>, id: nat, voter: nat)
    requires CommentTableValid(t, votes) && id in t.rows
    ensures var votes' := Retract(votes, id, voter);
      && CommentTableValid(t.(rows := t.rows[id := t.rows[id].(voteCount := Tally(votes'.rows, id))]), votes')
      && Tally(votes'.rows, id) == t.rows[id].voteCount - Current(votes.rows, id, voter)
  {
    var votes' := Retract(votes, id, voter);
    RowOf(t, votes, id);
    forall k | k != id
      ensures Tally(votes'.rows, k) == Tally(votes.rows, k)
    {
      TallyAfterRetract(votes, id, voter, k);
    }
    TallyAfterRetract(votes, id, voter, id);
    VotesRecountKeeps(t, votes, votes', id);
  }

  /** Inserting a valid new comment, placed under a stored parent or at the root, keeps the table valid. */
  lemma InsertKeeps(t: Table<Comment>, votes: Table<Vote>, c: Comment)
    requires CommentTableValid(t, votes)
    requires c.id == t.next && ContentValid(c.content) && c.voteCount == 0 && Placed(c, t.next, t.rows)
    ensures CommentTableValid(t.Insert(c), votes)
  {
    var t' := t.Insert(c);
    TallyOfUnvoted(votes.rows, c.id);
    forall k | k in t'.rows
      ensures CommentRowValid(t'.rows[k], k, t'.rows, votes.rows)
    {
      if k != c.id {
        assert CommentRowValid(t.rows[k], k, t.rows, votes.rows);
      }
    }
    assert CommentRowValid(t'.rows[c.id], c.id, t'.rows, votes.rows);
  }

  /**
   * What the stored path of a comment says: it lists the comment's
   * ancestors, each an earlier comment of the same article, one per level
   * of depth, and its text has one '.' per ancestor.
   */
  lemma {:induction false} PathListsAncestors(t: Table<Comment>, votes: Table<Vote>, k: nat)
    requires CommentTableValid(t, votes) && k in t.rows
    ensures var c := t.rows[k];
      && c.depth == |c.path|
      && DepthMatchesPath(c)
      && forall i :: 0 <= i < |c.path| ==>
           c.path[i] in t.rows && c.path[i] < k && t.rows[c.path[i]].articleId == c.articleId
    decreases k
  {
    var c := t.rows[k];
    assert CommentRowValid(c, k, t.rows, votes.rows);
    DotsCountIds(c.path);
    match c.parentId
    case None =>
    case Some(p) =>
      PathListsAncestors(t, votes, p);
      var q := t.rows[p];
      assert c.path == q.path + [p];
      forall i | 0 <= i < |c.path|
        ensures c.path[i] in t.rows && c.path[i] < k && t.rows[c.path[i]].articleId == c.articleId
      {
        if i < |q.path| {
          assert c.path[i] == q.path[i];
        }
      }
  }

  /** Rewriting one comment moves only its article's live count, by the change of its term. */
  lemma LiveCountAfterPut(m: map<nat, Comment>, id: nat, c: Comment, article: nat)
    requires id in m
    ensures LiveCount(m[id := c], article)
      == LiveCount(m, article) - LiveWeight(article)(m[id]) + LiveWeight(article)(c)
  {
    SumMapPut(m, id, c, LiveWeight(article));
  }

  /** Rewriting a comment without moving it or changing its deleted flag moves no article's live count. */
  lemma LiveCountsKept(m: map<nat, Comment>, id: nat, c: Comment)
    requires id in m && c.articleId == m[id].articleId && c.isDeleted == m[id].isDeleted
    ensures forall article :: LiveCount(m[id := c], article) == LiveCount(m, article)
  {
    forall article ensures LiveCount(m[id := c], article) == LiveCount(m, article) {
      LiveCountAfterPut(m, id, c, article);
    }
  }

  /** Changing one comment's vote count moves no live count, so the articles stay valid. */
  lemma VoteCountKeepsArticles(articles: Table<Article>, articleVotes: Table<Vote>, t: Table<Comment>,
                               lib: Library, id: nat, n: int)
    requires ArticleRows.ArticleTableValid(articles, articleVotes, t, lib) && id in t.rows
    ensures ArticleRows.ArticleTableValid(articles, articleVotes, t.(rows := t.rows[id := t.rows[id].(voteCount := n)]), lib)
  {
    LiveCountsKept(t.rows, id, t.rows[id].(voteCount := n));
    ArticleRows.CommentsChangeKeeps(articles, articleVotes, t, t.(rows := t.rows[id := t.rows[id].(voteCount := n)]), lib);
  }

  /** The parent row `create` attaches, looked up by id. */
  function ParentRow(t: Table<Comment>, parentId: Option<nat>): Option<Comment>
    requires parentId.Some? ==> parentId.value in t.rows
  {
    if parentId.Some? then Some(t.rows[parentId.value]) else None
  }

  /**
   * Creating a valid comment on a stored article, under a parent of the
   * same article or at the root, keeps both tables valid once the
   * article's comment count is recomputed, and that count gains one.
   */
  lemma CreateKeeps(articles: Table<Article>, articleVotes: Table<Vote>, t: Table<Comment>, votes: Table<Vote>,
                    lib: Library, articleId: nat, author: nat, parentId: Option<nat>, content: string, now: Time)
    requires ArticleRows.ArticleTableValid(articles, articleVotes, t, lib) && CommentTableValid(t, votes)
    requires articleId in articles.rows && ContentValid(content)
    requires parentId.Some? ==> parentId.value in t.rows && t.rows[parentId.value].articleId == articleId
    ensures var c := NewComment(t.next, articleId, author, ParentRow(t, parentId), content, now);
      var t' := t.Insert(c);
      && CommentTableValid(t', votes)
      && LiveCount(t'.rows, articleId) == articles.rows[articleId].commentCount + 1
      && ArticleRows.ArticleTableValid(
           articles.(rows := articles.rows[articleId := articles.rows[articleId].(commentCount := LiveCount(t'.rows, articleId))]),
           articleVotes, t', lib)
  {
    var c := NewComment(t.next, articleId, author, ParentRow(t, parentId), content, now);
    var t' := t.Insert(c);
    if parentId.Some? {
      RowOf(t, votes, parentId.value);
    }
    InsertKeeps(t, votes, c);
    ArticleRows.RowOf(articles, articleVotes, t, lib, articleId);
    forall k ensures LiveCount(t'.rows, k) == LiveCount(t.rows, k) + (if k == articleId then 1 else 0) {
      SumMapPut(t.rows, c.id, c, LiveWeight(k));
    }
    ArticleRows.CommentsRecountKeeps(articles, articleVotes, t, t', lib, articleId);
  }

  /**
   * Flagging comment `id` deleted keeps both tables valid once its
   * article's comment count is recomputed (when the article is stored),
   * and that count loses one if the comment was live.
   */
  lemma SoftDeleteKeeps(articles: Table<Article>, articleVotes: Table<Vote>, t: Table<Comment>, votes: Table<Vote>,
                        lib: Library, id: nat)
    requires ArticleRows.ArticleTableValid(articles, articleVotes, t, lib) && CommentTableValid(t, votes)
    requires id in t.rows
    ensures var a := t.rows[id].articleId;
      var t' := t.(rows := t.rows[id := t.rows[id].(isDeleted := true)]);
      && CommentTableValid(t', votes)
      && (a in articles.rows ==>
           && LiveCount(t'.rows, a) == articles.rows[a].commentCount - (if t.rows[id].isDeleted then 0 else 1)
           && ArticleRows.ArticleTableValid(
                articles.(rows := articles.rows[a := articles.rows[a].(commentCount := LiveCount(t'.rows, a))]),
                articleVotes, t', lib))
      && (a !in articles.rows ==> ArticleRows.ArticleTableValid(articles, articleVotes, t', lib))
  {
    var c := t.rows[id];
    var c' := c.(isDeleted := true);
    var a := c.articleId;
    var t' := t.(rows := t.rows[id := c']);
    RowOf(t, votes, id);
    PutKeeps(t, votes, votes, id, c');
    forall k ensures LiveCount(t'.rows, k) == LiveCount(t.rows, k) - (if k == a && !c.isDeleted then 1 else 0) {
      LiveCountAfterPut(t.rows, id, c', k);
    }
    if a in articles.rows {
      ArticleRows.RowOf(articles, articleVotes, t, lib, a);
      ArticleRows.CommentsRecountKeeps(articles, articleVotes, t, t', lib, a);
    } else {
      ArticleRows.CommentsChangeKeeps(articles, articleVotes, t, t', lib);
    }
  }
}
