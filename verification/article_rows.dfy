/**
 * The articles table and what keeps it consistent: every row validates and
 * its `vote_count` and `comment_count` equal what `update_vote_count` and
 * `update_comment_count` recompute.  The lemmas here show that each change
 * the models make to the table, or to the votes and comments it counts,
 * keeps it so.
 */
module ArticleRows {
  import opened Wrappers
  import opened Tables
  import opened Entities
  import opened VoteLedger
  import opened CommentTree

  /** A new article as `create` builds it: the domain from the url, `set_defaults` for the rest. */
  function NewArticle(id: nat, author: nat, categoryId: nat, title: string, url: string,
                      description: Option<string>, thumbnailUrl: Option<string>, now: Time, lib: Library)
    : (a: Article)
    ensures a.id == id && a.userId == author && a.categoryId == categoryId && a.title == title && a.url == url
    ensures a.status == "pending" && a.voteCount == 0 && a.commentCount == 0 && a.viewCount == 0
    ensures a.hotnessScore == 0.0 && a.createdAt == now
  {
    Article(id, author, categoryId, title, url, lib.hostOf(url), description, thumbnailUrl,
            "pending", 0, 0, 0, 0.0, now)
  }

  /** The attributes `article_update_params` permits, each absent, null or given. */
  datatype ArticleChanges = ArticleChanges(
    title: Param<string>, description: Param<string>, thumbnailUrl: Param<string>, categoryId: Param<nat>)

  /**
   * `update(article_update_params)` on the row: only the permitted
   * attributes change, and a null clears its column.  `title` and
   * `category_id` are required (`presence`, `belongs_to`), so a null for
   * either leaves no row that could validate: the result is `None`.
   */
  function ApplyArticleChanges(a: Article, ch: ArticleChanges): (r: Option<Article>)
    ensures r.None? <==> ch.title.Null? || ch.categoryId.Null?
    ensures r.Some? ==>
      var b := r.value;
      && b.id == a.id && b.url == a.url && b.domain == a.domain && b.userId == a.userId && b.status == a.status
      && b.voteCount == a.voteCount && b.commentCount == a.commentCount && b.viewCount == a.viewCount
      && b.hotnessScore == a.hotnessScore && b.createdAt == a.createdAt
      && b.title == (if ch.title.Given? then ch.title.value else a.title)
      && b.categoryId == (if ch.categoryId.Given? then ch.categoryId.value else a.categoryId)
      && Applied(ch.description, a.description, b.description)
      && Applied(ch.thumbnailUrl, a.thumbnailUrl, b.thumbnailUrl)
    ensures ch == ArticleChanges(Absent, Absent, Absent, Absent) ==> r == Some(a)
  {
    if ch.title.Null? || ch.categoryId.Null? then None
    else
      Some(a.(title := (match ch.title case Given(t) => t case _ => a.title),
              description := ch.description.Over(a.description),
              thumbnailUrl := ch.thumbnailUrl.Over(a.thumbnailUrl),
              categoryId := (match ch.categoryId case Given(c) => c case _ => a.categoryId)))
  }

  /**
   * Article k validates, has a non-negative view count, and its vote and
   * comment counts equal what is recomputed from the votes and comments.
   */
  ghost predicate ArticleRowValid(a: Article, k: nat, votes: map<nat, Vote>, comments: map<nat, Comment>, lib: Library) {
    && a.id == k
    && ArticleValid(a, lib)
    && a.viewCount >= 0
    && a.voteCount == Tally(votes, k)
    && a.commentCount == LiveCount(comments, k)
  }

  /**
   * The articles table with the votes and comments it counts.  A vote or a
   * comment names an article id the table has handed out.
   */
  ghost predicate ArticleTableValid(t: Table<Article>, votes: Table<Vote>, comments: Table<Comment>, lib: Library) {
    && t.Valid()
    && LedgerValid(votes)
    && (forall k :: k in votes.rows ==> votes.rows[k].subjectId < t.next)
    && (forall k :: k in comments.rows ==> comments.rows[k].articleId < t.next)
    && (forall k {:trigger ArticleRowValid(t.rows[k], k, votes.rows, comments.rows, lib)} ::
          k in t.rows ==> ArticleRowValid(t.rows[k], k, votes.rows, comments.rows, lib))
  }

  /** Article k of a valid table satisfies the row invariant. */
  lemma RowOf(t: Table<Article>, votes: Table<Vote>, comments: Table<Comment>, lib: Library, k: nat)
    requires ArticleTableValid(t, votes, comments, lib) && k in t.rows
    ensures ArticleRowValid(t.rows[k], k, votes.rows, comments.rows, lib)
    ensures t.rows[k].voteCount == Tally(votes.rows, k) && t.rows[k].commentCount == LiveCount(comments.rows, k)
    ensures ArticleValid(t.rows[k], lib) && t.rows[k].id == k
  {
    assert ArticleRowValid(t.rows[k], k, votes.rows, comments.rows, lib);
  }

  /** Rewriting one article with a row that is valid for it keeps the table valid. */
  lemma PutKeeps(t: Table<Article>, votes: Table<Vote>, comments: Table<Comment>, lib: Library, id: nat, a: Article)
    requires ArticleTableValid(t, votes, comments, lib) && id in t.rows
    requires ArticleRowValid(a, id, votes.rows, comments.rows, lib)
    ensures ArticleTableValid(t.(rows := t.rows[id := a]), votes, comments, lib)
  {
    var t' := t.(rows := t.rows[id := a]);
    forall k | k in t'.rows
      ensures ArticleRowValid(t'.rows[k], k, votes.rows, comments.rows, lib)
    {
      if k != id {
        assert ArticleRowValid(t.rows[k], k, votes.rows, comments.rows, lib);
      }
    }
  }

  /**
   * Votes changed only on article `id`: recomputing that article's
   * `vote_count` makes the table valid again.
   */
  lemma VotesRecountKeeps(t: Table<Article>, votes: Table<Vote>, votes': Table<Vote>, comments: Table<Comment>,
                          lib: Library, id: nat)
    requires ArticleTableValid(t, votes, comments, lib) && id in t.rows
    requires LedgerValid(votes') && forall k :: k in votes'.rows ==> votes'.rows[k].subjectId < t.next
    requires forall k :: k != id ==> Tally(votes'.rows, k) == Tally(votes.rows, k)
    ensures ArticleTableValid(t.(rows := t.rows[id := t.rows[id].(voteCount := Tally(votes'.rows, id))]), votes', comments, lib)
  {
    var t' := t.(rows := t.rows[id := t.rows[id].(voteCount := Tally(votes'.rows, id))]);
    forall k | k in t'.rows
      ensures ArticleRowValid(t'.rows[k], k, votes'.rows, comments.rows, lib)
    {
      assert ArticleRowValid(t.rows[k], k, votes.rows, comments.rows, lib);
    }
  }

  /**
   * A vote cast on article `id` and the recount that follows keep the table
   * valid, and the article's count moves by the change of the voter's vote.
   */
  lemma CastKeeps(t: Table<Article>, votes: Table<Vote>, comments: Table<Comment>, lib: Library,
                  id: nat, voter: nat, voteType: int)
    requires ArticleTableValid(t, votes, comments, lib) && id in t.rows && VoteTypeValid(voteType)
    ensures var votes' := Cast(votes, id, voter, voteType);
      && ArticleTableValid(t.(rows := t.rows[id := t.rows[id].(voteCount := Tally(votes'.rows, id))]), votes', comments, lib)
      && Tally(votes'.rows, id) == t.rows[id].voteCount - Current(votes.rows, id, voter) + voteType
      && Current(votes'.rows, id, voter) == voteType
  {
    var votes' := Cast(votes, id, voter, voteType);
    RowOf(t, votes, comments, lib, id);
    CastKeepsLedger(votes, id, voter, voteType);
    CastRows(votes, id, voter, voteType);
    forall k | k != id
      ensures Tally(votes'.rows, k) == Tally(votes.rows, k)
    {
      TallyAfterCast(votes, id, voter, voteType, k);
    }
    TallyAfterCast(votes, id, voter, voteType, id);
    VotesRecountKeeps(t, votes, votes', comments, lib, id);
  }

  /**
   * Retracting a vote on article `id` and the recount that follows keep
   * the table valid, and the article's count loses the voter's vote.
   */
  lemma RetractKeeps(t: Table<Article>, votes: Table<Vote>, comments: Table<Comment>, lib: Library,
                     id: nat, voter: nat)
    requires ArticleTableValid(t, votes, comments, lib) && id in t.rows
    ensures var votes' := Retract(votes, id, voter);
      && ArticleTableValid(t.(rows := t.rows[id := t.rows[id].(voteCount := Tally(votes'.rows, id))]), votes', comments, lib)
      && Tally(votes'.rows, id) == t.rows[id].voteCount - Current(votes.rows, id, voter)
  {
    var votes' := Retract(votes, id, voter);
    RowOf(t, votes, comments, lib, id);
    forall k | k != id
      ensures Tally(votes'.rows, k) == Tally(votes.rows, k)
    {
      TallyAfterRetract(votes, id, voter, k);
    }
    TallyAfterRetract(votes, id, voter, id);
    VotesRecountKeeps(t, votes, votes', comments, lib, id);
  }

  /**
   * Comments changed only on article `id`: recomputing that article's
   * `comment_count` makes the table valid again.
   */
  lemma CommentsRecountKeeps(t: Table<Article>, votes: Table<Vote>, comments: Table<Comment>, comments': Table<Comment>,
                             lib: Library, id: nat)
    requires ArticleTableValid(t, votes, comments, lib) && id in t.rows
    requires forall k :: k in comments'.rows ==> comments'.rows[k].articleId < t.next
    requires forall k :: k != id ==> LiveCount(comments'.rows, k) == LiveCount(comments.rows, k)
    ensures ArticleTableValid(
      t.(rows := t.rows[id := t.rows[id].(commentCount := LiveCount(comments'.rows, id))]), votes, comments', lib)
  {
    var t' := t.(rows := t.rows[id := t.rows[id].(commentCount := LiveCount(comments'.rows, id))]);
    forall k | k in t'.rows
      ensures ArticleRowValid(t'.rows[k], k, votes.rows, comments'.rows, lib)
    {
      assert ArticleRowValid(t.rows[k], k, votes.rows, comments.rows, lib);
    }
  }

  /** Comment changes that move no stored article's live count keep the table valid as it is. */
  lemma CommentsChangeKeeps(t: Table<Article>, votes: Table<Vote>, comments: Table<Comment>, comments': Table<Comment>,
                            lib: Library)
    requires ArticleTableValid(t, votes, comments, lib)
    requires forall k :: k in comments'.rows ==> comments'.rows[k].articleId < t.next
    requires forall k :: k in t.rows ==> LiveCount(comments'.rows, k) == LiveCount(comments.rows, k)
    ensures ArticleTableValid(t, votes, comments', lib)
  {
    forall k | k in t.rows
      ensures ArticleRowValid(t.rows[k], k, votes.rows, comments'.rows, lib)
    {
      assert ArticleRowValid(t.rows[k], k, votes.rows, comments.rows, lib);
    }
  }

  /** Inserting a valid new article, which no vote or comment names yet, keeps the table valid. */
  lemma InsertKeeps(t: Table<Article>, votes: Table<Vote>, comments: Table<Comment>, lib: Library, a: Article)
    requires ArticleTableValid(t, votes, comments, lib)
    requires a.id == t.next && ArticleValid(a, lib) && a.viewCount >= 0 && a.voteCount == 0 && a.commentCount == 0
    ensures ArticleTableValid(t.Insert(a), votes, comments, lib)
  {
    var t' := t.Insert(a);
    TallyOfUnvoted(votes.rows, a.id);
    SumMapZero(comments.rows, LiveWeight(a.id));
    forall k | k in t'.rows
      ensures ArticleRowValid(t'.rows[k], k, votes.rows, comments.rows, lib)
    {
      if k != a.id {
        assert ArticleRowValid(t.rows[k], k, votes.rows, comments.rows, lib);
      }
    }
  }

  /** Deleting an article row keeps the table valid. */
  lemma DeleteKeeps(t: Table<Article>, votes: Table<Vote>, comments: Table<Comment>, lib: Library, id: nat)
    requires ArticleTableValid(t, votes, comments, lib)
    ensures ArticleTableValid(t.Delete(id), votes, comments, lib)
  {
    var t' := t.Delete(id);
    forall k | k in t'.rows
      ensures ArticleRowValid(t'.rows[k], k, votes.rows, comments.rows, lib)
    {
      assert ArticleRowValid(t.rows[k], k, votes.rows, comments.rows, lib);
    }
  }
}
