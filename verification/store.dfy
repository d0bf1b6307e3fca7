/**
 * The database and the ActiveRecord model methods that change it.  Each
 * table is a field; each model method is a method that changes only the
 * tables its `modifies` clause names, and keeps the invariants of those
 * tables.  `Valid` gathers them all: the validations of every row, the
 * uniqueness rules, and the derived counters (`vote_count`,
 * `comment_count`) equal to what they are recomputed from.
 */
module Persistence {
  import opened Wrappers
  import opened Tables
  import opened Text
  import opened Entities
  import opened VoteLedger
  import opened Karma
  import opened CommentTree
  import opened TagNames
  import opened TagTable
  import ArticleRows
  import CommentRows
  import Reports
  import Categories
  import SavedArticles
  import Users

  class Store {
    var users: Table<User>
    var articles: Table<Article>
    var comments: Table<Comment>
    var articleVotes: Table<Vote>
    var commentVotes: Table<Vote>
    var activities: seq<Activity>
    var tags: Table<Tag>
    var articleTags: Table<ArticleTag>
    var categories: Table<Category>
    var subscriptions: Table<Subscription>
    var saves: Table<SavedArticle>
    var reports: Table<Report>
    /** The follow relation; creating follows is not part of this model. */
    var follows: seq<Follow>
    const lib: Library

    /** Every article validates, and its counters equal what they are recomputed from. */
    ghost predicate ArticlesValid()
      reads this`articles, this`articleVotes, this`comments
    {
      ArticleRows.ArticleTableValid(articles, articleVotes, comments, lib)
    }

    /** Every comment validates, is placed under its parent, and counts its votes. */
    ghost predicate CommentsValid()
      reads this`comments, this`commentVotes
    {
      CommentRows.CommentTableValid(comments, commentVotes)
    }

    /** Every log entry has a known type and the points its type earns. */
    ghost predicate ActivitiesValid()
      reads this`activities
    {
      LogValid(activities)
    }

    /** Tag usage never negative, names unique ignoring case, slugs unique; join rows keyed by id. */
    ghost predicate TagsAndJoinsValid()
      reads this`tags, this`articleTags
    {
      TagsValid(tags) && JoinsValid(articleTags)
    }

    /** Every report validates. */
    ghost predicate ReportsValid()
      reads this`reports
    {
      Reports.ReportsValid(reports)
    }

    /** Category names unique among siblings, slugs unique; one subscription per (user, category). */
    ghost predicate CategoriesValid()
      reads this`categories, this`subscriptions
    {
      Categories.CategoriesValid(categories) && Categories.SubscriptionsValid(subscriptions)
    }

    /** One save per (user, article). */
    ghost predicate SavesValid()
      reads this`saves
    {
      SavedArticles.SavesValid(saves)
    }

    /** Every user validates; usernames and e-mails unique ignoring case. */
    ghost predicate UsersValid()
      reads this`users
    {
      Users.UsersValid(users, lib)
    }

    ghost predicate Valid()
      reads this
    {
      && ArticlesValid() && CommentsValid() && ActivitiesValid() && TagsAndJoinsValid()
      && ReportsValid() && CategoriesValid() && SavesValid() && UsersValid()
    }

    /** An empty database. */
    constructor(lib: Library, follows: seq<Follow>)
      ensures Valid() && this.lib == lib && this.follows == follows
      ensures articles.rows == map[] && comments.rows == map[] && activities == []
    {
      this.lib := lib;
      this.follows := follows;
      users := Empty();
      articles := Empty();
      comments := Empty();
      articleVotes := Empty();
      commentVotes := Empty();
      activities := [];
      tags := Empty();
      articleTags := Empty();
      categories := Empty();
      subscriptions := Empty();
      saves := Empty();
      reports := Empty();
      new;
      assert ArticlesValid();
      assert CommentsValid();
      assert TagsAndJoinsValid();
      assert ReportsValid() && CategoriesValid() && SavesValid() && UsersValid();
    }

    // ---------------------------------------------------------------- articles

    /**
     * `Article#update_vote_count`: `update(vote_count: article_votes.sum(:vote_type))`.
     * The update runs the article's validations and is skipped if they fail.
     */
    method RecountArticleVotes(id: nat)
      requires id in articles.rows
      modifies this`articles
      ensures articles.next == old(articles.next)
      ensures articles.rows == if ArticleValid(old(articles.rows[id]), lib)
        then old(articles.rows)[id := old(articles.rows[id]).(voteCount := Tally(articleVotes.rows, id))]
        else old(articles.rows)
    {
      var a := articles.rows[id];
      if ArticleValid(a, lib) {
        articles := articles.(rows := articles.rows[id := a.(voteCount := Tally(articleVotes.rows, id))]);
      }
    }

    /**
     * `Article#update_comment_count`:
     * `update(comment_count: comments.where(is_deleted: false).count)`, skipped
     * if the article's validations fail.
     */
    method RecountArticleComments(id: nat)
      requires id in articles.rows
      modifies this`articles
      ensures articles.next == old(articles.next)
      ensures articles.rows == if ArticleValid(old(articles.rows[id]), lib)
        then old(articles.rows)[id := old(articles.rows[id]).(commentCount := LiveCount(comments.rows, id))]
        else old(articles.rows)
    {
      var a := articles.rows[id];
      if ArticleValid(a, lib) {
        articles := articles.(rows := articles.rows[id := a.(commentCount := LiveCount(comments.rows, id))]);
      }
    }

    /**
     * `article_votes.find_or_initialize_by(user:)`, `vote_type =`, `save!`:
     * the voter's existing vote is overwritten or a new one recorded, and the
     * vote's `after_save` callback recomputes the article's vote count.
     */
    method SaveArticleVote(id: nat, voter: nat, voteType: int)
      requires ArticlesValid() && id in articles.rows && VoteTypeValid(voteType)
      modifies this`articleVotes, this`articles
      ensures ArticlesValid()
      ensures articleVotes == Cast(old(articleVotes), id, voter, voteType)
      ensures Current(articleVotes.rows, id, voter) == voteType
      ensures articles.next == old(articles.next)
      ensures articles.rows == old(articles.rows)[id := old(articles.rows[id]).(voteCount := Tally(articleVotes.rows, id))]
      ensures articles.rows[id].voteCount
        == old(articles.rows[id].voteCount) - old(Current(articleVotes.rows, id, voter)) + voteType
    {
      ArticleRows.RowOf(articles, articleVotes, comments, lib, id);
      ArticleRows.CastKeeps(articles, articleVotes, comments, lib, id, voter, voteType);
      var after := Cast(articleVotes, id, voter, voteType);
      ghost var counted := articles.(rows := articles.rows[id := articles.rows[id].(voteCount := Tally(after.rows, id))]);
      articleVotes := after;
      RecountArticleVotes(id);
      assert articles == counted;
    }

    /**
     * `vote&.destroy` on the voter's vote found by `find_by(user:)`: the
     * vote, if there is one, is deleted and its `after_destroy` callback
     * recomputes the article's vote count.
     */
    method DestroyArticleVote(id: nat, voter: nat)
      requires ArticlesValid() && id in articles.rows
      modifies this`articleVotes, this`articles
      ensures ArticlesValid()
      ensures articleVotes == Retract(old(articleVotes), id, voter)
      ensures FindVote(articleVotes.rows, id, voter).None?
      ensures articles.next == old(articles.next)
      ensures articles.rows == old(articles.rows)[id := old(articles.rows[id]).(voteCount := Tally(articleVotes.rows, id))]
      ensures articles.rows[id].voteCount == old(articles.rows[id].voteCount) - old(Current(articleVotes.rows, id, voter))
    {
      ArticleRows.RowOf(articles, articleVotes, comments, lib, id);
      ArticleRows.RetractKeeps(articles, articleVotes, comments, lib, id, voter);
      TallyAfterRetract(articleVotes, id, voter, id);
      if FindVote(articleVotes.rows, id, voter).Some? {
        var after := Retract(articleVotes, id, voter);
        ghost var counted := articles.(rows := articles.rows[id := articles.rows[id].(voteCount := Tally(after.rows, id))]);
        articleVotes := after;
        RecountArticleVotes(id);
        assert articles == counted;
      } else {
        RetractMissingIsNoOp(articleVotes, id, voter);
        assert articles.rows == articles.rows[id := articles.rows[id].(voteCount := Tally(articleVotes.rows, id))];
      }
    }

    /** A recount right after a recount changes nothing while the articles are valid. */
    method RecountCountedArticle(id: nat)
      requires ArticlesValid() && id in articles.rows
      modifies this`articles
      ensures articles == old(articles)
    {
      ArticleRows.RowOf(articles, articleVotes, comments, lib, id);
      ghost var before := articles;
      RecountArticleVotes(id);
      assert articles.rows == before.rows;
    }

    /**
     * `vote_up!` (voteType 1) and `vote_down!` (voteType -1): the vote is
     * saved (its callback recounting), `update_vote_count` recounts again,
     * and an activity worth 0 points is logged for the voter.
     */
    method VoteArticle(id: nat, voter: nat, voteType: int)
      requires ArticlesValid() && ActivitiesValid() && id in articles.rows && VoteTypeValid(voteType)
      modifies this`articleVotes, this`articles, this`activities
      ensures ArticlesValid() && ActivitiesValid()
      ensures articleVotes == Cast(old(articleVotes), id, voter, voteType)
      ensures articles.next == old(articles.next)
      ensures articles.rows == old(articles.rows)[id := old(articles.rows[id]).(voteCount := Tally(articleVotes.rows, id))]
      ensures articles.rows[id].voteCount == old(articles.rows[id].voteCount) - old(Current(articleVotes.rows, id, voter)) + voteType
      ensures activities == old(activities) + [VoteActivity(voter, id, voteType)]
    {
      SaveArticleVote(id, voter, voteType);
      RecountCountedArticle(id);
      LogAppend(activities, VoteActivity(voter, id, voteType));
      activities := activities + [VoteActivity(voter, id, voteType)];
    }

    /**
     * `unvote!`: the voter's vote, if any, is destroyed (its callback
     * recounting) and `update_vote_count` recounts again; nothing is logged.
     */
    method UnvoteArticle(id: nat, voter: nat)
      requires ArticlesValid() && id in articles.rows
      modifies this`articleVotes, this`articles
      ensures ArticlesValid()
      ensures articleVotes == Retract(old(articleVotes), id, voter)
      ensures id in articles.rows && articles.rows[id].voteCount == Tally(articleVotes.rows, id)
      ensures articles.next == old(articles.next)
      ensures articles.rows == old(articles.rows)[id := old(articles.rows[id]).(voteCount := Tally(articleVotes.rows, id))]
      ensures articles.rows[id].voteCount == old(articles.rows[id].voteCount) - old(Current(articleVotes.rows, id, voter))
    {
      DestroyArticleVote(id, voter);
      RecountCountedArticle(id);
    }

    /** `increment_views`: `increment!(:view_count)`, which skips validations. */
    method IncrementViews(id: nat)
      requires ArticlesValid() && id in articles.rows
      modifies this`articles
      ensures ArticlesValid()
      ensures articles.next == old(articles.next)
      ensures articles.rows == old(articles.rows)[id := old(articles.rows[id]).(viewCount := old(articles.rows[id].viewCount) + 1)]
    {
      var a := articles.rows[id];
      var a' := a.(viewCount := a.viewCount + 1);
      ArticleRows.RowOf(articles, articleVotes, comments, lib, id);
      ArticleRows.PutKeeps(articles, articleVotes, comments, lib, id, a');
      articles := articles.(rows := articles.rows[id := a']);
    }

    /**
     * `Article.create` through `current_user.articles.new(...)` and `save`:
     * the row is inserted only when the article validates and its category
     * exists (`belongs_to :category`); `create_submit_activity` then logs a
     * 1-point 'submit' for the author.
     */
    method CreateArticle(author: nat, categoryId: nat, title: string, url: string,
                         description: Option<string>, thumbnailUrl: Option<string>, now: Time)
      returns (id: Option<nat>)
      requires ArticlesValid() && ActivitiesValid()
      modifies this`articles, this`activities
      ensures ArticlesValid() && ActivitiesValid()
      ensures var a := ArticleRows.NewArticle(old(articles.next), author, categoryId, title, url,
                                              description, thumbnailUrl, now, lib);
        if ArticleValid(a, lib) && categoryId in categories.rows then
          && id == Some(a.id)
          && articles == old(articles).Insert(a)
          && activities == old(activities) + [SubmitActivity(author, a.id)]
        else
          id.None? && articles == old(articles) && activities == old(activities)
    {
      var a := ArticleRows.NewArticle(articles.next, author, categoryId, title, url, description, thumbnailUrl, now, lib);
      if ArticleValid(a, lib) && categoryId in categories.rows {
        ArticleRows.InsertKeeps(articles, articleVotes, comments, lib, a);
        articles := articles.Insert(a);
        LogAppend(activities, SubmitActivity(author, a.id));
        activities := activities + [SubmitActivity(author, a.id)];
        id := Some(a.id);
      } else {
        id := None;
      }
    }

    /**
     * `update(article_update_params)`: the permitted attributes change when
     * the result validates and its category exists; otherwise nothing does.
     */
    method UpdateArticle(id: nat, changes: ArticleRows.ArticleChanges) returns (ok: bool)
      requires ArticlesValid() && id in articles.rows
      modifies this`articles
      ensures ArticlesValid()
      ensures articles.next == old(articles.next)
      ensures var b := ArticleRows.ApplyArticleChanges(old(articles.rows[id]), changes);
        && ok == (b.Some? && ArticleValid(b.value, lib) && b.value.categoryId in categories.rows)
        && articles.rows == if ok then old(articles.rows)[id := b.value] else old(articles.rows)
    {
      var b := ArticleRows.ApplyArticleChanges(articles.rows[id], changes);
      ok := b.Some? && ArticleValid(b.value, lib) && b.value.categoryId in categories.rows;
      if ok {
        ArticleRows.RowOf(articles, articleVotes, comments, lib, id);
        ArticleRows.PutKeeps(articles, articleVotes, comments, lib, id, b.value);
        articles := articles.(rows := articles.rows[id := b.value]);
      }
    }

    /** `destroy`: the article row goes; the dependent rows are not modelled. */
    method DestroyArticle(id: nat)
      requires ArticlesValid()
      modifies this`articles
      ensures ArticlesValid()
      ensures articles == old(articles).Delete(id)
    {
      ArticleRows.DeleteKeeps(articles, articleVotes, comments, lib, id);
      articles := articles.Delete(id);
    }

    // ---------------------------------------------------------------- comments

    /**
     * `Comment#update_vote_count`: `update(vote_count: comment_votes.sum(:vote_type))`,
     * skipped if the comment's validation fails.
     */
    method RecountCommentVotes(id: nat)
      requires id in comments.rows
      modifies this`comments
      ensures comments.next == old(comments.next)
      ensures comments.rows == if ContentValid(old(comments.rows[id].content))
        then old(comments.rows)[id := old(comments.rows[id]).(voteCount := Tally(commentVotes.rows, id))]
        else old(comments.rows)
    {
      var c := comments.rows[id];
      if ContentValid(c.content) {
        comments := comments.(rows := comments.rows[id := c.(voteCount := Tally(commentVotes.rows, id))]);
      }
    }

    /**
     * `comment_votes.find_or_initialize_by(user:)`, `vote_type =`, `save!`:
     * the voter's vote is overwritten or recorded and the `after_save`
     * callback recomputes the comment's vote count.
     */
    method SaveCommentVote(id: nat, voter: nat, voteType: int)
      requires ArticlesValid() && CommentsValid() && id in comments.rows && VoteTypeValid(voteType)
      modifies this`commentVotes, this`comments
      ensures ArticlesValid() && CommentsValid()
      ensures commentVotes == Cast(old(commentVotes), id, voter, voteType)
      ensures Current(commentVotes.rows, id, voter) == voteType
      ensures comments.next == old(comments.next)
      ensures comments.rows == old(comments.rows)[id := old(comments.rows[id]).(voteCount := Tally(commentVotes.rows, id))]
      ensures comments.rows[id].voteCount
        == old(comments.rows[id].voteCount) - old(Current(commentVotes.rows, id, voter)) + voteType
    {
      CommentRows.RowOf(comments, commentVotes, id);
      CommentRows.CastKeeps(comments, commentVotes, id, voter, voteType);
      var after := Cast(commentVotes, id, voter, voteType);
      ghost var counted := comments.(rows := comments.rows[id := comments.rows[id].(voteCount := Tally(after.rows, id))]);
      CommentRows.VoteCountKeepsArticles(articles, articleVotes, comments, lib, id, Tally(after.rows, id));
      commentVotes := after;
      RecountCommentVotes(id);
      assert comments == counted;
    }

    /**
     * `vote&.destroy` on the voter's comment vote: the vote, if there is
     * one, is deleted and the `after_destroy` callback recounts.
     */
    method DestroyCommentVote(id: nat, voter: nat)
      requires ArticlesValid() && CommentsValid() && id in comments.rows
      modifies this`commentVotes, this`comments
      ensures ArticlesValid() && CommentsValid()
      ensures commentVotes == Retract(old(commentVotes), id, voter)
      ensures FindVote(commentVotes.rows, id, voter).None?
      ensures comments.next == old(comments.next)
      ensures comments.rows == old(comments.rows)[id := old(comments.rows[id]).(voteCount := Tally(commentVotes.rows, id))]
      ensures comments.rows[id].voteCount == old(comments.rows[id].voteCount) - old(Current(commentVotes.rows, id, voter))
    {
      CommentRows.RowOf(comments, commentVotes, id);
      CommentRows.RetractKeeps(comments, commentVotes, id, voter);
      TallyAfterRetract(commentVotes, id, voter, id);
      if FindVote(commentVotes.rows, id, voter).Some? {
        var after := Retract(commentVotes, id, voter);
        ghost var counted := comments.(rows := comments.rows[id := comments.rows[id].(voteCount := Tally(after.rows, id))]);
        CommentRows.VoteCountKeepsArticles(articles, articleVotes, comments, lib, id, Tally(after.rows, id));
        commentVotes := after;
        RecountCommentVotes(id);
        assert comments == counted;
      } else {
        RetractMissingIsNoOp(commentVotes, id, voter);
        assert comments.rows == comments.rows[id := comments.rows[id].(voteCount := Tally(commentVotes.rows, id))];
      }
    }

    /** A recount right after a recount changes nothing while the comments are valid. */
    method RecountCountedComment(id: nat)
      requires CommentsValid() && id in comments.rows
      modifies this`comments
      ensures comments == old(comments)
    {
      CommentRows.RowOf(comments, commentVotes, id);
      ghost var before := comments;
      RecountCommentVotes(id);
      assert comments.rows == before.rows;
    }

    /**
     * `Comment#vote_up!` / `vote_down!`: the vote is saved (its callback
     * recounting) and `update_vote_count` recounts again; unlike an article
     * vote, no activity is logged.
     */
    method VoteComment(id: nat, voter: nat, voteType: int)
      requires ArticlesValid() && CommentsValid() && id in comments.rows && VoteTypeValid(voteType)
      modifies this`commentVotes, this`comments
      ensures ArticlesValid() && CommentsValid()
      ensures commentVotes == Cast(old(commentVotes), id, voter, voteType)
      ensures comments.next == old(comments.next)
      ensures comments.rows == old(comments.rows)[id := old(comments.rows[id]).(voteCount := Tally(commentVotes.rows, id))]
      ensures comments.rows[id].voteCount == old(comments.rows[id].voteCount) - old(Current(commentVotes.rows, id, voter)) + voteType
    {
      SaveCommentVote(id, voter, voteType);
      RecountCountedComment(id);
    }

    /** `Comment#unvote!`: the voter's vote, if any, is destroyed and the count recomputed. */
    method UnvoteComment(id: nat, voter: nat)
      requires ArticlesValid() && CommentsValid() && id in comments.rows
      modifies this`commentVotes, this`comments
      ensures ArticlesValid() && CommentsValid()
      ensures commentVotes == Retract(old(commentVotes), id, voter)
      ensures comments.next == old(comments.next)
      ensures comments.rows == old(comments.rows)[id := old(comments.rows[id]).(voteCount := Tally(commentVotes.rows, id))]
      ensures comments.rows[id].voteCount == old(comments.rows[id].voteCount) - old(Current(commentVotes.rows, id, voter))
    {
      DestroyCommentVote(id, voter);
      RecountCountedComment(id);
    }

    /**
     * `@article.comments.new(content)` with `user` and `parent` set, then
     * `save`: the comment is inserted when its content validates, placed
     * by `set_path_and_depth`; `increment_article_comment_count` recounts
     * the article's live comments, which gains one.  The parent, when
     * given, is one of the article's comments.
     */
    method InsertComment(articleId: nat, author: nat, parentId: Option<nat>, content: string, now: Time)
      returns (id: Option<nat>)
      requires ArticlesValid() && CommentsValid() && articleId in articles.rows
      requires parentId.Some? ==> parentId.value in comments.rows && comments.rows[parentId.value].articleId == articleId
      modifies this`comments, this`articles
      ensures ArticlesValid() && CommentsValid()
      ensures var c := CommentRows.NewComment(old(comments.next), articleId, author,
                                              CommentRows.ParentRow(old(comments), parentId), content, now);
        if ContentValid(content) then
          && id == Some(c.id)
          && comments == old(comments).Insert(c)
          && articles.next == old(articles.next)
          && articles.rows == old(articles.rows)[articleId := old(articles.rows[articleId]).(
               commentCount := LiveCount(comments.rows, articleId))]
          && articles.rows[articleId].commentCount == old(articles.rows[articleId].commentCount) + 1
        else
          id.None? && comments == old(comments) && articles == old(articles)
    {
      var c := CommentRows.NewComment(comments.next, articleId, author, CommentRows.ParentRow(comments, parentId), content, now);
      if !ContentValid(content) {
        return None;
      }
      CommentRows.CreateKeeps(articles, articleVotes, comments, commentVotes, lib, articleId, author, parentId, content, now);
      var inserted := comments.Insert(c);
      ghost var counted := articles.(rows := articles.rows[articleId := articles.rows[articleId].(
        commentCount := LiveCount(inserted.rows, articleId))]);
      ArticleRows.RowOf(articles, articleVotes, comments, lib, articleId);
      comments := inserted;
      RecountArticleComments(articleId);
      assert articles == counted;
      id := Some(c.id);
    }

    /** `Comment.create` as a whole: the insert, then `create_comment_activity` logs a 1-point 'comment'. */
    method CreateComment(articleId: nat, author: nat, parentId: Option<nat>, content: string, now: Time)
      returns (id: Option<nat>)
      requires ArticlesValid() && CommentsValid() && ActivitiesValid() && articleId in articles.rows
      requires parentId.Some? ==> parentId.value in comments.rows && comments.rows[parentId.value].articleId == articleId
      modifies this`comments, this`articles, this`activities
      ensures ArticlesValid() && CommentsValid() && ActivitiesValid()
      ensures var c := CommentRows.NewComment(old(comments.next), articleId, author,
                                              CommentRows.ParentRow(old(comments), parentId), content, now);
        if ContentValid(content) then
          && id == Some(c.id)
          && comments == old(comments).Insert(c)
          && articles.next == old(articles.next)
          && articles.rows == old(articles.rows)[articleId := old(articles.rows[articleId]).(
               commentCount := old(articles.rows[articleId].commentCount) + 1)]
          && activities == old(activities) + [CommentActivity(author, c.id)]
        else
          id.None? && comments == old(comments) && articles == old(articles) && activities == old(activities)
    {
      id := InsertComment(articleId, author, parentId, content, now);
      if id.Some? {
        LogAppend(activities, CommentActivity(author, id.value));
        activities := activities + [CommentActivity(author, id.value)];
      }
    }

    /**
     * `soft_delete`: `update(is_deleted: true)` on this comment only (its
     * content already validates), then `article.update_comment_count`.
     * Replies keep their rows.
     */
    method SoftDeleteComment(id: nat)
      requires ArticlesValid() && CommentsValid() && id in comments.rows
      modifies this`comments, this`articles
      ensures ArticlesValid() && CommentsValid()
      ensures comments.next == old(comments.next)
      ensures comments.rows == old(comments.rows)[id := old(comments.rows[id]).(isDeleted := true)]
      ensures var a := old(comments.rows[id].articleId);
        && articles.next == old(articles.next)
        && if a in old(articles.rows) then
             articles.rows == old(articles.rows)[a := old(articles.rows[a]).(
               commentCount := old(articles.rows[a].commentCount) - (if old(comments.rows[id].isDeleted) then 0 else 1))]
           else articles.rows == old(articles.rows)
    {
      var c' := comments.rows[id].(isDeleted := true);
      var a := comments.rows[id].articleId;
      CommentRows.SoftDeleteKeeps(articles, articleVotes, comments, commentVotes, lib, id);
      var deleted := comments.(rows := comments.rows[id := c']);
      if a in articles.rows {
        ArticleRows.RowOf(articles, articleVotes, comments, lib, a);
        ghost var counted := articles.(rows := articles.rows[a := articles.rows[a].(
          commentCount := LiveCount(deleted.rows, a))]);
        comments := deleted;
        RecountArticleComments(a);
        assert articles == counted;
      } else {
        comments := deleted;
      }
    }

    /**
     * `update(comment_params)`: only the content can change.  A `content`
     * given with a value is written when it validates; a null fails the
     * presence validation; with no `content` key the row is saved as it is.
     */
    method UpdateComment(id: nat, content: Param<string>) returns (ok: bool)
      requires ArticlesValid() && CommentsValid() && id in comments.rows
      modifies this`comments
      ensures ArticlesValid() && CommentsValid()
      ensures ok <==> !content.Null? && (content.Given? ==> ContentValid(content.value))
      ensures comments.next == old(comments.next)
      ensures comments.rows == if ok && content.Given?
                               then old(comments.rows)[id := old(comments.rows[id]).(content := content.value)]
                               else old(comments.rows)
    {
      CommentRows.RowOf(comments, commentVotes, id);
      match content
      case Absent => ok := true;
      case Null => ok := false;
      case Given(text) =>
        ok := ContentValid(text);
        if ok {
          var c' := comments.rows[id].(content := text);
          CommentRows.PutKeeps(comments, commentVotes, commentVotes, id, c');
          CommentRows.LiveCountsKept(comments.rows, id, c');
          ArticleRows.CommentsChangeKeeps(articles, articleVotes, comments, comments.(rows := comments.rows[id := c']), lib);
          comments := comments.(rows := comments.rows[id := c']);
        }
    }

    // ---------------------------------------------------------------- tags

    /** `Tag#increment_usage`: `increment!(:usage_count)`, which skips validations. */
    method IncrementTagUsage(id: nat)
      requires TagsAndJoinsValid() && id in tags.rows
      modifies this`tags
      ensures TagsAndJoinsValid()
      ensures tags.next == old(tags.next)
      ensures tags.rows == old(tags.rows)[id := old(tags.rows[id]).(usageCount := old(tags.rows[id].usageCount) + 1)]
    {
      var x := tags.rows[id];
      var n := x.usageCount + 1;
      UsageChangeKeeps(tags, id, n);
      tags := tags.(rows := tags.rows[id := x.(usageCount := n)]);
    }

    /** `Tag#decrement_usage`: `decrement!(:usage_count)` only while the count is positive. */
    method DecrementTagUsage(id: nat)
      requires TagsAndJoinsValid() && id in tags.rows
      modifies this`tags
      ensures TagsAndJoinsValid()
      ensures tags.next == old(tags.next)
      ensures tags.rows == if old(tags.rows[id].usageCount) > 0
        then old(tags.rows)[id := old(tags.rows[id]).(usageCount := old(tags.rows[id].usageCount) - 1)]
        else old(tags.rows)
      ensures tags.rows[id].usageCount == DecrementedUsage(old(tags.rows[id].usageCount)) >= 0
    {
      var x := tags.rows[id];
      if x.usageCount > 0 {
        var n := x.usageCount - 1;
        UsageChangeKeeps(tags, id, n);
        tags := tags.(rows := tags.rows[id := x.(usageCount := n)]);
      }
    }

    /**
     * The articles controller's `add_tags`: for each name in turn,
     * `Tag.find_or_create_by(name: name.downcase)` and a join row linking the
     * article to the tag found or created.
     */
    method AddTags(articleId: nat, names: seq<string>)
      requires TagsAndJoinsValid()
      modifies this`tags, this`articleTags
      ensures TagsAndJoinsValid()
      ensures (tags, articleTags) == AddTagsSpec(old(tags), old(articleTags), articleId, names, lib)
    {
      var i := 0;
      while i < |names|
        invariant 0 <= i <= |names|
        invariant TagsAndJoinsValid()
        invariant AddTagsSpec(tags, articleTags, articleId, names[i..], lib)
          == AddTagsSpec(old(tags), old(articleTags), articleId, names, lib)
      {
        assert names[i..][0] == names[i] && names[i..][1..] == names[i + 1..];
        var r := FindOrCreate(tags, LookupName(names[i]), lib);
        tags := r.0;
        if r.1.Some? {
          articleTags := articleTags.Insert(ArticleTag(articleTags.next, articleId, r.1.value));
        }
        i := i + 1;
      }
      assert names[i..] == [];
    }

    // ---------------------------------------------------------------- reports

    /**
     * `reports.new(reason)` with the reportable set, then `save`: inserted
     * as 'pending' when the reason validates.
     */
    method CreateReport(reporter: nat, reportable: EntityRef, reason: string, now: Time) returns (id: Option<nat>)
      requires ReportsValid()
      modifies this`reports
      ensures ReportsValid()
      ensures var r := Reports.NewReport(old(reports.next), reporter, reportable, reason, now);
        if ReportValid(r) then id == Some(r.id) && reports == old(reports).Insert(r)
        else id.None? && reports == old(reports)
    {
      var r := Reports.NewReport(reports.next, reporter, reportable, reason, now);
      if ReportValid(r) {
        Reports.InsertKeeps(reports, reporter, reportable, reason, now);
        reports := reports.Insert(r);
        id := Some(r.id);
      } else {
        id := None;
      }
    }

    /** `resolve!(resolver)`, from whatever status the report has. */
    method ResolveReport(id: nat, resolver: nat, now: Time)
      requires ReportsValid() && id in reports.rows
      modifies this`reports
      ensures ReportsValid()
      ensures reports == old(reports).Put(id, Reports.Resolve(old(reports.rows[id]), resolver, now))
    {
      Reports.CloseKeeps(reports, id, "resolved", resolver, now);
      reports := reports.Put(id, Reports.Resolve(reports.rows[id], resolver, now));
    }

    /** `dismiss!(resolver)`, from whatever status the report has. */
    method DismissReport(id: nat, resolver: nat, now: Time)
      requires ReportsValid() && id in reports.rows
      modifies this`reports
      ensures ReportsValid()
      ensures reports == old(reports).Put(id, Reports.Dismiss(old(reports.rows[id]), resolver, now))
    {
      Reports.CloseKeeps(reports, id, "dismissed", resolver, now);
      reports := reports.Put(id, Reports.Dismiss(reports.rows[id], resolver, now));
    }

    // ---------------------------------------------------------------- categories

    /**
     * `Category.create`: the slug is generated from the name when blank, and
     * the row is inserted when the validations pass.
     */
    method CreateCategory(name: string, slug: string, parentId: Option<nat>, displayOrder: int)
      returns (id: Option<nat>)
      requires CategoriesValid()
      modifies this`categories
      ensures CategoriesValid()
      ensures var c := Category(old(categories.next), name, Categories.SlugFor(name, slug, lib), parentId, displayOrder);
        if Categories.CanCreate(old(categories), c) then id == Some(c.id) && categories == old(categories).Insert(c)
        else id.None? && categories == old(categories)
    {
      var c := Category(categories.next, name, Categories.SlugFor(name, slug, lib), parentId, displayOrder);
      if Categories.CanCreate(categories, c) {
        Categories.InsertKeeps(categories, c);
        categories := categories.Insert(c);
        id := Some(c.id);
      } else {
        id := None;
      }
    }

    /** `category_subscriptions.find_or_create_by(category:)`; the row is always persisted. */
    method Subscribe(user: nat, categoryId: nat) returns (persisted: bool)
      requires CategoriesValid()
      modifies this`subscriptions
      ensures CategoriesValid() && persisted
      ensures subscriptions == Categories.Subscribe(old(subscriptions), user, categoryId)
      ensures Categories.FindSubscription(subscriptions, user, categoryId).Some?
    {
      Categories.SubscribeIdempotent(subscriptions, user, categoryId);
      subscriptions := Categories.Subscribe(subscriptions, user, categoryId);
      persisted := true;
    }

    /** `category_subscriptions.find_by(category:)`, then `destroy` when found. */
    method Unsubscribe(user: nat, categoryId: nat) returns (found: bool)
      requires CategoriesValid()
      modifies this`subscriptions
      ensures CategoriesValid()
      ensures found == Categories.FindSubscription(old(subscriptions), user, categoryId).Some?
      ensures subscriptions == Categories.Unsubscribe(old(subscriptions), user, categoryId)
      ensures Categories.FindSubscription(subscriptions, user, categoryId).None?
    {
      Categories.UnsubscribeRemovesPair(subscriptions, user, categoryId);
      found := Categories.FindSubscription(subscriptions, user, categoryId).Some?;
      subscriptions := Categories.Unsubscribe(subscriptions, user, categoryId);
    }

    // ---------------------------------------------------------------- saved articles

    /** `saved_articles.new(article:)` and `save`, refused when the pair is already saved. */
    method SaveArticle(user: nat, articleId: nat, now: Time) returns (ok: bool)
      requires SavesValid()
      modifies this`saves
      ensures SavesValid()
      ensures (saves, ok) == SavedArticles.Save(old(saves), user, articleId, now)
    {
      SavedArticles.SaveTwiceRefused(saves, user, articleId, now, now);
      var r := SavedArticles.Save(saves, user, articleId, now);
      saves, ok := r.0, r.1;
    }

    /** `saved_articles.find(id)` among the user's saves, then `destroy`. */
    method RemoveSave(user: nat, id: nat) returns (found: bool)
      requires SavesValid()
      modifies this`saves
      ensures SavesValid()
      ensures (saves, found) == SavedArticles.Unsave(old(saves), user, id)
    {
      SavedArticles.UnsaveKeepsOthers(saves, user, id);
      var r := SavedArticles.Unsave(saves, user, id);
      saves, found := r.0, r.1;
    }

    // ---------------------------------------------------------------- users

    /** `User.create`: the defaults, then the validations; the row is inserted when they pass. */
    method CreateUser(username: string, email: string, now: Time) returns (id: Option<nat>)
      requires UsersValid()
      modifies this`users
      ensures UsersValid()
      ensures var u := Users.NewUser(old(users.next), username, email, now);
        if Users.CanCreate(old(users), u, lib) then id == Some(u.id) && users == old(users).Insert(u)
        else id.None? && users == old(users)
    {
      var u := Users.NewUser(users.next, username, email, now);
      if Users.CanCreate(users, u, lib) {
        Users.InsertKeeps(users, u, lib);
        users := users.Insert(u);
        id := Some(u.id);
      } else {
        id := None;
      }
    }

    /** `update(user_update_params)`: bio, website and avatar change, and the update never fails. */
    method UpdateProfile(id: nat, changes: Users.ProfileChanges) returns (ok: bool)
      requires UsersValid() && id in users.rows
      modifies this`users
      ensures UsersValid() && ok
      ensures users == old(users).Put(id, Users.ApplyProfile(old(users.rows[id]), changes))
    {
      var u := Users.ApplyProfile(users.rows[id], changes);
      Users.ProfileUpdateKeeps(users, lib, id, changes);
      ok := UserFieldsValid(u) && lib.isEmail(u.email);
      users := users.Put(id, u);
    }
  }
}
