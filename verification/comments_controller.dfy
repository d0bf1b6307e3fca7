/**
 * The actions of `Api::V1::CommentsController` that change the database,
 * guarded in the order the before-actions run: `authenticate_user!` (401),
 * `set_comment` or `set_article` (404), then the action's own checks.
 */
module CommentsController {
  import opened Wrappers
  import opened Entities
  import opened VoteLedger
  import opened Karma
  import opened CommentTree
  import CommentRows
  import Persistence

  /**
   * The parent `create` resolves: `@article.comments.find(parent_id)`
   * looks only among this article's comments (deleted ones included).
   */
  predicate ParentFound(comments: map<nat, Comment>, articleId: nat, parentId: Option<nat>) {
    parentId.Some? ==> parentId.value in comments && comments[parentId.value].articleId == articleId
  }

  /**
   * `create`: 404 when the article is missing or the parent is not one of
   * its comments; otherwise the comment is saved for the current user
   * under the resolved parent (201), or refused on invalid content (422).
   */
  method Create(s: Persistence.Store, user: Option<nat>, articleId: nat, parentId: Option<nat>, content: string, now: Time)
    returns (status: Status, id: Option<nat>)
    requires s.ArticlesValid() && s.CommentsValid() && s.ActivitiesValid()
    modifies s`comments, s`articles, s`activities
    ensures s.ArticlesValid() && s.CommentsValid() && s.ActivitiesValid()
    ensures status != Created ==> id.None? && unchanged(s)
    ensures user.None? ==> status == Unauthorized
    ensures user.Some? && articleId !in old(s.articles.rows) ==> status == NotFound
    ensures user.Some? && articleId in old(s.articles.rows) && !ParentFound(old(s.comments.rows), articleId, parentId) ==>
      status == NotFound
    ensures user.Some? && articleId in old(s.articles.rows) && ParentFound(old(s.comments.rows), articleId, parentId) ==>
      var c := CommentRows.NewComment(old(s.comments.next), articleId, user.value,
                                      CommentRows.ParentRow(old(s.comments), parentId), content, now);
      if ContentValid(content) then
        && status == Created && id == Some(c.id)
        && s.comments == old(s.comments).Insert(c)
        && c.userId == user.value && c.parentId == parentId && c.articleId == articleId
        && s.articles.next == old(s.articles.next)
        && s.articles.rows == old(s.articles.rows)[articleId := old(s.articles.rows[articleId]).(
             commentCount := old(s.articles.rows[articleId].commentCount) + 1)]
        && s.activities == old(s.activities) + [CommentActivity(user.value, c.id)]
      else
        status == UnprocessableEntity
  {
    if user.None? {
      return Unauthorized, None;
    }
    if articleId !in s.articles.rows {
      return NotFound, None;
    }
    if !ParentFound(s.comments.rows, articleId, parentId) {
      return NotFound, None;
    }
    if parentId.Some? {
      CommentRows.RowOf(s.comments, s.commentVotes, parentId.value);
    }
    id := s.CreateComment(articleId, user.value, parentId, content, now);
    status := if id.Some? then Created else UnprocessableEntity;
  }

  /**
   * `update`: 403 with no change unless the current user wrote the
   * comment; otherwise only the content changes.  With no `content` key the
   * row saves unchanged (200); a null content fails validation (422).
   */
  method Update(s: Persistence.Store, user: Option<nat>, id: nat, content: Param<string>) returns (status: Status)
    requires s.ArticlesValid() && s.CommentsValid()
    modifies s`comments
    ensures s.ArticlesValid() && s.CommentsValid()
    ensures status != Ok ==> unchanged(s)
    ensures user.None? ==> status == Unauthorized
    ensures user.Some? && id !in old(s.comments.rows) ==> status == NotFound
    ensures user.Some? && id in old(s.comments.rows) && old(s.comments.rows[id].userId) != user.value ==> status == Forbidden
    ensures user.Some? && id in old(s.comments.rows) && old(s.comments.rows[id].userId) == user.value ==>
      match content
      case Absent => status == Ok && unchanged(s)
      case Null => status == UnprocessableEntity
      case Given(text) =>
        if ContentValid(text) then
          status == Ok && s.comments == old(s.comments).(rows := old(s.comments.rows)[id := old(s.comments.rows[id]).(content := text)])
        else
          status == UnprocessableEntity
  {
    if user.None? {
      return Unauthorized;
    }
    if id !in s.comments.rows {
      return NotFound;
    }
    if s.comments.rows[id].userId != user.value {
      return Forbidden;
    }
    var ok := s.UpdateComment(id, content);
    status := if ok then Ok else UnprocessableEntity;
  }

  /**
   * `destroy`: 403 with no change unless the current user wrote the
   * comment; otherwise the comment is soft-deleted (its row stays, flagged)
   * and the article's live count recomputed.
   */
  method Destroy(s: Persistence.Store, user: Option<nat>, id: nat) returns (status: Status)
    requires s.ArticlesValid() && s.CommentsValid()
    modifies s`comments, s`articles
    ensures s.ArticlesValid() && s.CommentsValid()
    ensures status != Ok ==> unchanged(s)
    ensures user.None? ==> status == Unauthorized
    ensures user.Some? && id !in old(s.comments.rows) ==> status == NotFound
    ensures user.Some? && id in old(s.comments.rows) && old(s.comments.rows[id].userId) != user.value ==> status == Forbidden
    ensures user.Some? && id in old(s.comments.rows) && old(s.comments.rows[id].userId) == user.value ==>
      && status == Ok
      && s.comments.next == old(s.comments.next)
      && s.comments.rows == old(s.comments.rows)[id := old(s.comments.rows[id]).(isDeleted := true)]
      && s.articles.next == old(s.articles.next)
      && var a := old(s.comments.rows[id].articleId);
         if a in old(s.articles.rows) then
           s.articles.rows == old(s.articles.rows)[a := old(s.articles.rows[a]).(
             commentCount := old(s.articles.rows[a].commentCount) - (if old(s.comments.rows[id].isDeleted) then 0 else 1))]
         else s.articles.rows == old(s.articles.rows)
  {
    if user.None? {
      return Unauthorized;
    }
    if id !in s.comments.rows {
      return NotFound;
    }
    if s.comments.rows[id].userId != user.value {
      return Forbidden;
    }
    s.SoftDeleteComment(id);
    status := Ok;
  }

  /**
   * `vote`: 1 calls `vote_up!`, -1 calls `vote_down!`, anything else
   * answers 400 with no change; the answer carries the new vote count.
   */
  method Vote(s: Persistence.Store, user: Option<nat>, id: nat, voteType: int)
    returns (status: Status, voteCount: Option<int>)
    requires s.ArticlesValid() && s.CommentsValid()
    modifies s`commentVotes, s`comments
    ensures s.ArticlesValid() && s.CommentsValid()
    ensures status != Ok ==> voteCount.None? && unchanged(s)
    ensures user.None? ==> status == Unauthorized
    ensures user.Some? && id !in old(s.comments.rows) ==> status == NotFound
    ensures user.Some? && id in old(s.comments.rows) && !VoteTypeValid(voteType) ==> status == BadRequest
    ensures user.Some? && id in old(s.comments.rows) && VoteTypeValid(voteType) ==>
      && status == Ok
      && s.commentVotes == Cast(old(s.commentVotes), id, user.value, voteType)
      && s.comments.next == old(s.comments.next)
      && s.comments.rows == old(s.comments.rows)[id := old(s.comments.rows[id]).(voteCount := Tally(s.commentVotes.rows, id))]
      && s.comments.rows[id].voteCount == old(s.comments.rows[id].voteCount) - old(Current(s.commentVotes.rows, id, user.value)) + voteType
      && voteCount == Some(s.comments.rows[id].voteCount)
  {
    if user.None? {
      return Unauthorized, None;
    }
    if id !in s.comments.rows {
      return NotFound, None;
    }
    if !VoteTypeValid(voteType) {
      return BadRequest, None;
    }
    s.VoteComment(id, user.value, voteType);
    status, voteCount := Ok, Some(s.comments.rows[id].voteCount);
  }

  /** `unvote`: the current user's vote, if any, goes; the answer carries the new vote count. */
  method Unvote(s: Persistence.Store, user: Option<nat>, id: nat) returns (status: Status, voteCount: Option<int>)
    requires s.ArticlesValid() && s.CommentsValid()
    modifies s`commentVotes, s`comments
    ensures s.ArticlesValid() && s.CommentsValid()
    ensures status != Ok ==> voteCount.None? && unchanged(s)
    ensures user.None? ==> status == Unauthorized
    ensures user.Some? && id !in old(s.comments.rows) ==> status == NotFound
    ensures user.Some? && id in old(s.comments.rows) ==>
      && status == Ok
      && s.commentVotes == Retract(old(s.commentVotes), id, user.value)
      && s.comments.next == old(s.comments.next)
      && s.comments.rows == old(s.comments.rows)[id := old(s.comments.rows[id]).(voteCount := Tally(s.commentVotes.rows, id))]
      && s.comments.rows[id].voteCount == old(s.comments.rows[id].voteCount) - old(Current(s.commentVotes.rows, id, user.value))
      && voteCount == Some(s.comments.rows[id].voteCount)
      && s.comments.rows[id].voteCount == Tally(s.commentVotes.rows, id)
  {
    if user.None? {
      return Unauthorized, None;
    }
    if id !in s.comments.rows {
      return NotFound, None;
    }
    s.UnvoteComment(id, user.value);
    status, voteCount := Ok, Some(s.comments.rows[id].voteCount);
  }
}
