/**
 * The actions of `Api::V1::ArticlesController` that change the database,
 * with their guards in the order the before-actions run them:
 * `authenticate_user!` (401), `set_article` (404), then the action's own
 * checks.  The current user is an input: decoding the token that names it
 * is not part of this model.  Each action names the tables it may change
 * and keeps their invariants; the rest of the database keeps its own.
 */
module ArticlesController {
  import opened Wrappers
  import opened Tables
  import opened Entities
  import opened VoteLedger
  import opened Karma
  import opened TagNames
  import opened TagTable
  import ArticleRows
  import Persistence

  /** `show`: `set_article` (404), then `increment_views`. */
  method Show(s: Persistence.Store, id: nat) returns (status: Status)
    requires s.ArticlesValid()
    modifies s`articles
    ensures s.ArticlesValid()
    ensures id !in old(s.articles.rows) ==> status == NotFound && unchanged(s)
    ensures id in old(s.articles.rows) ==>
      && status == Ok
      && s.articles.next == old(s.articles.next)
      && s.articles.rows == old(s.articles.rows)[id := old(s.articles.rows[id]).(viewCount := old(s.articles.rows[id].viewCount) + 1)]
  {
    if id !in s.articles.rows {
      return NotFound;
    }
    s.IncrementViews(id);
    status := Ok;
  }

  /** The article `create` builds saves: it validates and its category exists. */
  ghost predicate Saves(s: Persistence.Store, next: nat, user: nat, categoryId: nat, title: string, url: string,
                        description: Option<string>, thumbnailUrl: Option<string>, now: Time)
    reads s
  {
    ArticleValid(ArticleRows.NewArticle(next, user, categoryId, title, url, description, thumbnailUrl, now, s.lib), s.lib)
    && categoryId in s.categories.rows
  }

  /**
   * `create`: the article is built for the current user and saved; when it
   * saves and the `tags` parameter is present, `add_tags` runs.  An article
   * that does not save answers 422 and changes nothing.
   */
  method Create(s: Persistence.Store, user: Option<nat>, categoryId: nat, title: string, url: string,
                description: Option<string>, thumbnailUrl: Option<string>, tags: Option<TagsParam>, now: Time)
    returns (status: Status, id: Option<nat>)
    requires s.ArticlesValid() && s.ActivitiesValid() && s.TagsAndJoinsValid()
    modifies s`articles, s`activities, s`tags, s`articleTags
    ensures s.ArticlesValid() && s.ActivitiesValid() && s.TagsAndJoinsValid()
    ensures user.None? ==> status == Unauthorized && id.None? && unchanged(s)
    ensures user.Some? && !Saves(s, old(s.articles.next), user.value, categoryId, title, url, description, thumbnailUrl, now) ==>
      status == UnprocessableEntity && id.None? && unchanged(s)
    ensures user.Some? && Saves(s, old(s.articles.next), user.value, categoryId, title, url, description, thumbnailUrl, now) ==>
      var a := ArticleRows.NewArticle(old(s.articles.next), user.value, categoryId, title, url,
                                      description, thumbnailUrl, now, s.lib);
      && status == Created && id == Some(a.id)
      && s.articles == old(s.articles).Insert(a)
      && s.activities == old(s.activities) + [SubmitActivity(user.value, a.id)]
      && (s.tags, s.articleTags) == TagsAfter(old(s.tags), old(s.articleTags), a.id, tags, s.lib)
  {
    if user.None? {
      return Unauthorized, None;
    }
    id := s.CreateArticle(user.value, categoryId, title, url, description, thumbnailUrl, now);
    if id.None? {
      return UnprocessableEntity, None;
    }
    if tags.Some? && Present(tags.value) {
      s.AddTags(id.value, RawNames(tags.value));
    }
    status := Created;
  }

  /** The tags and join rows after `add_tags if params[:tags].present?`. */
  function TagsAfter(tags: Table<Tag>, joins: Table<ArticleTag>, article: nat, param: Option<TagsParam>, lib: Library)
    : (r: (Table<Tag>, Table<ArticleTag>))
    ensures param.None? || !Present(param.value) ==> r == (tags, joins)
  {
    if param.Some? && Present(param.value) then AddTagsSpec(tags, joins, article, RawNames(param.value), lib)
    else (tags, joins)
  }

  /**
   * `update`: 403 with no change unless the current user wrote the
   * article; otherwise the permitted attributes change when the result
   * validates (200), and nothing changes when it does not (422).
   */
  method Update(s: Persistence.Store, user: Option<nat>, id: nat, changes: ArticleRows.ArticleChanges)
    returns (status: Status)
    requires s.ArticlesValid()
    modifies s`articles
    ensures s.ArticlesValid()
    ensures user.None? ==> status == Unauthorized && unchanged(s)
    ensures user.Some? && id !in old(s.articles.rows) ==> status == NotFound && unchanged(s)
    ensures user.Some? && id in old(s.articles.rows) && old(s.articles.rows[id].userId) != user.value ==>
      status == Forbidden && unchanged(s)
    ensures user.Some? && id in old(s.articles.rows) && old(s.articles.rows[id].userId) == user.value ==>
      var b := ArticleRows.ApplyArticleChanges(old(s.articles.rows[id]), changes);
      if b.Some? && ArticleValid(b.value, s.lib) && b.value.categoryId in s.categories.rows then
        status == Ok && s.articles == old(s.articles).(rows := old(s.articles.rows)[id := b.value])
      else
        status == UnprocessableEntity && unchanged(s)
  {
    if user.None? {
      return Unauthorized;
    }
    if id !in s.articles.rows {
      return NotFound;
    }
    if s.articles.rows[id].userId != user.value {
      return Forbidden;
    }
    var ok := s.UpdateArticle(id, changes);
    status := if ok then Ok else UnprocessableEntity;
  }

  /** `destroy`: 403 with no change unless the current user wrote the article; otherwise 204. */
  method Destroy(s: Persistence.Store, user: Option<nat>, id: nat) returns (status: Status)
    requires s.ArticlesValid()
    modifies s`articles
    ensures s.ArticlesValid()
    ensures user.None? ==> status == Unauthorized && unchanged(s)
    ensures user.Some? && id !in old(s.articles.rows) ==> status == NotFound && unchanged(s)
    ensures user.Some? && id in old(s.articles.rows) && old(s.articles.rows[id].userId) != user.value ==>
      status == Forbidden && unchanged(s)
    ensures user.Some? && id in old(s.articles.rows) && old(s.articles.rows[id].userId) == user.value ==>
      status == NoContent && s.articles == old(s.articles).Delete(id) && id !in s.articles.rows
  {
    if user.None? {
      return Unauthorized;
    }
    if id !in s.articles.rows {
      return NotFound;
    }
    if s.articles.rows[id].userId != user.value {
      return Forbidden;
    }
    s.DestroyArticle(id);
    status := NoContent;
  }

  /**
   * `vote`: a vote type of 1 calls `vote_up!`, -1 calls `vote_down!`, and
   * any other value answers 400 before anything changes.  The answer
   * carries the article's new vote count.
   */
  method Vote(s: Persistence.Store, user: Option<nat>, id: nat, voteType: int)
    returns (status: Status, voteCount: Option<int>)
    requires s.ArticlesValid() && s.ActivitiesValid()
    modifies s`articleVotes, s`articles, s`activities
    ensures s.ArticlesValid() && s.ActivitiesValid()
    ensures status != Ok ==> voteCount.None? && unchanged(s)
    ensures user.None? ==> status == Unauthorized
    ensures user.Some? && id !in old(s.articles.rows) ==> status == NotFound
    ensures user.Some? && id in old(s.articles.rows) && !VoteTypeValid(voteType) ==> status == BadRequest
    ensures user.Some? && id in old(s.articles.rows) && VoteTypeValid(voteType) ==>
      && status == Ok
      && s.articleVotes == Cast(old(s.articleVotes), id, user.value, voteType)
      && s.activities == old(s.activities) + [VoteActivity(user.value, id, voteType)]
      && s.articles.next == old(s.articles.next)
      && s.articles.rows == old(s.articles.rows)[id := old(s.articles.rows[id]).(voteCount := Tally(s.articleVotes.rows, id))]
      && s.articles.rows[id].voteCount == old(s.articles.rows[id].voteCount) - old(Current(s.articleVotes.rows, id, user.value)) + voteType
      && voteCount == Some(s.articles.rows[id].voteCount)
  {
    if user.None? {
      return Unauthorized, None;
    }
    if id !in s.articles.rows {
      return NotFound, None;
    }
    if !VoteTypeValid(voteType) {
      return BadRequest, None;
    }
    s.VoteArticle(id, user.value, voteType);
    status, voteCount := Ok, Some(s.articles.rows[id].voteCount);
  }

  /** `unvote`: the current user's vote, if any, goes; the answer carries the new vote count. */
  method Unvote(s: Persistence.Store, user: Option<nat>, id: nat) returns (status: Status, voteCount: Option<int>)
    requires s.ArticlesValid()
    modifies s`articleVotes, s`articles
    ensures s.ArticlesValid()
    ensures status != Ok ==> voteCount.None? && unchanged(s)
    ensures user.None? ==> status == Unauthorized
    ensures user.Some? && id !in old(s.articles.rows) ==> status == NotFound
    ensures user.Some? && id in old(s.articles.rows) ==>
      && status == Ok
      && s.articleVotes == Retract(old(s.articleVotes), id, user.value)
      && s.articles.next == old(s.articles.next)
      && s.articles.rows == old(s.articles.rows)[id := old(s.articles.rows[id]).(voteCount := Tally(s.articleVotes.rows, id))]
      && s.articles.rows[id].voteCount == old(s.articles.rows[id].voteCount) - old(Current(s.articleVotes.rows, id, user.value))
      && voteCount == Some(s.articles.rows[id].voteCount)
      && s.articles.rows[id].voteCount == Tally(s.articleVotes.rows, id)
  {
    if user.None? {
      return Unauthorized, None;
    }
    if id !in s.articles.rows {
      return NotFound, None;
    }
    s.UnvoteArticle(id, user.value);
    status, voteCount := Ok, Some(s.articles.rows[id].voteCount);
  }
}
