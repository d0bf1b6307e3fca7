/**
 * The actions of `Api::V1::SavedArticlesController` that change the
 * database; every action first runs `authenticate_user!` (401).
 */
module SavedArticlesController {
  import opened Wrappers
  import opened Entities
  import SavedArticles
  import Persistence

  /**
   * `create`: `Article.find` answers 404 for a missing article; otherwise
   * the save is stored (201) unless the user already saved it (422).
   */
  method Create(s: Persistence.Store, user: Option<nat>, articleId: nat, now: Time) returns (status: Status)
    requires s.SavesValid()
    modifies s`saves
    ensures s.SavesValid()
    ensures status != Created ==> unchanged(s)
    ensures user.None? ==> status == Unauthorized
    ensures user.Some? && articleId !in s.articles.rows ==> status == NotFound
    ensures user.Some? && articleId in s.articles.rows ==>
      && (status == Created <==> SavedArticles.FindSave(old(s.saves), user.value, articleId).None?)
      && (status != Created ==> status == UnprocessableEntity)
      && s.saves == SavedArticles.Save(old(s.saves), user.value, articleId, now).0
      && SavedArticles.FindSave(s.saves, user.value, articleId).Some?
  {
    if user.None? {
      return Unauthorized;
    }
    if articleId !in s.articles.rows {
      return NotFound;
    }
    SavedArticles.SaveTwiceRefused(s.saves, user.value, articleId, now, now);
    var ok := s.SaveArticle(user.value, articleId, now);
    status := if ok then Created else UnprocessableEntity;
  }

  /**
   * `destroy`: the save is looked up among the current user's own saves
   * only, so another user's save id is a 404 and nothing is removed.
   */
  method Destroy(s: Persistence.Store, user: Option<nat>, id: nat) returns (status: Status)
    requires s.SavesValid()
    modifies s`saves
    ensures s.SavesValid()
    ensures status != Ok ==> unchanged(s)
    ensures user.None? ==> status == Unauthorized
    ensures user.Some? && !(id in old(s.saves.rows) && old(s.saves.rows[id].userId) == user.value) ==>
      status == NotFound
    ensures user.Some? && id in old(s.saves.rows) && old(s.saves.rows[id].userId) == user.value ==>
      status == Ok && s.saves == old(s.saves).Delete(id)
  {
    if user.None? {
      return Unauthorized;
    }
    var found := s.RemoveSave(user.value, id);
    status := if found then Ok else NotFound;
  }
}
