/**
 * The actions of `Api::V1::CategoriesController` that change the database.
 * `subscribe` and `unsubscribe` run `authenticate_user!` (401) and then
 * `set_category` (404), which resolves the category by its slug alone.
 */
module CategoriesController {
  import opened Wrappers
  import Categories
  import Persistence

  /**
   * `set_category`: `find_by!(slug:)` raises on a miss, so the lookup by
   * numeric id after it never runs and an unknown slug is a 404.
   */
  function SetCategory(s: Persistence.Store, slug: string): (r: Option<nat>)
    reads s
    ensures r.Some? ==> r.value in s.categories.rows && s.categories.rows[r.value].slug == slug
    ensures r.None? <==> forall k :: k in s.categories.rows ==> s.categories.rows[k].slug != slug
  {
    Categories.FindBySlug(s.categories, slug)
  }

  /**
   * `subscribe`: the user's subscription to the category is found or
   * created, so the action always succeeds and leaves exactly one.
   */
  method Subscribe(s: Persistence.Store, user: Option<nat>, slug: string) returns (status: Status)
    requires s.CategoriesValid()
    modifies s`subscriptions
    ensures s.CategoriesValid()
    ensures status != Ok ==> unchanged(s)
    ensures user.None? ==> status == Unauthorized
    ensures user.Some? && SetCategory(s, slug).None? ==> status == NotFound
    ensures user.Some? && SetCategory(s, slug).Some? ==>
      var c := SetCategory(s, slug).value;
      && status == Ok
      && s.subscriptions == Categories.Subscribe(old(s.subscriptions), user.value, c)
      && Categories.FindSubscription(s.subscriptions, user.value, c).Some?
  {
    if user.None? {
      return Unauthorized;
    }
    var c := SetCategory(s, slug);
    if c.None? {
      return NotFound;
    }
    var persisted := s.Subscribe(user.value, c.value);
    status := if persisted then Ok else UnprocessableEntity;
  }

  /**
   * `unsubscribe`: the user's subscription to the category goes; without
   * one the answer is 404 and nothing changes.
   */
  method Unsubscribe(s: Persistence.Store, user: Option<nat>, slug: string) returns (status: Status)
    requires s.CategoriesValid()
    modifies s`subscriptions
    ensures s.CategoriesValid()
    ensures status != Ok ==> unchanged(s)
    ensures user.None? ==> status == Unauthorized
    ensures user.Some? && SetCategory(s, slug).None? ==> status == NotFound
    ensures user.Some? && SetCategory(s, slug).Some? ==>
      var c := SetCategory(s, slug).value;
      && (status == Ok <==> Categories.FindSubscription(old(s.subscriptions), user.value, c).Some?)
      && (status != Ok ==> status == NotFound)
      && s.subscriptions == Categories.Unsubscribe(old(s.subscriptions), user.value, c)
      && Categories.FindSubscription(s.subscriptions, user.value, c).None?
  {
    if user.None? {
      return Unauthorized;
    }
    var c := SetCategory(s, slug);
    if c.None? {
      return NotFound;
    }
    var found := s.Unsubscribe(user.value, c.value);
    status := if found then Ok else NotFound;
  }
}
