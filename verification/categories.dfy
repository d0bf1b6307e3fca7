/**
 * The `Category` model's validations and slug rule, and the category
 * subscriptions that `subscribe` and `unsubscribe` maintain.
 */
module Categories {
  import opened Wrappers
  import opened Tables
  import opened Text
  import opened Entities

  /**
   * `before_validation :generate_slug, if: slug.blank?`: a blank slug is
   * replaced by the parameterized name when the name is present; a given
   * slug is kept.
   */
  function SlugFor(name: string, slug: string, lib: Library): (r: string)
    ensures !IsBlank(slug) ==> r == slug
    ensures IsBlank(slug) && !IsBlank(name) ==> r == lib.parameterize(name)
    ensures IsBlank(slug) && IsBlank(name) ==> r == slug
  {
    if IsBlank(slug) && !IsBlank(name) then lib.parameterize(name) else slug
  }

  /** The `Category` validations for a new row against the stored ones. */
  predicate CanCreate(t: Table<Category>, c: Category) {
    && !IsBlank(c.name) && !IsBlank(c.slug)
    && (forall k :: k in t.rows ==> !(t.rows[k].name == c.name && t.rows[k].parentId == c.parentId))
    && (forall k :: k in t.rows ==> t.rows[k].slug != c.slug)
  }

  /** Two categories with the same name under the same parent. */
  predicate Siblings(a: Category, b: Category) {
    a.name == b.name && a.parentId == b.parentId
  }

  /**
   * Every category has a name and a slug, a name is unique among the
   * categories with the same parent, and a slug is unique overall.
   */
  ghost predicate CategoriesValid(t: Table<Category>) {
    && KeyedBy(t, (c: Category) => c.id)
    && (forall k :: k in t.rows ==> !IsBlank(t.rows[k].name) && !IsBlank(t.rows[k].slug))
    && (forall i, j :: i in t.rows && j in t.rows && Siblings(t.rows[i], t.rows[j]) ==> i == j)
    && (forall i, j :: i in t.rows && j in t.rows && t.rows[i].slug == t.rows[j].slug ==> i == j)
  }

  /** Inserting a category that passes the validations keeps the table valid. */
  lemma InsertKeeps(t: Table<Category>, c: Category)
    requires CategoriesValid(t) && c.id == t.next && CanCreate(t, c)
    ensures CategoriesValid(t.Insert(c))
  {
    var t' := t.Insert(c);
    forall i, j | i in t'.rows && j in t'.rows && t'.rows[i].slug == t'.rows[j].slug
      ensures i == j
    {
      if i != t.next && j != t.next {
        assert t'.rows[i] == t.rows[i] && t'.rows[j] == t.rows[j];
      }
    }
    forall i, j | i in t'.rows && j in t'.rows && Siblings(t'.rows[i], t'.rows[j])
      ensures i == j
    {
      if i != t.next && j != t.next {
        assert t'.rows[i] == t.rows[i] && t'.rows[j] == t.rows[j];
      }
    }
  }

  /** A category id is found by its slug only: `find_by!(slug:)`. */
  function FindBySlug(t: Table<Category>, slug: string): (r: Option<nat>)
    ensures r.Some? ==> r.value in t.rows && t.rows[r.value].slug == slug
    ensures r.None? <==> forall k :: k in t.rows ==> t.rows[k].slug != slug
  {
    FindKey(t.rows, (c: Category) => c.slug == slug)
  }

  /** In a valid table the slug lookup finds the one category with that slug. */
  lemma FindBySlugExact(t: Table<Category>, k: nat)
    requires CategoriesValid(t) && k in t.rows
    ensures FindBySlug(t, t.rows[k].slug) == Some(k)
  {
  }

  // ---------------------------------------------------------------- subscriptions

  /** The user's subscription to the category, if there is one. */
  function FindSubscription(t: Table<Subscription>, user: nat, category: nat): (r: Option<nat>)
    ensures r.Some? ==> r.value in t.rows && t.rows[r.value].userId == user && t.rows[r.value].categoryId == category
    ensures r.None? <==> forall k :: k in t.rows ==> !(t.rows[k].userId == user && t.rows[k].categoryId == category)
  {
    FindKey(t.rows, (s: Subscription) => s.userId == user && s.categoryId == category)
  }

  /** Two subscriptions of the same user to the same category. */
  predicate SamePair(a: Subscription, b: Subscription) {
    a.userId == b.userId && a.categoryId == b.categoryId
  }

  /** At most one subscription per (user, category), each stored under its id. */
  ghost predicate SubscriptionsValid(t: Table<Subscription>) {
    && KeyedBy(t, (s: Subscription) => s.id)
    && forall i, j :: i in t.rows && j in t.rows && SamePair(t.rows[i], t.rows[j]) ==> i == j
  }

  /** `category_subscriptions.find_or_create_by(category:)`: the existing row, else a new one. */
  function Subscribe(t: Table<Subscription>, user: nat, category: nat): (r: Table<Subscription>)
    ensures FindSubscription(t, user, category).Some? ==> r == t
    ensures FindSubscription(t, user, category).None? ==> r == t.Insert(Subscription(t.next, user, category))
  {
    if FindSubscription(t, user, category).Some? then t else t.Insert(Subscription(t.next, user, category))
  }

  /** `find_by(category:)&.destroy`: the subscription goes if there is one. */
  function Unsubscribe(t: Table<Subscription>, user: nat, category: nat): (r: Table<Subscription>)
    ensures FindSubscription(t, user, category).None? ==> r == t
    ensures FindSubscription(t, user, category).Some? ==> r == t.Delete(FindSubscription(t, user, category).value)
  {
    match FindSubscription(t, user, category)
    case None => t
    case Some(k) => t.Delete(k)
  }

  /**
   * After `subscribe` the user holds exactly one subscription to the
   * category, the table stays valid, and subscribing again changes nothing.
   */
  lemma SubscribeIdempotent(t: Table<Subscription>, user: nat, category: nat)
    requires SubscriptionsValid(t)
    ensures var r := Subscribe(t, user, category);
      && SubscriptionsValid(r)
      && FindSubscription(r, user, category).Some?
      && Subscribe(r, user, category) == r
      && forall k :: k in r.rows && r.rows[k].userId == user && r.rows[k].categoryId == category ==>
           FindSubscription(r, user, category) == Some(k)
  {
    var r := Subscribe(t, user, category);
    if FindSubscription(t, user, category).None? {
      var s := Subscription(t.next, user, category);
      assert r.rows[t.next] == s;
      forall i, j | i in r.rows && j in r.rows && SamePair(r.rows[i], r.rows[j])
        ensures i == j
      {
        if i != t.next && j != t.next {
          assert r.rows[i] == t.rows[i] && r.rows[j] == t.rows[j];
        }
      }
    }
  }

  /**
   * After `unsubscribe` the user holds no subscription to the category, the
   * table stays valid, and every other subscription is kept.
   */
  lemma UnsubscribeRemovesPair(t: Table<Subscription>, user: nat, category: nat)
    requires SubscriptionsValid(t)
    ensures var r := Unsubscribe(t, user, category);
      && SubscriptionsValid(r)
      && FindSubscription(r, user, category).None?
      && forall k :: k in t.rows && !(t.rows[k].userId == user && t.rows[k].categoryId == category) ==>
           k in r.rows && r.rows[k] == t.rows[k]
  {
  }

  /** Subscribing and then unsubscribing leaves no subscription to the category. */
  lemma SubscribeThenUnsubscribe(t: Table<Subscription>, user: nat, category: nat)
    requires SubscriptionsValid(t)
    ensures FindSubscription(Unsubscribe(Subscribe(t, user, category), user, category), user, category).None?
  {
    SubscribeIdempotent(t, user, category);
    UnsubscribeRemovesPair(Subscribe(t, user, category), user, category);
  }
}
