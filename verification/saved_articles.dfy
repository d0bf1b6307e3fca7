/**
 * The `SavedArticle` model and the two actions that change a user's saved
 * set: saving, which the uniqueness validation refuses for a pair already
 * saved, and removing, which looks only among the user's own saves.
 */
module SavedArticles {
  import opened Wrappers
  import opened Tables
  import opened Entities

  /** The user's save of the article, if there is one. */
  function FindSave(t: Table<SavedArticle>, user: nat, article: nat): (r: Option<nat>)
    ensures r.Some? ==> r.value in t.rows && t.rows[r.value].userId == user && t.rows[r.value].articleId == article
    ensures r.None? <==> forall k :: k in t.rows ==> !(t.rows[k].userId == user && t.rows[k].articleId == article)
  {
    FindKey(t.rows, (s: SavedArticle) => s.userId == user && s.articleId == article)
  }

  /** Two saves of the same article by the same user. */
  predicate SamePair(a: SavedArticle, b: SavedArticle) {
    a.userId == b.userId && a.articleId == b.articleId
  }

  /** `validates :user_id, uniqueness: { scope: :article_id }`, and rows stored under their ids. */
  ghost predicate SavesValid(t: Table<SavedArticle>) {
    && KeyedBy(t, (s: SavedArticle) => s.id)
    && forall i, j :: i in t.rows && j in t.rows && SamePair(t.rows[i], t.rows[j]) ==> i == j
  }

  /**
   * `saved_articles.new(article:)` and `save`: the row is inserted unless the
   * user already saved the article; the flag says whether it was.
   */
  function Save(t: Table<SavedArticle>, user: nat, article: nat, now: Time): (r: (Table<SavedArticle>, bool))
    ensures r.1 <==> FindSave(t, user, article).None?
    ensures r.1 ==> r.0 == t.Insert(SavedArticle(t.next, user, article, now))
    ensures !r.1 ==> r.0 == t
  {
    if FindSave(t, user, article).None? then (t.Insert(SavedArticle(t.next, user, article, now)), true)
    else (t, false)
  }

  /**
   * `saved_articles.find(id)` then `destroy`: the row goes only when it is
   * one of the user's own saves; the flag says whether it was found.
   */
  function Unsave(t: Table<SavedArticle>, user: nat, id: nat): (r: (Table<SavedArticle>, bool))
    ensures r.1 <==> id in t.rows && t.rows[id].userId == user
    ensures r.1 ==> r.0 == t.Delete(id)
    ensures !r.1 ==> r.0 == t
  {
    if id in t.rows && t.rows[id].userId == user then (t.Delete(id), true) else (t, false)
  }

  /**
   * Saving keeps the table valid and leaves the pair saved; a second save
   * of the same pair is refused and changes nothing.
   */
  lemma SaveTwiceRefused(t: Table<SavedArticle>, user: nat, article: nat, now: Time, later: Time)
    requires SavesValid(t)
    ensures var r := Save(t, user, article, now);
      && SavesValid(r.0)
      && FindSave(r.0, user, article).Some?
      && Save(r.0, user, article, later) == (r.0, false)
  {
    var r := Save(t, user, article, now);
    if r.1 {
      assert r.0.rows[t.next].userId == user && r.0.rows[t.next].articleId == article;
      forall i, j | i in r.0.rows && j in r.0.rows && SamePair(r.0.rows[i], r.0.rows[j])
        ensures i == j
      {
        if i != t.next && j != t.next {
          assert r.0.rows[i] == t.rows[i] && r.0.rows[j] == t.rows[j];
        }
      }
    }
  }

  /** Removing keeps the table valid and never touches another user's save. */
  lemma UnsaveKeepsOthers(t: Table<SavedArticle>, user: nat, id: nat)
    requires SavesValid(t)
    ensures var r := Unsave(t, user, id);
      && SavesValid(r.0)
      && forall k :: k in t.rows && t.rows[k].userId != user ==> k in r.0.rows && r.0.rows[k] == t.rows[k]
  {
  }
}
