/** `SavedArticlesController#index`. */
module SavedQueries {
  import opened Tables
  import opened Ordering
  import opened Entities

  predicate InTable(saves: map<nat, SavedArticle>, s: SavedArticle) {
    exists k :: k in saves && saves[k] == s
  }

  function NewestFirst(): (SavedArticle, SavedArticle) -> bool {
    Descending((s: SavedArticle) => s.createdAt)
  }

  /** The current user's saves, newest first; nobody else's. */
  function Index(saves: map<nat, SavedArticle>, user: nat): (r: seq<SavedArticle>)
    ensures forall s :: s in r <==> InTable(saves, s) && s.userId == user
    ensures Sorted(r, NewestFirst())
    ensures forall s :: multiset(r)[s] == if s.userId == user then Occurrences(saves, s) else 0
  {
    DescendingIsPreorder((s: SavedArticle) => s.createdAt);
    var p := (s: SavedArticle) => s.userId == user;
    SelectFromTable(saves, p, NewestFirst())
  }
}
