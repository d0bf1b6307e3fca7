/** The `popular` and `trending` tag scopes. */
module TagQueries {
  import opened Tables
  import opened Ordering
  import opened Entities

  predicate InTable(tags: map<nat, Tag>, t: Tag) {
    exists k :: k in tags && tags[k] == t
  }

  /** `order(usage_count: :desc)`. */
  function MostUsedFirst(): (Tag, Tag) -> bool {
    Descending((t: Tag) => t.usageCount)
  }

  /** `scope :popular`: the tags in use, most used first. */
  function Popular(tags: map<nat, Tag>): (r: seq<Tag>)
    ensures forall t :: t in r <==> InTable(tags, t) && t.usageCount > 0
    ensures Sorted(r, MostUsedFirst())
    ensures forall t :: multiset(r)[t] == if t.usageCount > 0 then Occurrences(tags, t) else 0
  {
    DescendingIsPreorder((t: Tag) => t.usageCount);
    var p := (t: Tag) => t.usageCount > 0;
    SelectFromTable(tags, p, MostUsedFirst())
  }

  const TrendingLimit: nat := 20

  /**
   * `scope :trending`: the 20 most used tags, unused ones included when
   * there are fewer in use, each as often as the table holds it; none left
   * out is used more than one kept.
   */
  function Trending(tags: map<nat, Tag>): (r: seq<Tag>)
    ensures |r| == if |tags| < TrendingLimit then |tags| else TrendingLimit
    ensures Sorted(r, MostUsedFirst())
    ensures forall t :: t in r ==> InTable(tags, t)
    ensures forall t :: multiset(r)[t] <= Occurrences(tags, t)
    ensures |tags| <= TrendingLimit ==> forall t :: multiset(r)[t] == Occurrences(tags, t)
    ensures forall a, b :: a in r && InTable(tags, b) && b !in r ==> b.usageCount <= a.usageCount
  {
    DescendingIsPreorder((t: Tag) => t.usageCount);
    var all := (t: Tag) => true;
    var r := TopOfTable(tags, all, MostUsedFirst(), TrendingLimit);
    KeysWhereAll(tags, all);
    assert |tags| <= TrendingLimit ==> forall t :: multiset(r)[t] == Occurrences(tags, t) by {
      if |tags| <= TrendingLimit {
        TopOfWholeTable(tags, all, MostUsedFirst(), TrendingLimit);
      }
    }
    forall a, b | a in r && InTable(tags, b) && b !in r
      ensures b.usageCount <= a.usageCount
    {
      assert all(b) && MostUsedFirst()(a, b);
    }
    r
  }
}
