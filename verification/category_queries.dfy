/** The category scopes and queries: roots, display order, direct subcategories. */
module CategoryQueries {
  import opened Wrappers
  import opened Tables
  import opened Ordering
  import opened Text
  import opened Entities

  predicate InTable(categories: map<nat, Category>, c: Category) {
    exists k :: k in categories && categories[k] == c
  }

  /** `scope :root_categories`. */
  predicate IsRoot(c: Category) { c.parentId.None? }

  /** `scope :ordered`: `display_order` ascending, then `name` ascending. */
  predicate DisplayLe(a: Category, b: Category) {
    a.displayOrder < b.displayOrder || (a.displayOrder == b.displayOrder && StrLe(a.name, b.name))
  }

  function DisplayOrder(): (Category, Category) -> bool {
    (a: Category, b: Category) => DisplayLe(a, b)
  }

  lemma DisplayOrderIsPreorder()
    ensures TotalPreorder(DisplayOrder())
  {
    forall a: Category, b: Category ensures DisplayLe(a, b) || DisplayLe(b, a) {
      StrLeTotal(a.name, b.name);
    }
    forall a: Category, b: Category, c: Category | DisplayLe(a, b) && DisplayLe(b, c)
      ensures DisplayLe(a, c)
    {
      if a.displayOrder == b.displayOrder == c.displayOrder {
        StrLeTransitive(a.name, b.name, c.name);
      }
    }
  }

  /** Among categories with the same display order, names decide, and equal keys mean equal names. */
  lemma DisplayOrderTieIsName(a: Category, b: Category)
    requires DisplayLe(a, b) && DisplayLe(b, a)
    ensures a.displayOrder == b.displayOrder && a.name == b.name
  {
    StrLeAntisymmetric(a.name, b.name);
  }

  /** `CategoriesController#index`: the root categories in display order. */
  function Index(categories: map<nat, Category>): (r: seq<Category>)
    ensures forall c :: c in r <==> InTable(categories, c) && IsRoot(c)
    ensures Sorted(r, DisplayOrder())
    ensures forall c :: multiset(r)[c] == if IsRoot(c) then Occurrences(categories, c) else 0
  {
    DisplayOrderIsPreorder();
    var p := (c: Category) => IsRoot(c);
    SelectFromTable(categories, p, DisplayOrder())
  }

  /** `Category#descendants`: the categories whose parent is this one. */
  function Subcategories(categories: map<nat, Category>, c: Category): (r: seq<Category>)
    ensures forall x :: x in r <==> InTable(categories, x) && x.parentId == Some(c.id)
    ensures forall x :: multiset(r)[x] == if x.parentId == Some(c.id) then Occurrences(categories, x) else 0
  {
    var p := (x: Category) => x.parentId == Some(c.id);
    FilterRowsCounts(categories, p);
    Filter(Rows(categories), p)
  }

  /** A subcategory of a subcategory is not returned, unlike a real descendant. */
  lemma GrandchildrenExcluded(categories: map<nat, Category>, c: Category, mid: Category, x: Category)
    requires InTable(categories, x) && x.parentId == Some(mid.id) && mid.id != c.id
    ensures x !in Subcategories(categories, c)
  {
  }
}
