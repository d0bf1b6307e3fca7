/**
 * The tags table as `add_tags` uses it: `Tag.find_or_create_by(name:)` on
 * the downcased name, and the join rows the loop creates.
 */
module TagTable {
  import opened Wrappers
  import opened Tables
  import opened Text
  import opened Entities
  import opened TagNames

  /** The `Tag` invariants: usage never negative, names unique ignoring case, slugs unique. */
  ghost predicate TagsValid(t: Table<Tag>) {
    && t.Valid()
    && KeyedBy(t, (x: Tag) => x.id)
    && (forall k :: k in t.rows ==>
          t.rows[k].usageCount >= 0 && !IsBlank(t.rows[k].name) && !IsBlank(t.rows[k].slug))
    && (forall i, j :: i in t.rows && j in t.rows && SameIgnoringCase(t.rows[i].name, t.rows[j].name) ==> i == j)
    && (forall i, j :: i in t.rows && j in t.rows && t.rows[i].slug == t.rows[j].slug ==> i == j)
  }

  function HasName(name: string): Tag -> bool {
    (x: Tag) => x.name == name
  }

  /** `find_by(name:)`. */
  function FindByName(t: Table<Tag>, name: string): (r: Option<nat>)
    ensures r.Some? ==> r.value in t.rows && t.rows[r.value].name == name
    ensures r.None? <==> forall k :: k in t.rows ==> t.rows[k].name != name
  {
    FindKey(t.rows, HasName(name))
  }

  /**
   * The slug `before_validation :generate_slug` gives a tag created with a
   * name only: the parameterized name when the name is present.
   */
  function NewSlug(name: string, lib: Library): string {
    if !IsBlank(name) then lib.parameterize(name) else ""
  }

  /** The `Tag` validations on a new row. */
  predicate CanCreate(t: Table<Tag>, name: string, slug: string) {
    && !IsBlank(name) && !IsBlank(slug)
    && (forall k :: k in t.rows ==> !SameIgnoringCase(t.rows[k].name, name))
    && (forall k :: k in t.rows ==> t.rows[k].slug != slug)
  }

  /**
   * `Tag.find_or_create_by(name:)`: the existing tag with exactly that name,
   * else a new tag with usage 0 when it validates, else nothing.
   */
  function FindOrCreate(t: Table<Tag>, name: string, lib: Library): (r: (Table<Tag>, Option<nat>))
    ensures r.1.Some? ==> r.1.value in r.0.rows && r.0.rows[r.1.value].name == name
    ensures FindByName(t, name).Some? ==> r == (t, FindByName(t, name))
    ensures FindByName(t, name).None? && CanCreate(t, name, NewSlug(name, lib)) ==>
      r == (t.Insert(Tag(t.next, name, NewSlug(name, lib), 0)), Some(t.next))
    ensures FindByName(t, name).None? && !CanCreate(t, name, NewSlug(name, lib)) ==> r == (t, None)
    ensures r.1.None? ==> r.0 == t
    ensures r.0 != t ==> r.0 == t.Insert(Tag(t.next, name, NewSlug(name, lib), 0))
    ensures t.Valid() ==> forall k :: k in t.rows ==> k in r.0.rows && r.0.rows[k] == t.rows[k]
    ensures TagsValid(t) ==> TagsValid(r.0)
  {
    match FindByName(t, name)
    case Some(k) => (t, Some(k))
    case None =>
      var slug := NewSlug(name, lib);
      if CanCreate(t, name, slug) then
        var t' := t.Insert(Tag(t.next, name, slug, 0));
        assert TagsValid(t) ==> TagsValid(t') by {
          if TagsValid(t) { InsertKeepsTagsValid(t, Tag(t.next, name, slug, 0)); }
        }
        (t', Some(t.next))
      else (t, None)
  }

  lemma InsertKeepsTagsValid(t: Table<Tag>, x: Tag)
    requires TagsValid(t) && x.id == t.next && x.usageCount == 0 && CanCreate(t, x.name, x.slug)
    ensures TagsValid(t.Insert(x))
  {
    var t' := t.Insert(x);
    assert t.next !in t.rows;
    forall i, j | i in t'.rows && j in t'.rows && SameIgnoringCase(t'.rows[i].name, t'.rows[j].name)
      ensures i == j
    {
      if i != t.next && j != t.next {
        assert t'.rows[i] == t.rows[i] && t'.rows[j] == t.rows[j];
      }
    }
  }

  /** Looking the same name up again finds the same tag and creates nothing. */
  lemma FindOrCreateAgain(t: Table<Tag>, name: string, lib: Library)
    requires TagsValid(t)
    ensures var r := FindOrCreate(t, name, lib); FindOrCreate(r.0, name, lib) == r
  {
    var r := FindOrCreate(t, name, lib);
    if r.1.Some? {
      var id := r.1.value;
      var f := FindByName(r.0, name);
      assert f.Some?;
      assert r.0.rows[f.value].name == r.0.rows[id].name;
      assert f.value == id;
    }
  }

  /**
   * Names that differ only in letter case resolve to the same tag: the
   * second lookup finds what the first one found or created.
   */
  lemma CaseVariantsShareTag(t: Table<Tag>, a: string, b: string, lib: Library)
    requires TagsValid(t) && SameIgnoringCase(a, b)
    ensures var r := FindOrCreate(t, LookupName(a), lib); FindOrCreate(r.0, LookupName(b), lib) == r
  {
    FindOrCreateAgain(t, LookupName(a), lib);
  }

  /** What the `add_tags` loop does with the names, one after the other. */
  function AddTagsSpec(tags: Table<Tag>, joins: Table<ArticleTag>, article: nat, names: seq<string>, lib: Library)
    : (Table<Tag>, Table<ArticleTag>)
    decreases |names|
  {
    if names == [] then (tags, joins)
    else
      var r := FindOrCreate(tags, LookupName(names[0]), lib);
      var joins' := if r.1.Some? then joins.Insert(ArticleTag(joins.next, article, r.1.value)) else joins;
      AddTagsSpec(r.0, joins', article, names[1..], lib)
  }

  /** The join rows are keyed by id. */
  ghost predicate JoinsValid(joins: Table<ArticleTag>) {
    joins.Valid() && KeyedBy(joins, (j: ArticleTag) => j.id)
  }

  /** Some name of the list is looked up as this tag name. */
  predicate NameFromList(names: seq<string>, name: string) {
    exists i :: 0 <= i < |names| && LookupName(names[i]) == name
  }

  /** Every row of `t` is in `t'` unchanged. */
  predicate Extends<T(==)>(t: Table<T>, t': Table<T>) {
    forall k :: k in t.rows ==> k in t'.rows && t'.rows[k] == t.rows[k]
  }

  /** `add_tags` keeps the tag and join invariants and keeps every existing tag and join row. */
  lemma {:induction false} AddTagsKeeps(
    tags: Table<Tag>, joins: Table<ArticleTag>, article: nat, names: seq<string>, lib: Library)
    requires TagsValid(tags) && JoinsValid(joins)
    ensures var r := AddTagsSpec(tags, joins, article, names, lib);
      TagsValid(r.0) && JoinsValid(r.1) && Extends(tags, r.0) && Extends(joins, r.1)
    decreases |names|
  {
    if names != [] {
      var r1 := FindOrCreate(tags, LookupName(names[0]), lib);
      var joins' := if r1.1.Some? then joins.Insert(ArticleTag(joins.next, article, r1.1.value)) else joins;
      assert JoinsValid(joins') && Extends(joins, joins');
      AddTagsKeeps(r1.0, joins', article, names[1..], lib);
      assert AddTagsSpec(tags, joins, article, names, lib) == AddTagsSpec(r1.0, joins', article, names[1..], lib);
    }
  }

  /**
   * Every join row `add_tags` adds links the article to a stored tag named
   * by the downcased form of one of the names.
   */
  lemma {:induction false} AddTagsLinksNamedTags(
    tags: Table<Tag>, joins: Table<ArticleTag>, article: nat, names: seq<string>, lib: Library)
    requires TagsValid(tags) && JoinsValid(joins)
    ensures var r := AddTagsSpec(tags, joins, article, names, lib);
      forall k :: k in r.1.rows && k !in joins.rows ==>
        && r.1.rows[k].articleId == article
        && r.1.rows[k].tagId in r.0.rows
        && NameFromList(names, r.0.rows[r.1.rows[k].tagId].name)
    decreases |names|
  {
    if names != [] {
      var r1 := FindOrCreate(tags, LookupName(names[0]), lib);
      var joins' := if r1.1.Some? then joins.Insert(ArticleTag(joins.next, article, r1.1.value)) else joins;
      assert JoinsValid(joins');
      AddTagsLinksNamedTags(r1.0, joins', article, names[1..], lib);
      AddTagsKeeps(r1.0, joins', article, names[1..], lib);
      var r := AddTagsSpec(tags, joins, article, names, lib);
      assert r == AddTagsSpec(r1.0, joins', article, names[1..], lib);
      forall k | k in r.1.rows && k !in joins.rows
        ensures r.1.rows[k].articleId == article && r.1.rows[k].tagId in r.0.rows
        ensures NameFromList(names, r.0.rows[r.1.rows[k].tagId].name)
      {
        if k in joins'.rows {
          assert k == joins.next;
          assert LookupName(names[0]) == r.0.rows[r.1.rows[k].tagId].name;
        } else {
          var i :| 0 <= i < |names[1..]| && LookupName(names[1..][i]) == r.0.rows[r.1.rows[k].tagId].name;
          assert names[1..][i] == names[i + 1];
        }
      }
    }
  }

  /** `find_or_create_by` gives nothing for the name: no tag has it and none can be created with it. */
  predicate Refused(t: Table<Tag>, name: string, lib: Library) {
    FindByName(t, name).None? && !CanCreate(t, name, NewSlug(name, lib))
  }

  /**
   * A refused name stays refused after any other lookup: a tag created
   * meanwhile has another name, and the validations only get harder to
   * pass as the table grows.
   */
  lemma RefusalStays(t: Table<Tag>, other: string, name: string, lib: Library)
    requires TagsValid(t)
    ensures Refused(t, name, lib) ==> Refused(FindOrCreate(t, other, lib).0, name, lib)
  {
    var r := FindOrCreate(t, other, lib);
    if Refused(t, name, lib) && r.0 != t {
      assert r.0 == t.Insert(Tag(t.next, other, NewSlug(other, lib), 0));
      assert t.next !in t.rows;
      assert other != name;
      forall k | k in r.0.rows
        ensures r.0.rows[k].name != name
      {
        if k != t.next {
          assert r.0.rows[k] == t.rows[k];
        }
      }
    }
  }

  /** A name refused before `add_tags` is refused after it. */
  lemma {:induction false} RefusalStaysThroughAddTags(
    tags: Table<Tag>, joins: Table<ArticleTag>, article: nat, names: seq<string>, name: string, lib: Library)
    requires TagsValid(tags)
    ensures Refused(tags, name, lib) ==> Refused(AddTagsSpec(tags, joins, article, names, lib).0, name, lib)
    decreases |names|
  {
    if names != [] {
      var r1 := FindOrCreate(tags, LookupName(names[0]), lib);
      var joins' := if r1.1.Some? then joins.Insert(ArticleTag(joins.next, article, r1.1.value)) else joins;
      RefusalStays(tags, LookupName(names[0]), name, lib);
      RefusalStaysThroughAddTags(r1.0, joins', article, names[1..], name, lib);
    }
  }

  /** Some join row of `joins'` that is not in `joins` links the article to the tag. */
  predicate NewlyLinked(joins: Table<ArticleTag>, joins': Table<ArticleTag>, article: nat, tag: nat) {
    exists k :: k in joins'.rows && k !in joins.rows && joins'.rows[k].articleId == article && joins'.rows[k].tagId == tag
  }

  /** The tag left under the first name's lookup name is the one its step found or created and linked. */
  lemma FirstNameLinked(
    tags: Table<Tag>, joins: Table<ArticleTag>, article: nat, names: seq<string>, lib: Library, t: nat)
    requires TagsValid(tags) && JoinsValid(joins) && names != []
    requires var r := AddTagsSpec(tags, joins, article, names, lib);
      t in r.0.rows && r.0.rows[t].name == LookupName(names[0])
    ensures NewlyLinked(joins, AddTagsSpec(tags, joins, article, names, lib).1, article, t)
  {
    var name := LookupName(names[0]);
    var r1 := FindOrCreate(tags, name, lib);
    var joins' := if r1.1.Some? then joins.Insert(ArticleTag(joins.next, article, r1.1.value)) else joins;
    assert JoinsValid(joins');
    var r := AddTagsSpec(r1.0, joins', article, names[1..], lib);
    assert r == AddTagsSpec(tags, joins, article, names, lib);
    AddTagsKeeps(r1.0, joins', article, names[1..], lib);
    RefusalStaysThroughAddTags(r1.0, joins', article, names[1..], name, lib);
    assert !Refused(r.0, name, lib);
    var id := r1.1.value;
    assert r.0.rows[t].name == r.0.rows[id].name;
    assert t == id;
    assert joins.next !in joins.rows && r.1.rows[joins.next] == joins'.rows[joins.next];
  }

  /** A row new since `joins'` is new since `joins` when `joins'` kept every key of `joins`. */
  lemma NewlyLinkedWiden(joins: Table<ArticleTag>, joins': Table<ArticleTag>, final: Table<ArticleTag>, article: nat, tag: nat)
    requires forall k :: k in joins.rows ==> k in joins'.rows
    requires NewlyLinked(joins', final, article, tag)
    ensures NewlyLinked(joins, final, article, tag)
  {
  }

  /**
   * Every tag of `r.0` named by the downcased form of one of the names is
   * linked to the article by a join row of `r.1` that is not in `joins`.
   */
  ghost predicate EveryNamedTagLinked(
    joins: Table<ArticleTag>, r: (Table<Tag>, Table<ArticleTag>), article: nat, names: seq<string>)
  {
    forall i, t :: 0 <= i < |names| && t in r.0.rows && r.0.rows[t].name == LookupName(names[i]) ==>
      NewlyLinked(joins, r.1, article, t)
  }

  /**
   * The converse of `AddTagsLinksNamedTags`: every tag that `add_tags`
   * leaves under the downcased form of one of the names (found or
   * created) is linked to the article by a join row it added.
   */
  lemma {:induction false} AddTagsLinksEveryNamedTag(
    tags: Table<Tag>, joins: Table<ArticleTag>, article: nat, names: seq<string>, lib: Library)
    requires TagsValid(tags) && JoinsValid(joins)
    ensures EveryNamedTagLinked(joins, AddTagsSpec(tags, joins, article, names, lib), article, names)
    decreases |names|
  {
    if names != [] {
      var r1 := FindOrCreate(tags, LookupName(names[0]), lib);
      var joins' := if r1.1.Some? then joins.Insert(ArticleTag(joins.next, article, r1.1.value)) else joins;
      assert JoinsValid(joins');
      var r := AddTagsSpec(r1.0, joins', article, names[1..], lib);
      assert r == AddTagsSpec(tags, joins, article, names, lib);
      AddTagsLinksEveryNamedTag(r1.0, joins', article, names[1..], lib);
      assert EveryNamedTagLinked(joins', r, article, names[1..]);
      forall i, t | 0 <= i < |names| && t in r.0.rows && r.0.rows[t].name == LookupName(names[i])
        ensures NewlyLinked(joins, r.1, article, t)
      {
        if i == 0 {
          FirstNameLinked(tags, joins, article, names, lib, t);
        } else {
          assert names[1..][i - 1] == names[i];
          assert NewlyLinked(joins', r.1, article, t);
          NewlyLinkedWiden(joins, joins', r.1, article, t);
        }
      }
    }
  }

  /**
   * The count `decrement_usage` leaves: one less only when it is positive,
   * so a count that is not negative never becomes negative.
   */
  function DecrementedUsage(n: int): (m: int)
    ensures n > 0 ==> m == n - 1
    ensures n <= 0 ==> m == n
    ensures n >= 0 ==> m >= 0
  {
    if n > 0 then n - 1 else n
  }

  /** A table with the same keys, ids, names and slugs, and usage counts not negative, is as valid. */
  lemma SameNamesKeep(t: Table<Tag>, t': Table<Tag>)
    requires TagsValid(t) && t'.next == t.next && t'.rows.Keys == t.rows.Keys
    requires forall k :: k in t.rows ==>
      t'.rows[k].id == t.rows[k].id && t'.rows[k].name == t.rows[k].name && t'.rows[k].slug == t.rows[k].slug
      && t'.rows[k].usageCount >= 0
    ensures TagsValid(t')
  {
    forall i, j | i in t'.rows && j in t'.rows && SameIgnoringCase(t'.rows[i].name, t'.rows[j].name)
      ensures i == j
    {
      assert SameIgnoringCase(t.rows[i].name, t.rows[j].name);
    }
  }

  /** Setting a stored tag's usage count to a value that is not negative keeps the tags valid. */
  lemma UsageChangeKeeps(t: Table<Tag>, id: nat, n: int)
    requires TagsValid(t) && id in t.rows && n >= 0
    ensures TagsValid(t.(rows := t.rows[id := t.rows[id].(usageCount := n)]))
  {
    SameNamesKeep(t, t.(rows := t.rows[id := t.rows[id].(usageCount := n)]));
  }
}
