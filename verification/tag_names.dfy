/**
 * The tag names `add_tags` derives from the `tags` parameter: a string is
 * split on ',' and each piece stripped; a list is taken as given.  Every
 * name is then downcased before the tag is looked up or created.
 */
module TagNames {
  import opened Text

  datatype TagsParam = TagString(s: string) | TagList(names: seq<string>)

  /** `params[:tags].present?`. */
  predicate Present(p: TagsParam) {
    match p
    case TagString(s) => !IsBlank(s)
    case TagList(names) => names != []
  }

  /** `tags.split(',').map(&:strip)` for a string, the list itself otherwise. */
  function RawNames(p: TagsParam): (r: seq<string>)
    ensures p.TagList? ==> r == p.names
    ensures p.TagString? ==>
      (|r| == |Split(p.s, ',')| && forall i :: 0 <= i < |r| ==> r[i] == Strip(Split(p.s, ',')[i]))
  {
    match p
    case TagString(s) => var pieces := Split(s, ','); seq(|pieces|, i requires 0 <= i < |pieces| => Strip(pieces[i]))
    case TagList(names) => names
  }

  /** The name each raw name is looked up by: `tag_name.downcase`. */
  function LookupName(raw: string): (r: string)
    ensures |r| == |raw|
    ensures forall i :: 0 <= i < |r| ==> !IsUpper(r[i])
  {
    forall i | 0 <= i < |raw| ensures !IsUpper(DowncaseChar(raw[i])) {
      DowncaseCharLowers(raw[i]);
    }
    Downcase(raw)
  }

  /** A lookup name is already in lower case, so looking it up again changes nothing. */
  lemma LookupNameIdempotent(raw: string)
    ensures LookupName(LookupName(raw)) == LookupName(raw)
  {
    DowncaseIdempotent(raw);
  }

  /** Names from a string carry no comma and no surrounding whitespace. */
  lemma StringNamesAreClean(s: string)
    ensures forall i :: 0 <= i < |RawNames(TagString(s))| ==>
      var n := RawNames(TagString(s))[i];
      ',' !in n && (n == [] || (!IsStripChar(n[0]) && !IsStripChar(n[|n| - 1])))
  {
    var pieces := Split(s, ',');
    forall i | 0 <= i < |pieces|
      ensures ',' !in Strip(pieces[i])
    {
      var n := Strip(pieces[i]);
      assert forall c :: c in n ==> c in pieces[i];
    }
  }
}
