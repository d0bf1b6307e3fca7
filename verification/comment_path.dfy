/**
 * The materialised path of a comment: the ids of its ancestors, root
 * first.  The `comments.path` column stores it as text, one "." followed by
 * the decimal id per ancestor, so a root comment has "" and a reply to
 * comment 5 (itself a root) has ".5".
 */
module CommentPath {
  import opened Wrappers
  import opened Text

  type Path = seq<nat>

  /** The text stored in the `path` column. */
  function Encode(p: Path): (s: string)
    ensures s == [] <==> p == []
    ensures s != [] ==> s[0] == '.'
  {
    if p == [] then [] else "." + Digits(p[0]) + Encode(p[1..])
  }

  lemma {:induction false} EncodeConcat(p: Path, q: Path)
    ensures Encode(p + q) == Encode(p) + Encode(q)
  {
    if p != [] {
      assert (p + q)[1..] == p[1..] + q;
      EncodeConcat(p[1..], q);
    } else {
      assert p + q == q;
    }
  }

  /** A reply's path text is its parent's path text, ".", and the parent's id. */
  lemma EncodeAppend(p: Path, id: nat)
    ensures Encode(p + [id]) == Encode(p) + "." + Digits(id)
  {
    EncodeConcat(p, [id]);
    assert [id][1..] == [];
  }

  function CountChar(s: string, c: char): nat {
    if s == [] then 0 else (if s[0] == c then 1 else 0) + CountChar(s[1..], c)
  }

  lemma {:induction false} CountCharConcat(a: string, b: string, c: char)
    ensures CountChar(a + b, c) == CountChar(a, c) + CountChar(b, c)
  {
    if a != [] {
      assert (a + b)[1..] == a[1..] + b;
      CountCharConcat(a[1..], b, c);
    } else {
      assert a + b == b;
    }
  }

  lemma {:induction false} CountCharDigits(s: string)
    requires forall i :: 0 <= i < |s| ==> IsDigit(s[i])
    ensures CountChar(s, '.') == 0
  {
    if s != [] {
      CountCharDigits(s[1..]);
    }
  }

  /** The number of '.'-separated ids in the path text is the path's length. */
  lemma {:induction false} DotsCountIds(p: Path)
    ensures CountChar(Encode(p), '.') == |p|
  {
    if p != [] {
      var d := Digits(p[0]);
      CountCharConcat("." + d, Encode(p[1..]), '.');
      CountCharConcat(".", d, '.');
      CountCharDigits(d);
      DotsCountIds(p[1..]);
    }
  }

  /** The length of the run of digits that s starts with. */
  function DigitRun(s: string): (n: nat)
    ensures n <= |s|
    ensures forall i :: 0 <= i < n ==> IsDigit(s[i])
    ensures n == |s| || !IsDigit(s[n])
  {
    if s == [] || !IsDigit(s[0]) then 0 else 1 + DigitRun(s[1..])
  }

  lemma {:induction false} DigitRunOf(d: string, r: string)
    requires forall i :: 0 <= i < |d| ==> IsDigit(d[i])
    requires r == [] || !IsDigit(r[0])
    ensures DigitRun(d + r) == |d|
  {
    if d != [] {
      assert (d + r)[1..] == d[1..] + r;
      DigitRunOf(d[1..], r);
    } else {
      assert d + r == r;
    }
  }

  /** Reads the path text back; None for text that no path encodes to. */
  function Decode(s: string): Option<Path>
    decreases |s|
  {
    if s == [] then Some([])
    else if s[0] != '.' then None
    else
      var n := DigitRun(s[1..]);
      if n == 0 then None
      else
        match Decode(s[1 + n..])
        case None => None
        case Some(rest) => Some([ParseDigits(s[1..1 + n])] + rest)
  }

  /** One step of `Decode`: a dot, a run of digits, then text that decodes. */
  lemma DecodeStep(d: string, tail: string)
    requires d != [] && forall i :: 0 <= i < |d| ==> IsDigit(d[i])
    requires tail == [] || tail[0] == '.'
    requires Decode(tail).Some?
    ensures Decode(['.'] + (d + tail)) == Some([ParseDigits(d)] + Decode(tail).value)
  {
    var s := ['.'] + (d + tail);
    assert s[1..] == d + tail;
    DigitRunOf(d, tail);
    assert s[1..1 + |d|] == d;
    assert s[1 + |d|..] == tail;
  }

  lemma EncodeCons(p: Path)
    requires p != []
    ensures Encode(p) == ['.'] + (Digits(p[0]) + Encode(p[1..]))
  {
    assert "." + Digits(p[0]) + Encode(p[1..]) == ['.'] + (Digits(p[0]) + Encode(p[1..]));
  }

  lemma {:induction false} DecodeEncode(p: Path)
    ensures Decode(Encode(p)) == Some(p)
  {
    if p != [] {
      DecodeEncode(p[1..]);
      DecodeStep(Digits(p[0]), Encode(p[1..]));
      EncodeCons(p);
      ParseDigitsOfDigits(p[0]);
      assert [p[0]] + p[1..] == p;
    }
  }

  lemma EncodeInjective(p: Path, q: Path)
    requires Encode(p) == Encode(q)
    ensures p == q
  {
    DecodeEncode(p);
    DecodeEncode(q);
  }

  predicate StartsWith(s: string, pre: string) {
    |pre| <= |s| && s[..|pre|] == pre
  }

  predicate IsPrefix(p: Path, q: Path) {
    |p| <= |q| && q[..|p|] == p
  }

  /** `path = P OR path LIKE 'P.%'` with P = Encode(q). */
  predicate MatchesAtBoundary(s: string, q: Path) {
    AtBoundary(s, Encode(q))
  }

  predicate AllDigits(s: string) {
    forall i :: 0 <= i < |s| ==> IsDigit(s[i])
  }

  /** Two "digits, then '.' or the end" readings of one string agree. */
  lemma LeadingDigitsAgree(dx: string, dy: string, a: string, b: string)
    requires AllDigits(dx) && AllDigits(dy)
    requires a == [] || a[0] == '.'
    requires b == [] || b[0] == '.'
    requires dx + a == dy + b
    ensures dx == dy && a == b
  {
    DigitRunOf(dx, a);
    DigitRunOf(dy, b);
    assert dx == (dx + a)[..|dx|];
    assert dy == (dy + b)[..|dy|];
    assert a == (dx + a)[|dx|..];
    assert b == (dy + b)[|dy|..];
  }

  lemma StartsWithSuffix(s: string, pre: string, k: nat)
    requires StartsWith(s, pre) && k <= |pre|
    ensures StartsWith(s[k..], pre[k..])
  {
    assert forall i :: 0 <= i < |pre| - k ==> s[k..][i] == s[k + i] == pre[k + i];
  }

  /** t equals e, or starts with e followed by '.'. */
  predicate AtBoundary(t: string, e: string) {
    t == e || StartsWith(t, e + ".")
  }

  /** One step of the boundary match, on the text: the leading ids agree and the rests match again. */
  lemma BoundaryStepText(dx: string, dy: string, qt: string, dt: string)
    requires AllDigits(dx) && AllDigits(dy)
    requires qt == [] || qt[0] == '.'
    requires dt == [] || dt[0] == '.'
    requires AtBoundary("." + dy + dt, "." + dx + qt)
    ensures dx == dy && AtBoundary(dt, qt)
  {
    var t, e := "." + dy + dt, "." + dx + qt;
    var k := 1 + |dx|;
    assert StartsWith(t, e) by {
      if t != e { assert t[..|e|] == (e + ".")[..|e|]; }
    }
    var rest := t[k..];
    assert t[1..] == dx + rest by {
      assert t[1..k] == e[1..k] == dx;
      assert t[1..] == t[1..k] + t[k..];
    }
    StartsWithSuffix(t, e, k);
    assert e[k..] == qt;
    assert rest == [] || rest[0] == '.' by {
      if qt != [] {
        assert rest[0] == qt[0];
      } else if t != e {
        StartsWithSuffix(t, e + ".", k);
        assert (e + ".")[k..] == ".";
      }
    }
    assert t[1..] == dy + dt;
    LeadingDigitsAgree(dx, dy, rest, dt);
    if t != e {
      StartsWithSuffix(t, e + ".", k);
      assert (e + ".")[k..] == qt + ".";
    }
  }

  lemma {:induction false} BoundaryMatchIsPrefix(q: Path, d: Path)
    requires MatchesAtBoundary(Encode(d), q)
    ensures IsPrefix(q, d)
  {
    if q != [] {
      assert d != [] by { assert |Encode(d)| >= |Encode(q)| > 0; }
      BoundaryStepText(Digits(q[0]), Digits(d[0]), Encode(q[1..]), Encode(d[1..]));
      DigitsInjective(q[0], d[0]);
      BoundaryMatchIsPrefix(q[1..], d[1..]);
      assert d == [d[0]] + d[1..];
      assert q == [q[0]] + q[1..];
    }
  }

  lemma PrefixMatchesAtBoundary(q: Path, d: Path)
    requires IsPrefix(q, d)
    ensures MatchesAtBoundary(Encode(d), q)
    ensures |q| < |d| ==> StartsWith(Encode(d), Encode(q) + ".")
  {
    var r := d[|q|..];
    assert d == q + r;
    EncodeConcat(q, r);
    if r != [] {
      var e := Encode(d);
      assert e[..|Encode(q)| + 1] == Encode(q) + ".";
    } else {
      assert d == q;
    }
  }

  /**
   * The boundary-aware text query and the prefix relation on paths agree:
   * `path = P OR path LIKE 'P.%'` selects exactly the paths extending q.
   */
  lemma BoundaryMatchIffPrefix(q: Path, d: Path)
    ensures MatchesAtBoundary(Encode(d), q) <==> IsPrefix(q, d)
  {
    if MatchesAtBoundary(Encode(d), q) { BoundaryMatchIsPrefix(q, d); }
    if IsPrefix(q, d) { PrefixMatchesAtBoundary(q, d); }
  }

  /** The condition `Comment#children` writes: `path LIKE 'own.%'`. */
  predicate ChildrenCondition(own: Path, other: Path) {
    StartsWith(Encode(other), Encode(own) + ".")
  }

  /**
   * What that condition selects: every path that strictly extends the
   * comment's own path -- the comment's siblings' subtrees and its own
   * subtree, but not the siblings themselves.
   */
  lemma ChildrenConditionIffProperPrefix(own: Path, other: Path)
    ensures ChildrenCondition(own, other) <==> IsPrefix(own, other) && |own| < |other|
  {
    if ChildrenCondition(own, other) {
      BoundaryMatchIsPrefix(own, other);
      assert other != own;
      assert other[..|own|] == own;
    }
    if IsPrefix(own, other) && |own| < |other| {
      PrefixMatchesAtBoundary(own, other);
    }
  }

  /** The evidently intended condition: keyed on `path + "." + id`. */
  predicate DescendantCondition(own: Path, id: nat, other: Path) {
    MatchesAtBoundary(Encode(other), own + [id])
  }

  /** It selects exactly the comments below this one in the tree. */
  lemma DescendantConditionIffBelow(own: Path, id: nat, other: Path)
    ensures DescendantCondition(own, id, other) <==> IsPrefix(own + [id], other)
  {
    BoundaryMatchIffPrefix(own + [id], other);
  }

  /**
   * The written condition lets through a comment that is not below this
   * one: for comment 9 replying to root 5, the reply ".5.7" to its sibling 7.
   */
  lemma ChildrenConditionSelectsSiblingsReply()
    ensures ChildrenCondition([5], [5, 7])
    ensures !DescendantCondition([5], 9, [5, 7])
  {
    ChildrenConditionIffProperPrefix([5], [5, 7]);
    DescendantConditionIffBelow([5], 9, [5, 7]);
    assert [5, 7][..2] != [5, 9];
  }
}
