/**
 * The Ruby string operations the core relies on: `blank?`, `strip`,
 * `downcase`, `split(',')`, `Integer#to_s`, and the code-point ordering
 * used for ORDER BY on text columns.
 */
module Text {

  /** The ASCII whitespace `strip` removes: space, tab, line feed, vertical tab, form feed, carriage return. */
  predicate IsAsciiSpace(c: char) {
    c == ' ' || c == '\t' || c == '\n' || c == '\r' || c == '\U{0B}' || c == '\U{0C}'
  }

  /**
   * Whitespace as `blank?` sees it: `[[:space:]]`, the Unicode White_Space
   * characters (no-break space, the ideographic space and the rest).
   */
  predicate IsSpace(c: char) {
    || IsAsciiSpace(c)
    || c == '\U{85}' || c == '\U{A0}' || c == '\U{1680}'
    || ('\U{2000}' <= c <= '\U{200A}')
    || c == '\U{2028}' || c == '\U{2029}' || c == '\U{202F}' || c == '\U{205F}' || c == '\U{3000}'
  }

  /** `blank?`: empty or whitespace only. `present?` is its negation. */
  predicate IsBlank(s: string) {
    forall i :: 0 <= i < |s| ==> IsSpace(s[i])
  }

  /** What `strip` removes at either end: ASCII whitespace and NUL. */
  predicate IsStripChar(c: char) {
    IsAsciiSpace(c) || c == '\0'
  }

  predicate AllStripChars(s: string) {
    forall i :: 0 <= i < |s| ==> IsStripChar(s[i])
  }

  function StripLeft(s: string): (r: string)
    ensures |r| <= |s| && r == s[|s| - |r|..]
    ensures AllStripChars(s[..|s| - |r|])
    ensures r == [] || !IsStripChar(r[0])
  {
    if s != [] && IsStripChar(s[0]) then
      var r := StripLeft(s[1..]);
      assert s[1..][..|s| - 1 - |r|] == s[1..|s| - |r|];
      r
    else s
  }

  function StripRight(s: string): (r: string)
    ensures |r| <= |s| && r == s[..|r|]
    ensures AllStripChars(s[|r|..])
    ensures r == [] || !IsStripChar(r[|r| - 1])
  {
    if s != [] && IsStripChar(s[|s| - 1]) then
      var r := StripRight(s[..|s| - 1]);
      r
    else s
  }

  /** `strip`: s is the stripped string with strip characters around it. */
  function Strip(s: string): (r: string)
    ensures exists i, j ::
      (0 <= i <= j <= |s| && r == s[i..j] && AllStripChars(s[..i]) && AllStripChars(s[j..]))
    ensures r == [] || (!IsStripChar(r[0]) && !IsStripChar(r[|r| - 1]))
  {
    var l := StripLeft(s);
    var r := StripRight(l);
    var i := |s| - |l|;
    var j := i + |r|;
    assert r == s[i..j];
    assert s[j..] == l[|r|..];
    r
  }

  /** Stripping a stripped string changes nothing. */
  lemma StripIdempotent(s: string)
    ensures Strip(Strip(s)) == Strip(s)
  {
    var r := Strip(s);
    if r != [] {
      assert StripLeft(r) == r;
      assert StripRight(r) == r;
    }
  }

  /**
   * The capitals `downcase` maps one-to-one onto a letter 32 code points
   * on: ASCII, Latin-1 (but not the multiplication sign), the Greek
   * capitals Alpha to Omega and the two with dialytika, and the basic
   * Cyrillic capitals.
   */
  predicate IsUpperBy32(c: char) {
    || ('A' <= c <= 'Z')
    || ('\U{C0}' <= c <= '\U{DE}' && c != '\U{D7}')
    || ('\U{391}' <= c <= '\U{3AB}' && c != '\U{3A2}')
    || ('\U{410}' <= c <= '\U{42F}')
  }

  /** The Cyrillic capitals with a diacritic, lowered 80 code points on. */
  predicate IsUpperBy80(c: char) {
    '\U{400}' <= c <= '\U{40F}'
  }

  /**
   * How far `downcase` moves a capital it covers, and 0 for every other
   * character.  The Greek capitals with tonos (U+0386, U+0388-U+038A,
   * U+038C, U+038E-U+038F) map onto their small letters at U+03AC-U+03CE.
   */
  function LowerOffset(c: char): (n: nat)
    ensures n == 0 || n == 32 || n == 37 || n == 38 || n == 63 || n == 64 || n == 80
    ensures n != 0 ==> c as int <= 0x42F
  {
    if IsUpperBy32(c) then 32
    else if IsUpperBy80(c) then 80
    else if c == '\U{386}' then 38
    else if '\U{388}' <= c <= '\U{38A}' then 37
    else if c == '\U{38C}' then 64
    else if '\U{38E}' <= c <= '\U{38F}' then 63
    else 0
  }

  predicate IsUpper(c: char) { LowerOffset(c) != 0 }

  function DowncaseChar(c: char): char {
    (c as int + LowerOffset(c)) as char
  }

  /** A lowered character is no capital, and a character that is none is kept. */
  lemma DowncaseCharLowers(c: char)
    ensures !IsUpper(DowncaseChar(c))
    ensures !IsUpper(c) ==> DowncaseChar(c) == c
    ensures 'A' <= c <= 'Z' ==> DowncaseChar(c) as int == c as int + 32
  {
  }

  /** `downcase` on the capitals `DowncaseChar` covers; every other character is kept. */
  function Downcase(s: string): (r: string)
    ensures |r| == |s|
    ensures forall i :: 0 <= i < |s| ==> r[i] == DowncaseChar(s[i])
  {
    seq(|s|, i requires 0 <= i < |s| => DowncaseChar(s[i]))
  }

  lemma DowncaseIdempotent(s: string)
    ensures Downcase(Downcase(s)) == Downcase(s)
  {
    forall i | 0 <= i < |s| ensures DowncaseChar(DowncaseChar(s[i])) == DowncaseChar(s[i]) {
      DowncaseCharLowers(s[i]);
      DowncaseCharLowers(DowncaseChar(s[i]));
    }
  }

  /** Case-insensitive equality, as a `LOWER(a) = LOWER(b)` uniqueness check. */
  predicate SameIgnoringCase(a: string, b: string) {
    Downcase(a) == Downcase(b)
  }

  /** Splitting at every separator, keeping every field (empty ones too). */
  function SplitFields(s: string, sep: char): (r: seq<string>)
    ensures |r| >= 1
    ensures forall i :: 0 <= i < |r| ==> sep !in r[i]
  {
    if s == [] then [[]]
    else
      var rest := SplitFields(s[1..], sep);
      if s[0] == sep then [[]] + rest
      else [[s[0]] + rest[0]] + rest[1..]
  }

  /** Joins fields back with the separator between consecutive fields. */
  function Join(fields: seq<string>, sep: char): string
    requires |fields| >= 1
  {
    if |fields| == 1 then fields[0]
    else fields[0] + [sep] + Join(fields[1..], sep)
  }

  /** Splitting loses nothing: joining the fields gives back the string. */
  lemma {:induction false} JoinSplitFields(s: string, sep: char)
    ensures Join(SplitFields(s, sep), sep) == s
  {
    if s != [] {
      var rest := SplitFields(s[1..], sep);
      JoinSplitFields(s[1..], sep);
      if s[0] == sep {
        assert SplitFields(s, sep)[1..] == rest;
      } else {
        var r := SplitFields(s, sep);
        if |rest| == 1 {
          assert r == [[s[0]] + rest[0]];
        } else {
          assert r[1..] == rest[1..];
          assert Join(rest, sep) == rest[0] + [sep] + Join(rest[1..], sep);
        }
      }
    }
  }

  /** Drops trailing empty fields, as Ruby's `split` does with no limit. */
  function DropTrailingEmpty(fields: seq<string>): (r: seq<string>)
    ensures |r| <= |fields| && r == fields[..|r|]
    ensures forall i :: |r| <= i < |fields| ==> fields[i] == []
    ensures r == [] || r[|r| - 1] != []
  {
    if fields != [] && fields[|fields| - 1] == [] then DropTrailingEmpty(fields[..|fields| - 1])
    else fields
  }

  /** Ruby's `String#split(sep)` with a one-character separator. */
  function Split(s: string, sep: char): (r: seq<string>)
    ensures forall i :: 0 <= i < |r| ==> sep !in r[i]
    ensures r == [] || r[|r| - 1] != []
  {
    DropTrailingEmpty(SplitFields(s, sep))
  }

  /** The fields Split returns, plus the empty ones it dropped, join back to s. */
  lemma SplitLosesOnlyTrailingEmptyFields(s: string, sep: char)
    ensures var r := Split(s, sep); var all := SplitFields(s, sep);
      r == all[..|r|] && (forall i :: |r| <= i < |all| ==> all[i] == []) && Join(all, sep) == s
  {
    JoinSplitFields(s, sep);
  }

  predicate IsDigit(c: char) { '0' <= c <= '9' }

  function DigitChar(d: nat): (c: char)
    requires d < 10
    ensures IsDigit(c)
  {
    ('0' as int + d) as char
  }

  /** `Integer#to_s`: the decimal digits of n, without leading zeros. */
  function Digits(n: nat): (r: string)
    ensures r != []
    ensures forall i :: 0 <= i < |r| ==> IsDigit(r[i])
  {
    if n < 10 then [DigitChar(n)] else Digits(n / 10) + [DigitChar(n % 10)]
  }

  /** The value of a string of decimal digits. */
  function ParseDigits(s: string): nat
    requires forall i :: 0 <= i < |s| ==> IsDigit(s[i])
  {
    if s == [] then 0
    else
      assert IsDigit(s[|s| - 1]);
      ParseDigits(s[..|s| - 1]) * 10 + (s[|s| - 1] as int - '0' as int)
  }

  lemma {:induction false} ParseDigitsOfDigits(n: nat)
    ensures ParseDigits(Digits(n)) == n
  {
    if n >= 10 {
      ParseDigitsOfDigits(n / 10);
      var s := Digits(n);
      assert s[..|s| - 1] == Digits(n / 10);
    }
  }

  /** Distinct numbers have distinct decimal strings. */
  lemma DigitsInjective(m: nat, n: nat)
    requires Digits(m) == Digits(n)
    ensures m == n
  {
    ParseDigitsOfDigits(m);
    ParseDigitsOfDigits(n);
  }

  /** Lexicographic order on code points (a binary collation). */
  predicate StrLe(a: string, b: string) {
    a == [] || (b != [] && (a[0] < b[0] || (a[0] == b[0] && StrLe(a[1..], b[1..]))))
  }

  lemma {:induction false} StrLeTotal(a: string, b: string)
    ensures StrLe(a, b) || StrLe(b, a)
  {
    if a != [] && b != [] && a[0] == b[0] {
      StrLeTotal(a[1..], b[1..]);
    }
  }

  lemma {:induction false} StrLeTransitive(a: string, b: string, c: string)
    requires StrLe(a, b) && StrLe(b, c)
    ensures StrLe(a, c)
  {
    if a != [] && a[0] == b[0] && b[0] == c[0] {
      StrLeTransitive(a[1..], b[1..], c[1..]);
    }
  }

  lemma {:induction false} StrLeAntisymmetric(a: string, b: string)
    requires StrLe(a, b) && StrLe(b, a)
    ensures a == b
  {
    if a != [] {
      StrLeAntisymmetric(a[1..], b[1..]);
    }
  }
}
