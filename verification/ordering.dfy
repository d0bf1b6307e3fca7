/**
 * WHERE, ORDER BY and LIMIT over a list of rows.  ORDER BY is specified
 * relationally -- the result is a permutation of its input, sorted by the
 * comparator -- since SQL fixes no order among rows that compare equal.
 */
module Ordering {
  import opened Tables

  /** A comparator that ORDER BY can use: total and transitive (ties allowed). */
  ghost predicate TotalPreorder<T(!new)>(le: (T, T) -> bool) {
    && (forall a, b :: le(a, b) || le(b, a))
    && (forall a, b, c :: le(a, b) && le(b, c) ==> le(a, c))
  }

  ghost predicate Sorted<T>(s: seq<T>, le: (T, T) -> bool) {
    forall i, j :: 0 <= i < j < |s| ==> le(s[i], s[j])
  }

  /** WHERE p: the rows satisfying p, in their original order. */
  function Filter<T(!new)>(s: seq<T>, p: T -> bool): (r: seq<T>)
    ensures |r| <= |s|
    ensures forall i :: 0 <= i < |r| ==> p(r[i])
    ensures forall x :: x in r <==> x in s && p(x)
  {
    if s == [] then []
    else
      var rest := Filter(s[1..], p);
      assert s == [s[0]] + s[1..];
      if p(s[0]) then [s[0]] + rest else rest
  }

  /** WHERE keeps every copy of a satisfying row and drops every other. */
  lemma {:induction false} FilterMultiset<T(!new)>(s: seq<T>, p: T -> bool)
    ensures forall x :: multiset(Filter(s, p))[x] == if p(x) then multiset(s)[x] else 0
  {
    if s != [] {
      FilterMultiset(s[1..], p);
      assert s == [s[0]] + s[1..];
    }
  }

  function Insert<T>(x: T, s: seq<T>, le: (T, T) -> bool): (r: seq<T>)
    ensures multiset(r) == multiset(s) + multiset{x}
    ensures |r| == |s| + 1
  {
    if s == [] || le(x, s[0]) then [x] + s
    else
      assert s == [s[0]] + s[1..];
      [s[0]] + Insert(x, s[1..], le)
  }

  lemma {:induction false} InsertSorted<T(!new)>(x: T, s: seq<T>, le: (T, T) -> bool)
    requires TotalPreorder(le) && Sorted(s, le)
    ensures Sorted(Insert(x, s, le), le)
  {
    if s != [] && !le(x, s[0]) {
      var rest := s[1..];
      assert Sorted(rest, le);
      InsertSorted(x, rest, le);
      var r := Insert(x, s, le);
      var tail := Insert(x, rest, le);
      assert r == [s[0]] + tail;
      forall j | 0 <= j < |tail| ensures le(s[0], tail[j]) {
        assert tail[j] in multiset(tail);
        assert tail[j] == x || tail[j] in multiset(rest);
        if tail[j] != x {
          var k :| 0 <= k < |rest| && rest[k] == tail[j];
          assert rest[k] == s[k + 1];
        }
      }
    }
  }

  /** ORDER BY le: a sorted permutation of the rows. */
  function SortBy<T(!new)>(s: seq<T>, le: (T, T) -> bool): (r: seq<T>)
    ensures multiset(r) == multiset(s)
    ensures |r| == |s|
    ensures TotalPreorder(le) ==> Sorted(r, le)
  {
    if s == [] then []
    else
      var rest := SortBy(s[1..], le);
      assert s == [s[0]] + s[1..];
      var r := Insert(s[0], rest, le);
      assert TotalPreorder(le) ==> Sorted(r, le) by {
        if TotalPreorder(le) { InsertSorted(s[0], rest, le); }
      }
      r
  }

  /** LIMIT n. */
  function Take<T>(s: seq<T>, n: nat): (r: seq<T>)
    ensures |r| == if |s| < n then |s| else n
    ensures r == s[..|r|]
  {
    if |s| <= n then s else s[..n]
  }

  /** The rows satisfying p, ordered by le: what `where(p).order(le)` returns. */
  ghost predicate IsOrderedSelection<T(!new)>(r: seq<T>, s: seq<T>, p: T -> bool, le: (T, T) -> bool) {
    && (forall x :: multiset(r)[x] == if p(x) then multiset(s)[x] else 0)
    && Sorted(r, le)
  }

  function Select<T(!new)>(s: seq<T>, p: T -> bool, le: (T, T) -> bool): (r: seq<T>)
    requires TotalPreorder(le)
    ensures IsOrderedSelection(r, s, p, le)
    ensures forall x :: x in r <==> x in s && p(x)
    ensures |r| == |Filter(s, p)|
  {
    var r := SortBy(Filter(s, p), le);
    FilterMultiset(s, p);
    assert forall x :: x in r <==> x in multiset(r);
    r
  }

  /** Taking a prefix keeps a list sorted, and what is left out ranks no higher. */
  lemma TakeOfSorted<T>(s: seq<T>, n: nat, le: (T, T) -> bool)
    requires Sorted(s, le)
    ensures Sorted(Take(s, n), le)
    ensures forall i, j :: 0 <= i < |Take(s, n)| <= j < |s| ==> le(s[i], s[j])
  {
  }

  /** ORDER BY key DESC. */
  function Descending<T>(key: T -> int): (T, T) -> bool {
    (a: T, b: T) => key(a) >= key(b)
  }

  /** ORDER BY key ASC. */
  function Ascending<T>(key: T -> int): (T, T) -> bool {
    (a: T, b: T) => key(a) <= key(b)
  }

  lemma DescendingIsPreorder<T(!new)>(key: T -> int)
    ensures TotalPreorder(Descending(key))
  {
  }

  lemma AscendingIsPreorder<T(!new)>(key: T -> int)
    ensures TotalPreorder(Ascending(key))
  {
  }

  /**
   * `where(p).order(le).limit(n)`: the first n of the rows satisfying p in
   * order (all of them when fewer), each kept no more often than the table
   * holds it, and none left out ranks above one kept.
   */
  function Top<T(!new)>(s: seq<T>, p: T -> bool, le: (T, T) -> bool, n: nat): (r: seq<T>)
    requires TotalPreorder(le)
    ensures |r| == if |Filter(s, p)| < n then |Filter(s, p)| else n
    ensures Sorted(r, le)
    ensures forall x :: multiset(r)[x] <= if p(x) then multiset(s)[x] else 0
    ensures forall x :: x in r ==> x in s && p(x)
    ensures forall x, y :: x in r && y in s && p(y) && y !in r ==> le(x, y)
    ensures |Filter(s, p)| <= n ==> forall x :: multiset(r)[x] == if p(x) then multiset(s)[x] else 0
  {
    var all := Select(s, p, le);
    var r := Take(all, n);
    PrefixCounts(all, |r|);
    forall x, y | x in r && y in s && p(y) && y !in r
      ensures le(x, y)
    {
      var i :| 0 <= i < |r| && r[i] == x;
      var j :| 0 <= j < |all| && all[j] == y;
      assert j >= |r|;
    }
    r
  }

  /** A prefix holds each element no more often than the whole list. */
  lemma PrefixCounts<T>(s: seq<T>, n: nat)
    requires n <= |s|
    ensures forall x :: multiset(s[..n])[x] <= multiset(s)[x]
  {
    assert s == s[..n] + s[n..];
    assert multiset(s) == multiset(s[..n]) + multiset(s[n..]);
  }

  /** Two conditions that agree on every row select the same rows. */
  lemma {:induction false} FilterCongruent<T(!new)>(s: seq<T>, p: T -> bool, q: T -> bool)
    requires forall x :: x in s ==> p(x) == q(x)
    ensures Filter(s, p) == Filter(s, q)
  {
    if s != [] {
      assert forall x :: x in s[1..] ==> x in s;
      FilterCongruent(s[1..], p, q);
    }
  }

  /** A row appended to the table is selected at the end exactly when it satisfies the condition. */
  lemma {:induction false} FilterAppend<T(!new)>(s: seq<T>, x: T, p: T -> bool)
    ensures Filter(s + [x], p) == Filter(s, p) + (if p(x) then [x] else [])
  {
    if s == [] {
      assert [x][1..] == [];
      assert Filter([x], p) == (if p(x) then [x] else []);
      assert s + [x] == [x];
    } else {
      var t := s + [x];
      assert t[0] == s[0] && t[1..] == s[1..] + [x];
      FilterAppend(s[1..], x, p);
      var rest := Filter(s[1..], p) + (if p(x) then [x] else []);
      assert Filter(t, p) == (if p(s[0]) then [s[0]] else []) + rest;
      assert Filter(s, p) == (if p(s[0]) then [s[0]] else []) + Filter(s[1..], p);
    }
  }

  /** A condition every row satisfies selects the whole table. */
  lemma {:induction false} FilterAll<T(!new)>(s: seq<T>, p: T -> bool)
    requires forall x :: p(x)
    ensures Filter(s, p) == s
  {
    if s != [] {
      FilterAll(s[1..], p);
      assert s == [s[0]] + s[1..];
    }
  }

  /** WHERE over a table scan: its length is the number of matching keys. */
  lemma {:induction false} FilterRowsCount<T(!new)>(m: map<nat, T>, p: T -> bool)
    ensures |Filter(Rows(m), p)| == |KeysWhere(m, p)|
    decreases |m|
  {
    if |m| == 0 {
      assert KeysWhere(m, p) == {};
    } else {
      var k := MinKey(m.Keys);
      FilterRowsCount(m - {k}, p);
      FilterRowsFirst(m, p);
      KeysWhereFirst(m, p);
    }
  }

  /** WHERE looks at the row under the least key first. */
  lemma FilterRowsFirst<T(!new)>(m: map<nat, T>, p: T -> bool)
    requires |m| != 0
    ensures var k := MinKey(m.Keys);
      |Filter(Rows(m), p)| == (if p(m[k]) then 1 else 0) + |Filter(Rows(m - {k}), p)|
  {
    var k := MinKey(m.Keys);
    var s := Rows(m);
    assert s == [m[k]] + Rows(m - {k});
    assert s[1..] == Rows(m - {k});
  }

  /** WHERE over a table scan keeps each matching row as often as the table holds it. */
  lemma FilterRowsCounts<T(!new)>(m: map<nat, T>, p: T -> bool)
    ensures forall x :: multiset(Filter(Rows(m), p))[x] == if p(x) then Occurrences(m, x) else 0
  {
    FilterMultiset(Rows(m), p);
    forall x { RowsMultiset(m, x); }
  }

  /**
   * `where(p).order(le)` on a table, stated over the table: exactly the
   * matching rows, each as often as the table holds it, in order.
   */
  function SelectFromTable<T(!new)>(m: map<nat, T>, p: T -> bool, le: (T, T) -> bool): (r: seq<T>)
    requires TotalPreorder(le)
    ensures forall x :: x in r <==> (exists k :: k in m && m[k] == x) && p(x)
    ensures forall x :: multiset(r)[x] == if p(x) then Occurrences(m, x) else 0
    ensures Sorted(r, le)
    ensures |r| == |Filter(Rows(m), p)|
  {
    var r := Select(Rows(m), p, le);
    forall x ensures multiset(r)[x] == if p(x) then Occurrences(m, x) else 0 {
      RowsMultiset(m, x);
    }
    r
  }

  /**
   * `where(p).order(le).limit(n)` on a table, stated over the table: the
   * first n matching rows (all when fewer), each kept no more often than
   * the table holds it, and none left out ranks above one kept.
   */
  function TopOfTable<T(!new)>(m: map<nat, T>, p: T -> bool, le: (T, T) -> bool, n: nat): (r: seq<T>)
    requires TotalPreorder(le)
    ensures |r| == if |KeysWhere(m, p)| < n then |KeysWhere(m, p)| else n
    ensures Sorted(r, le)
    ensures forall x :: x in r ==> (exists k :: k in m && m[k] == x) && p(x)
    ensures forall x :: multiset(r)[x] <= Occurrences(m, x)
    ensures |KeysWhere(m, p)| <= n ==> forall x :: multiset(r)[x] == if p(x) then Occurrences(m, x) else 0
    ensures forall x, y :: x in r && (exists k :: k in m && m[k] == y) && p(y) && y !in r ==> le(x, y)
  {
    var r := Top(Rows(m), p, le, n);
    FilterRowsCount(m, p);
    forall x
      ensures multiset(r)[x] <= Occurrences(m, x)
      ensures |KeysWhere(m, p)| <= n ==> multiset(r)[x] == if p(x) then Occurrences(m, x) else 0
    {
      RowsMultiset(m, x);
    }
    r
  }

  /** With a condition every row satisfies and a limit no smaller than the table, the whole table is kept. */
  lemma TopOfWholeTable<T(!new)>(m: map<nat, T>, p: T -> bool, le: (T, T) -> bool, n: nat)
    requires TotalPreorder(le) && (forall x :: p(x)) && |m| <= n
    ensures forall x :: multiset(TopOfTable(m, p, le, n))[x] == Occurrences(m, x)
  {
    KeysWhereAll(m, p);
  }
}
