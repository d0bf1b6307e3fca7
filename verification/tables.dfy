/**
 * A database table: rows keyed by their primary key, plus the next value of
 * the auto-increment sequence.  Aggregates over a table (SQL SUM and COUNT)
 * are folds over the rows in key order.
 */
module Tables {
  import opened Wrappers

  datatype Table<T> = Table(rows: map<nat, T>, next: nat) {

    /** Every stored key was handed out by the sequence. */
    ghost predicate Valid() {
      forall k :: k in rows ==> k < next
    }

    /** INSERT: the row gets the next key and the sequence advances. */
    function Insert(x: T): (t: Table<T>)
      ensures t.rows == rows[next := x] && t.next == next + 1
      ensures Valid() ==> t.Valid() && next !in rows
    {
      Table(rows[next := x], next + 1)
    }

    /** UPDATE of an existing row; the key set is unchanged. */
    function Put(k: nat, x: T): (t: Table<T>)
      requires k in rows
      ensures t.rows.Keys == rows.Keys && t.rows[k] == x && t.next == next
      ensures forall j :: j in rows && j != k ==> t.rows[j] == rows[j]
      ensures Valid() ==> t.Valid()
    {
      Table(rows[k := x], next)
    }

    /** DELETE of a row; a missing key deletes nothing. */
    function Delete(k: nat): (t: Table<T>)
      ensures t.rows.Keys == rows.Keys - {k} && t.next == next
      ensures forall j :: j in t.rows ==> t.rows[j] == rows[j]
      ensures Valid() ==> t.Valid()
    {
      Table(rows - {k}, next)
    }
  }

  function Empty<T>(): (t: Table<T>)
    ensures t.Valid() && t.rows == map[]
  {
    Table(map[], 0)
  }

  /** Every row's own id field equals its key. */
  ghost predicate KeyedBy<T>(t: Table<T>, idOf: T -> nat) {
    t.Valid() && forall k :: k in t.rows ==> idOf(t.rows[k]) == k
  }

  /** k is the least element of s. */
  predicate IsLeast(k: nat, s: set<nat>) {
    k in s && forall j :: j in s ==> k <= j
  }

  lemma {:induction false} MinExists(s: set<nat>)
    requires s != {}
    ensures exists k :: IsLeast(k, s)
    decreases s
  {
    var x :| x in s;
    var rest := s - {x};
    if rest == {} {
      assert s == {x};
      assert IsLeast(x, s);
    } else {
      MinExists(rest);
      var m :| IsLeast(m, rest);
      var least := if x < m then x else m;
      forall j | j in s ensures least <= j {
        if j != x { assert j in rest; }
      }
      assert IsLeast(least, s);
    }
  }

  /** The least key of a non-empty key set. */
  function MinKey(s: set<nat>): (k: nat)
    requires s != {}
    ensures k in s && forall j :: j in s ==> k <= j
  {
    MinExists(s);
    var k :| IsLeast(k, s); k
  }

  /** SELECT ... LIMIT 1: the row with the least key among those satisfying p. */
  function FindKey<T>(m: map<nat, T>, p: T -> bool): (r: Option<nat>)
    ensures r.Some? ==> r.value in m && p(m[r.value])
    ensures r.Some? ==> forall j :: j in m && p(m[j]) ==> r.value <= j
    ensures r.None? <==> forall j :: j in m ==> !p(m[j])
  {
    var ks := set k | k in m && p(m[k]);
    assert forall j :: j in m && p(m[j]) ==> j in ks;
    if ks == {} then None else Some(MinKey(ks))
  }

  /** SQL SUM(f(row)) over the rows, folded in key order. */
  function SumMap<T>(m: map<nat, T>, f: T -> int): int
    decreases |m|
  {
    if |m| == 0 then 0
    else
      var k := MinKey(m.Keys);
      assert |(m - {k}).Keys| < |m.Keys| by {
        assert (m - {k}).Keys == m.Keys - {k};
      }
      f(m[k]) + SumMap(m - {k}, f)
  }

  /** Any one row can be taken out of the sum first. */
  lemma {:induction false} SumMapSplit<T>(m: map<nat, T>, k: nat, f: T -> int)
    requires k in m
    ensures SumMap(m, f) == f(m[k]) + SumMap(m - {k}, f)
    decreases |m|
  {
    var j := MinKey(m.Keys);
    assert |(m - {j}).Keys| < |m.Keys| by {
      assert (m - {j}).Keys == m.Keys - {j};
    }
    if j != k {
      assert k in m - {j};
      assert |(m - {k}).Keys| < |m.Keys| by {
        assert (m - {k}).Keys == m.Keys - {k};
      }
      SumMapSplit(m - {j}, k, f);
      SumMapSplit(m - {k}, j, f);
      assert (m - {j}) - {k} == (m - {k}) - {j};
    }
  }

  /** Writing row k (new or existing) changes the sum by the difference of its terms. */
  lemma SumMapPut<T>(m: map<nat, T>, k: nat, x: T, f: T -> int)
    ensures SumMap(m[k := x], f) == SumMap(m, f) - (if k in m then f(m[k]) else 0) + f(x)
  {
    SumMapSplit(m[k := x], k, f);
    assert m[k := x] - {k} == m - {k};
    if k in m {
      SumMapSplit(m, k, f);
    } else {
      assert m - {k} == m;
    }
  }

  /** Deleting row k removes its term from the sum. */
  lemma SumMapDelete<T>(m: map<nat, T>, k: nat, f: T -> int)
    ensures SumMap(m - {k}, f) == SumMap(m, f) - (if k in m then f(m[k]) else 0)
  {
    if k in m {
      SumMapSplit(m, k, f);
    } else {
      assert m - {k} == m;
    }
  }

  /** A sum of zero terms is zero. */
  lemma {:induction false} SumMapZero<T>(m: map<nat, T>, f: T -> int)
    requires forall k :: k in m ==> f(m[k]) == 0
    ensures SumMap(m, f) == 0
    decreases |m|
  {
    if |m| != 0 {
      var k := MinKey(m.Keys);
      assert |(m - {k}).Keys| < |m.Keys| by {
        assert (m - {k}).Keys == m.Keys - {k};
      }
      SumMapZero(m - {k}, f);
    }
  }

  /** A sum of non-negative terms is non-negative. */
  lemma {:induction false} SumMapNonNegative<T>(m: map<nat, T>, f: T -> int)
    requires forall k :: k in m ==> f(m[k]) >= 0
    ensures SumMap(m, f) >= 0
    decreases |m|
  {
    if |m| != 0 {
      var k := MinKey(m.Keys);
      assert |(m - {k}).Keys| < |m.Keys| by {
        assert (m - {k}).Keys == m.Keys - {k};
      }
      SumMapNonNegative(m - {k}, f);
    }
  }

  /** The rows of a table, in key order: what a scan of the table returns. */
  function Rows<T(!new)>(m: map<nat, T>): (r: seq<T>)
    ensures |r| == |m|
    ensures forall x :: x in r <==> exists k :: k in m && m[k] == x
    decreases |m|
  {
    if |m| == 0 then []
    else
      var k := MinKey(m.Keys);
      assert (m - {k}).Keys == m.Keys - {k};
      var rest := Rows(m - {k});
      assert forall j :: j in m ==> j == k || j in m - {k};
      [m[k]] + rest
  }

  /** The keys under which the table holds exactly x. */
  ghost function KeysHolding<T>(m: map<nat, T>, x: T): (ks: set<nat>)
    ensures forall k :: k in ks <==> k in m && m[k] == x
  {
    set k | k in m && m[k] == x
  }

  /** How many rows of the table hold exactly x. */
  ghost function Occurrences<T>(m: map<nat, T>, x: T): nat {
    |KeysHolding(m, x)|
  }

  /** A scan returns each row once for every key that holds it. */
  lemma {:induction false} RowsMultiset<T(!new)>(m: map<nat, T>, x: T)
    ensures multiset(Rows(m))[x] == Occurrences(m, x)
    decreases |m|
  {
    if |m| == 0 {
      assert KeysHolding(m, x) == {};
    } else {
      var k := MinKey(m.Keys);
      RowsMultiset(m - {k}, x);
      RowsFirst(m, x);
      OccurrencesFirst(m, x);
    }
  }

  /** The first row of a scan is the row under the least key. */
  lemma RowsFirst<T(!new)>(m: map<nat, T>, x: T)
    requires |m| != 0
    ensures var k := MinKey(m.Keys);
      multiset(Rows(m))[x] == (if m[k] == x then 1 else 0) + multiset(Rows(m - {k}))[x]
  {
    var k := MinKey(m.Keys);
    assert Rows(m) == [m[k]] + Rows(m - {k});
  }

  /** Removing the least key removes one holder of x exactly when it held x. */
  lemma OccurrencesFirst<T>(m: map<nat, T>, x: T)
    requires |m| != 0
    ensures var k := MinKey(m.Keys);
      Occurrences(m, x) == (if m[k] == x then 1 else 0) + Occurrences(m - {k}, x)
  {
    var k := MinKey(m.Keys);
    if m[k] == x {
      assert KeysHolding(m, x) == KeysHolding(m - {k}, x) + {k};
    } else {
      assert KeysHolding(m, x) == KeysHolding(m - {k}, x);
    }
  }

  /** The keys whose rows satisfy p: what `where(p).count` counts. */
  ghost function KeysWhere<T>(m: map<nat, T>, p: T -> bool): (ks: set<nat>)
    ensures forall k :: k in ks <==> k in m && p(m[k])
  {
    set k | k in m && p(m[k])
  }

  /** A condition every row satisfies matches every key. */
  lemma KeysWhereAll<T>(m: map<nat, T>, p: T -> bool)
    requires forall x :: p(x)
    ensures KeysWhere(m, p) == m.Keys
  {
  }

  /** Removing the least key removes one matching key exactly when its row matches. */
  lemma KeysWhereFirst<T>(m: map<nat, T>, p: T -> bool)
    requires |m| != 0
    ensures var k := MinKey(m.Keys);
      |KeysWhere(m, p)| == (if p(m[k]) then 1 else 0) + |KeysWhere(m - {k}, p)|
  {
    var k := MinKey(m.Keys);
    if p(m[k]) {
      assert KeysWhere(m, p) == KeysWhere(m - {k}, p) + {k};
    } else {
      assert KeysWhere(m, p) == KeysWhere(m - {k}, p);
    }
  }

  /** In a table whose rows carry their own key, no row is held twice. */
  lemma KeyedRowOccursOnce<T>(t: Table<T>, idOf: T -> nat, x: T)
    requires KeyedBy(t, idOf)
    ensures Occurrences(t.rows, x) <= 1
  {
    if idOf(x) in KeysHolding(t.rows, x) {
      assert KeysHolding(t.rows, x) == {idOf(x)};
    } else {
      assert KeysHolding(t.rows, x) == {};
    }
  }
}
