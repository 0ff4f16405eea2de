/**
 * The query-builder side of the store: a table is a map from primary key to row, a `select ...
 * where ...` scans it in ascending key order and keeps the matching rows (projected onto the
 * selected columns), and `orderBy(column, direction)` sorts a result under an abstract collation.
 */
module Query {
  import opened Common
  import opened Text

  /** The set of primary keys of a query result. */
  function KeysOf<T(==)>(r: seq<Keyed<T>>): set<int> {
    set e | e in r :: e.id
  }

  /** The keys of a query result, in result order. */
  function Ids<T>(r: seq<Keyed<T>>): (ids: seq<int>)
    ensures |ids| == |r|
    ensures forall i :: 0 <= i < |r| ==> ids[i] == r[i].id
  {
    seq(|r|, i requires 0 <= i < |r| => r[i].id)
  }

  /** A key is listed by Ids exactly when it is among the result's keys. */
  lemma IdsKeys<T>(r: seq<Keyed<T>>)
    ensures forall k :: k in Ids(r) <==> k in KeysOf(r)
  {
    forall k | k in KeysOf(r) ensures k in Ids(r) {
      var e :| e in r && e.id == k;
      var i :| 0 <= i < |r| && r[i] == e;
      assert Ids(r)[i] == k;
    }
  }

  /** Each row of the result appears once, in ascending key order. */
  predicate Ascending<T>(r: seq<Keyed<T>>) {
    forall i, j :: 0 <= i < j < |r| ==> r[i].id < r[j].id
  }

  /** A set that is not empty has an element. */
  lemma EmptyOrInhabited(s: set<int>)
    ensures s == {} || exists m :: m in s
  {
    if forall y :: y !in s {
      assert s == {};
    }
  }

  /** A finite non-empty set of keys has a least element. */
  lemma {:induction false} MinExists(s: set<int>)
    requires s != {}
    ensures exists m :: m in s && forall k :: k in s ==> m <= k
    decreases |s|
  {
    EmptyOrInhabited(s);
    var x :| x in s;
    var rest := s - {x};
    var least := x;
    if rest != {} {
      MinExists(rest);
      var m :| m in rest && forall k :: k in rest ==> m <= k;
      if m < x { least := m; }
    }
    assert forall k :: k in rest ==> least <= k;
    forall k | k in s ensures least <= k {
      if k != x { assert k in rest; }
    }
    assert least in s;
  }

  /** A key below every key of an increasing sequence can be put in front of it. */
  lemma PrependKey(m: int, rest: seq<int>)
    requires forall k :: k in rest ==> m < k
    requires forall i, j :: 0 <= i < j < |rest| ==> rest[i] < rest[j]
    ensures forall i, j :: 0 <= i < j < |[m] + rest| ==> ([m] + rest)[i] < ([m] + rest)[j]
  {
    var r := [m] + rest;
    forall i, j | 0 <= i < j < |r| ensures r[i] < r[j] {
      assert r[j] == rest[j - 1];
      if i > 0 {
        assert r[i] == rest[i - 1];
      } else {
        assert rest[j - 1] in rest;
      }
    }
  }

  /** A row whose key is below every key of an ascending result can be put in front of it. */
  lemma PrependRow<T>(e: Keyed<T>, rest: seq<Keyed<T>>)
    requires forall d :: d in rest ==> e.id < d.id
    requires Ascending(rest)
    ensures Ascending([e] + rest)
  {
    var r := [e] + rest;
    forall i, j | 0 <= i < j < |r| ensures r[i].id < r[j].id {
      assert r[j] == rest[j - 1];
      if i > 0 {
        assert r[i] == rest[i - 1];
      } else {
        assert rest[j - 1] in rest;
      }
    }
  }

  /** The keys of a table in ascending order: the scan order of the model. */
  function SortedKeys(s: set<int>): (r: seq<int>)
    ensures forall k :: k in r <==> k in s
    ensures forall i, j :: 0 <= i < j < |r| ==> r[i] < r[j]
    decreases |s|
  {
    if s == {} then []
    else
      MinExists(s);
      var m :| m in s && forall k :: k in s ==> m <= k;
      var rest := SortedKeys(s - {m});
      PrependKey(m, rest);
      [m] + rest
  }

  /** Scan `ks` (keys of m, ascending) and keep the rows satisfying p, projected by f. */
  function SelectFrom<T, U(==)>(m: map<int, T>, ks: seq<int>, p: T -> bool, f: T -> U): (r: seq<Keyed<U>>)
    requires forall k :: k in ks ==> k in m
    requires forall i, j :: 0 <= i < j < |ks| ==> ks[i] < ks[j]
    ensures forall e :: e in r ==> e.id in ks && p(m[e.id]) && e.row == f(m[e.id])
    ensures forall k :: k in ks && p(m[k]) ==> k in KeysOf(r)
    ensures Ascending(r)
  {
    if ks == [] then []
    else
      var rest := SelectFrom(m, ks[1..], p, f);
      assert forall e :: e in rest ==> ks[0] < e.id by {
        forall e | e in rest ensures ks[0] < e.id {
          var j :| 0 <= j < |ks[1..]| && ks[1..][j] == e.id;
          assert ks[j + 1] == e.id;
        }
      }
      var head := Keyed(ks[0], f(m[ks[0]]));
      PrependRow(head, rest);
      if p(m[ks[0]]) then [head] + rest else rest
  }

  /**
   * `select f(columns) from m where p`: exactly the rows of m that satisfy p, each once, in
   * ascending key order, each projected by f.
   */
  function Select<T, U(==)>(m: map<int, T>, p: T -> bool, f: T -> U): (r: seq<Keyed<U>>)
    ensures KeysOf(r) == set k | k in m && p(m[k])
    ensures forall e :: e in r ==> e.id in m && e.row == f(m[e.id])
    ensures Ascending(r)
  {
    SelectFrom(m, SortedKeys(m.Keys), p, f)
  }

  /**
   * `select f(columns) from m where id = k and p` followed by `.first()`: the row with key k
   * projected by f if it exists and satisfies p, nothing otherwise.
   */
  function Lookup<T, U>(m: map<int, T>, k: int, p: T -> bool, f: T -> U): (r: Option<Keyed<U>>)
    ensures r.Some? <==> k in m && p(m[k])
    ensures r.Some? ==> r.value.id == k && r.value.row == f(m[k])
  {
    if k in m && p(m[k]) then Some(Keyed(k, f(m[k]))) else None
  }

  /** The same scan under two projections returns the same rows in the same order. */
  lemma {:induction false} SelectFromProject<T, U, V>(m: map<int, T>, ks: seq<int>, p: T -> bool, f: T -> U, g: T -> V)
    requires forall k :: k in ks ==> k in m
    requires forall i, j :: 0 <= i < j < |ks| ==> ks[i] < ks[j]
    ensures |SelectFrom(m, ks, p, f)| == |SelectFrom(m, ks, p, g)|
    ensures forall i :: 0 <= i < |SelectFrom(m, ks, p, f)| ==>
      SelectFrom(m, ks, p, f)[i].id == SelectFrom(m, ks, p, g)[i].id
  {
    if ks != [] {
      SelectFromProject(m, ks[1..], p, f, g);
      var a, b := SelectFrom(m, ks[1..], p, f), SelectFrom(m, ks[1..], p, g);
      if p(m[ks[0]]) {
        assert SelectFrom(m, ks, p, f) == [Keyed(ks[0], f(m[ks[0]]))] + a;
        assert SelectFrom(m, ks, p, g) == [Keyed(ks[0], g(m[ks[0]]))] + b;
      } else {
        assert SelectFrom(m, ks, p, f) == a;
        assert SelectFrom(m, ks, p, g) == b;
      }
    }
  }

  /**
   * Two selections with the same filter and different column lists return the same keys in the
   * same order; each row is the projection of the stored row.
   */
  lemma SelectProject<T, U, V>(m: map<int, T>, p: T -> bool, f: T -> U, g: T -> V)
    ensures |Select(m, p, f)| == |Select(m, p, g)|
    ensures forall i :: 0 <= i < |Select(m, p, f)| ==>
      Select(m, p, f)[i].id == Select(m, p, g)[i].id
  {
    SelectFromProject(m, SortedKeys(m.Keys), p, f, g);
  }

  /** A result whose keys are distinct has as many rows as keys. */
  lemma {:induction false} AscendingCount<T>(r: seq<Keyed<T>>)
    requires Ascending(r)
    ensures |KeysOf(r)| == |r|
  {
    if r != [] {
      var rest := r[1..];
      AscendingCount(rest);
      assert KeysOf(r) == {r[0].id} + KeysOf(rest);
      assert r[0].id !in KeysOf(rest);
    }
  }

  /** Drop the keys of a result: a query that selects no key column. */
  function Values<T>(r: seq<Keyed<T>>): (v: seq<T>)
    ensures |v| == |r|
    ensures forall i :: 0 <= i < |r| ==> v[i] == r[i].row
  {
    seq(|r|, i requires 0 <= i < |r| => r[i].row)
  }

  /** Every value of a selection is the projection of a matching row. */
  lemma ValuesSound<T, U>(m: map<int, T>, p: T -> bool, f: T -> U, u: U)
    requires u in Values(Select(m, p, f))
    ensures exists k :: k in m && p(m[k]) && u == f(m[k])
  {
    var r := Select(m, p, f);
    var v := Values(r);
    var i :| 0 <= i < |v| && v[i] == u;
    var e := r[i];
    assert e in r;
    assert e.id in KeysOf(r);
    assert p(m[e.id]) && u == f(m[e.id]);
  }

  /** The projection of every matching row is a value of the selection. */
  lemma ValuesComplete<T, U>(m: map<int, T>, p: T -> bool, f: T -> U, k: int)
    requires k in m && p(m[k])
    ensures f(m[k]) in Values(Select(m, p, f))
  {
    var r := Select(m, p, f);
    var v := Values(r);
    assert k in KeysOf(r);
    var e :| e in r && e.id == k;
    var i :| 0 <= i < |r| && r[i] == e;
    assert v[i] == f(m[k]);
  }

  /** The values of a selection are the projections of exactly the matching rows. */
  lemma ValuesExact<T, U>(m: map<int, T>, p: T -> bool, f: T -> U)
    ensures forall u :: u in Values(Select(m, p, f)) <==> exists k :: k in m && p(m[k]) && u == f(m[k])
  {
    forall u | u in Values(Select(m, p, f)) ensures exists k :: k in m && p(m[k]) && u == f(m[k]) {
      ValuesSound(m, p, f, u);
    }
    forall k | k in m && p(m[k]) ensures f(m[k]) in Values(Select(m, p, f)) {
      ValuesComplete(m, p, f, k);
    }
  }

  /**
   * r lists f of the rows of m whose keys are `keys`, in the order ks gives: ks is increasing,
   * holds exactly those keys, and the i-th entry of r is the projection of row ks[i].
   */
  ghost predicate ListsRows<T, U>(r: seq<U>, m: map<int, T>, keys: set<int>, f: T -> U, ks: seq<int>) {
    && |ks| == |r|
    && (forall i, j :: 0 <= i < j < |ks| ==> ks[i] < ks[j])
    && (forall k :: k in ks <==> k in keys)
    && (forall i :: 0 <= i < |ks| ==> ks[i] in m && r[i] == f(m[ks[i]]))
  }

  /**
   * r lists f of the rows of m whose keys are `keys`, one entry per row, in ascending key order:
   * the shape of `select <columns> from m where ...` when no key column is selected.
   */
  ghost predicate OnePerRow<T, U>(r: seq<U>, m: map<int, T>, keys: set<int>, f: T -> U) {
    exists ks: seq<int> :: ListsRows(r, m, keys, f, ks)
  }

  /** Strictly increasing keys are distinct, so there are as many of them as entries. */
  lemma {:induction false} IncreasingCount(ks: seq<int>)
    requires forall i, j :: 0 <= i < j < |ks| ==> ks[i] < ks[j]
    ensures |set k | k in ks| == |ks|
  {
    if ks != [] {
      var rest := ks[1..];
      IncreasingCount(rest);
      assert (set k | k in ks) == {ks[0]} + (set k | k in rest);
      assert ks[0] !in rest;
    }
  }

  /** The keys of a selection, in result order, witness that its values hold one entry per row. */
  lemma ValuesListRows<T, U>(m: map<int, T>, p: T -> bool, f: T -> U, keys: set<int>)
    requires forall k :: k in keys <==> k in m && p(m[k])
    ensures ListsRows(Values(Select(m, p, f)), m, keys, f, Ids(Select(m, p, f)))
  {
    var r := Select(m, p, f);
    var ks, v := Ids(r), Values(r);
    IdsKeys(r);
    assert forall k :: k in ks <==> k in keys;
    forall i | 0 <= i < |ks| ensures ks[i] in m && v[i] == f(m[ks[i]]) {
      assert r[i] in r;
    }
    forall i, j | 0 <= i < j < |ks| ensures ks[i] < ks[j] {
    }
  }

  /** A result with one entry per row has as many entries as keys, each the projection of one of them. */
  lemma OnePerRowEntries<T, U>(r: seq<U>, m: map<int, T>, keys: set<int>, f: T -> U)
    requires OnePerRow(r, m, keys, f)
    ensures |r| == |keys|
    ensures forall i :: 0 <= i < |r| ==> exists x :: x in keys && x in m && r[i] == f(m[x])
  {
    var ks: seq<int> :| ListsRows(r, m, keys, f, ks);
    IncreasingCount(ks);
    assert forall x :: x in ks <==> x in keys;
    assert (set x | x in ks) == keys;
    forall i | 0 <= i < |r| ensures exists x :: x in keys && x in m && r[i] == f(m[x]) {
      assert ks[i] in ks;
    }
  }

  /**
   * The values of a selection hold one entry per matching row, so there are as many of them as
   * matching rows.
   */
  lemma ValuesOnePerRow<T, U>(m: map<int, T>, p: T -> bool, f: T -> U, keys: set<int>)
    requires forall k :: k in keys <==> k in m && p(m[k])
    ensures OnePerRow(Values(Select(m, p, f)), m, keys, f)
    ensures |Values(Select(m, p, f))| == |keys|
  {
    ValuesListRows(m, p, f, keys);
    OnePerRowEntries(Values(Select(m, p, f)), m, keys, f);
  }

  /** A result of two entries that are both t is [t, t]. */
  lemma PairOf<U>(r: seq<U>, t: U)
    requires |r| == 2 && forall u :: u in r ==> u == t
    ensures r == [t, t]
  {
    assert r[0] in r && r[1] in r;
  }

  /** A sort key: a number or timestamp, a text value or SQL NULL. */
  datatype SortKey = Num(n: int) | Text(s: string) | Null

  datatype Direction = Asc | Desc

  /**
   * The ascending collation: numbers and timestamps by value, text lexicographically, and NULL
   * after every value (PostgreSQL's default for ascending order). A column never mixes numbers
   * and text.
   */
  predicate KeyLe(a: SortKey, b: SortKey) {
    match (a, b)
    case (_, Null) => true
    case (Null, _) => false
    case (Num(x), Num(y)) => x <= y
    case (Num(_), Text(_)) => true
    case (Text(_), Num(_)) => false
    case (Text(x), Text(y)) => TextLe(x, y)
  }

  predicate Precedes(a: SortKey, b: SortKey, dir: Direction) {
    if dir == Asc then KeyLe(a, b) else KeyLe(b, a)
  }

  lemma PrecedesTotal(a: SortKey, b: SortKey, dir: Direction)
    ensures Precedes(a, b, dir) || Precedes(b, a, dir)
  {
    if a.Text? && b.Text? {
      TextLeTotal(a.s, b.s);
    }
  }

  lemma PrecedesTransitive(a: SortKey, b: SortKey, c: SortKey, dir: Direction)
    requires Precedes(a, b, dir) && Precedes(b, c, dir)
    ensures Precedes(a, c, dir)
  {
    if a.Text? && b.Text? && c.Text? {
      if dir == Asc {
        TextLeTransitive(a.s, b.s, c.s);
      } else {
        TextLeTransitive(c.s, b.s, a.s);
      }
    }
  }

  /** `s` is ordered by `key` in direction `dir`. */
  predicate SortedBy<T>(s: seq<T>, key: T -> SortKey, dir: Direction) {
    forall i, j :: 0 <= i < j < |s| ==> Precedes(key(s[i]), key(s[j]), dir)
  }

  function InsertSorted<T(==)>(x: T, s: seq<T>, key: T -> SortKey, dir: Direction): (r: seq<T>)
    requires SortedBy(s, key, dir)
    ensures SortedBy(r, key, dir)
    ensures multiset(r) == multiset(s) + multiset{x}
  {
    if s == [] then [x]
    else if Precedes(key(x), key(s[0]), dir) then
      assert forall j :: 0 <= j < |s| ==> Precedes(key(x), key(s[j]), dir) by {
        forall j | 0 <= j < |s| ensures Precedes(key(x), key(s[j]), dir) {
          if j > 0 { PrecedesTransitive(key(x), key(s[0]), key(s[j]), dir); }
        }
      }
      [x] + s
    else
      PrecedesTotal(key(x), key(s[0]), dir);
      var rest := InsertSorted(x, s[1..], key, dir);
      assert s == [s[0]] + s[1..];
      assert forall y :: y in rest ==> y == x || y in s[1..] by {
        forall y | y in rest ensures y == x || y in s[1..] {
          assert y in multiset(rest);
        }
      }
      var r := [s[0]] + rest;
      assert forall j :: 0 < j < |r| ==> Precedes(key(s[0]), key(r[j]), dir) by {
        forall j | 0 < j < |r| ensures Precedes(key(s[0]), key(r[j]), dir) {
          assert r[j] in rest;
          if r[j] != x {
            var k :| 0 <= k < |s[1..]| && s[1..][k] == r[j];
            assert s[k + 1] == r[j];
          }
        }
      }
      r
  }

  /** `orderBy`: a permutation of `s` ordered by `key` in direction `dir` (insertion sort). */
  function SortByKey<T(==)>(s: seq<T>, key: T -> SortKey, dir: Direction): (r: seq<T>)
    ensures SortedBy(r, key, dir)
    ensures multiset(r) == multiset(s)
  {
    if s == [] then []
    else
      assert s == [s[0]] + s[1..];
      InsertSorted(s[0], SortByKey(s[1..], key, dir), key, dir)
  }

  /** In a result whose rows are read from m, an entry is present exactly when its key is and its row is m's. */
  lemma RowsByKey<T>(s: seq<Keyed<T>>, m: map<int, T>, e: Keyed<T>)
    requires forall d :: d in s ==> d.id in m && d.row == m[d.id]
    ensures e in s <==> e.id in KeysOf(s) && e.id in m && e.row == m[e.id]
  {
    if e.id in KeysOf(s) && e.id in m && e.row == m[e.id] {
      var d :| d in s && d.id == e.id;
      assert d == e;
    }
  }

  /** Two results that are permutations of each other return the same keys and rows. */
  lemma SameKeys<T>(a: seq<Keyed<T>>, b: seq<Keyed<T>>)
    requires multiset(a) == multiset(b)
    ensures forall e :: e in a <==> e in b
    ensures KeysOf(a) == KeysOf(b)
  {
    assert forall e :: e in a <==> e in multiset(a);
    assert forall e :: e in b <==> e in multiset(b);
  }

  /**
   * `select * from m where p order by key dir`: exactly the rows of m that satisfy p, each once,
   * ordered by key in direction dir.
   */
  function SelectSorted<T(==)>(m: map<int, T>, p: T -> bool, key: Keyed<T> -> SortKey, dir: Direction): (r: seq<Keyed<T>>)
    ensures KeysOf(r) == set k | k in m && p(m[k])
    ensures forall e :: e in r ==> e.id in m && e.row == m[e.id]
    ensures |r| == |KeysOf(r)|
    ensures SortedBy(r, key, dir)
  {
    var rows := Select(m, p, (t: T) => t);
    var r := SortByKey(rows, key, dir);
    SameKeys(r, rows);
    AscendingCount(rows);
    assert |r| == |multiset(r)| == |multiset(rows)| == |rows|;
    assert KeysOf(r) == KeysOf(rows);
    r
  }
}
