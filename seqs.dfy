/**
 * Generic operations on sequences that the application performs through the
 * JavaScript standard library: `Array.prototype.filter`, the stable
 * `Array.prototype.sort` with a descending numeric comparator, `slice(0, k)`,
 * and `Map` (a dictionary that remembers the order in which keys were first
 * inserted), represented as a list of key/value pairs.
 */
module Seqs {
  import opened Wrappers

  // ---------------------------------------------------------------------------
  // filter
  // ---------------------------------------------------------------------------

  function Filter<T>(s: seq<T>, p: T -> bool): (r: seq<T>)
    ensures |r| <= |s|
    ensures forall i :: 0 <= i < |r| ==> p(r[i])
  {
    if s == [] then []
    else if p(s[0]) then [s[0]] + Filter(s[1..], p)
    else Filter(s[1..], p)
  }

  /** Every element `filter` keeps comes from the input. */
  lemma {:induction false} FilterFrom<T>(s: seq<T>, p: T -> bool)
    ensures forall i :: 0 <= i < |Filter(s, p)| ==> Filter(s, p)[i] in s
  {
    if s != [] {
      FilterFrom(s[1..], p);
    }
  }

  /** `filter` keeps exactly the elements that pass the test. */
  lemma {:induction false} FilterMembers<T>(s: seq<T>, p: T -> bool)
    ensures forall x :: x in Filter(s, p) <==> x in s && p(x)
  {
    if s != [] {
      FilterMembers(s[1..], p);
      assert s == [s[0]] + s[1..];
    }
  }

  lemma {:induction false} FilterConcat<T>(a: seq<T>, b: seq<T>, p: T -> bool)
    ensures Filter(a + b, p) == Filter(a, p) + Filter(b, p)
  {
    if a == [] {
      assert a + b == b;
    } else {
      assert (a + b)[0] == a[0];
      assert (a + b)[1..] == a[1..] + b;
      FilterConcat(a[1..], b, p);
    }
  }

  lemma {:induction false} FilterNone<T>(s: seq<T>, p: T -> bool)
    requires forall i :: 0 <= i < |s| ==> !p(s[i])
    ensures Filter(s, p) == []
  {
    if s != [] {
      FilterNone(s[1..], p);
    }
  }

  lemma {:induction false} FilterAll<T>(s: seq<T>, p: T -> bool)
    requires forall i :: 0 <= i < |s| ==> p(s[i])
    ensures Filter(s, p) == s
  {
    if s != [] {
      FilterAll(s[1..], p);
    }
  }

  /** Filtering by two predicates that agree on every element gives the same result. */
  lemma {:induction false} FilterSame<T>(s: seq<T>, p: T -> bool, q: T -> bool)
    requires forall i :: 0 <= i < |s| ==> p(s[i]) == q(s[i])
    ensures Filter(s, p) == Filter(s, q)
  {
    if s != [] {
      FilterSame(s[1..], p, q);
    }
  }

  // ---------------------------------------------------------------------------
  // Replacing every maximal run: `s.replace(/x+/g, rep)`
  // ---------------------------------------------------------------------------

  /** No two neighbouring elements both satisfy `p`. */
  predicate NoAdjacent<T>(s: seq<T>, p: T -> bool) {
    forall i :: 0 <= i < |s| - 1 ==> !(p(s[i]) && p(s[i + 1]))
  }

  lemma NoAdjacentSlice<T>(s: seq<T>, p: T -> bool, i: nat, j: nat)
    requires NoAdjacent(s, p) && i <= j <= |s|
    ensures NoAdjacent(s[i..j], p)
  {
    forall k | 0 <= k < j - i - 1 ensures !(p(s[i..j][k]) && p(s[i..j][k + 1])) {
      assert s[i..j][k] == s[i + k] && s[i..j][k + 1] == s[i + k + 1];
    }
  }

  /** What is left after the leading run of elements satisfying `p`. */
  function DropWhile<T>(s: seq<T>, p: T -> bool): (r: seq<T>)
    ensures |r| <= |s| && r == s[|s| - |r|..]
    ensures r == [] || !p(r[0])
    ensures forall i :: 0 <= i < |s| - |r| ==> p(s[i])
  {
    if s != [] && p(s[0]) then DropWhile(s[1..], p) else s
  }

  /** What is left after the trailing run of elements satisfying `p`. */
  function DropLastWhile<T>(s: seq<T>, p: T -> bool): (r: seq<T>)
    ensures |r| <= |s| && r == s[..|r|]
    ensures r == [] || !p(r[|r| - 1])
    ensures forall i :: |r| <= i < |s| ==> p(s[i])
  {
    if s != [] && p(s[|s| - 1]) then DropLastWhile(s[..|s| - 1], p) else s
  }

  /** Each maximal run of elements satisfying `p` becomes the single element `rep`. */
  function CollapseRuns<T>(s: seq<T>, p: T -> bool, rep: T): (r: seq<T>)
    ensures |r| <= |s|
    ensures (r == []) == (s == [])
    ensures s != [] && p(s[0]) ==> r[0] == rep
    ensures s != [] && !p(s[0]) ==> r[0] == s[0]
    ensures forall i :: 0 <= i < |r| ==> r[i] == rep || !p(r[i])
    ensures p(rep) ==> NoAdjacent(r, p)
    decreases |s|
  {
    if s == [] then []
    else if p(s[0]) then [rep] + CollapseRuns(DropWhile(s[1..], p), p, rep)
    else [s[0]] + CollapseRuns(s[1..], p, rep)
  }

  /** A property shared by `rep` and every element survives the replacement. */
  lemma {:induction false} CollapseRunsPreserves<T>(s: seq<T>, p: T -> bool, rep: T, q: T -> bool)
    requires q(rep)
    requires forall i :: 0 <= i < |s| ==> q(s[i])
    ensures forall i :: 0 <= i < |CollapseRuns(s, p, rep)| ==> q(CollapseRuns(s, p, rep)[i])
    decreases |s|
  {
    if s != [] {
      if p(s[0]) {
        var d := DropWhile(s[1..], p);
        assert forall i :: 0 <= i < |d| ==> d[i] == s[1..][|s[1..]| - |d| + i];
        CollapseRunsPreserves(d, p, rep, q);
      } else {
        CollapseRunsPreserves(s[1..], p, rep, q);
      }
    }
  }

  /** With no element satisfying `p`, nothing is replaced. */
  lemma {:induction false} CollapseRunsNone<T>(s: seq<T>, p: T -> bool, rep: T)
    requires forall i :: 0 <= i < |s| ==> !p(s[i])
    ensures CollapseRuns(s, p, rep) == s
  {
    if s != [] {
      CollapseRunsNone(s[1..], p, rep);
    }
  }

  /** A prefix with no element satisfying `p` is copied as it is. */
  lemma {:induction false} CollapseRunsPrefix<T>(a: seq<T>, t: seq<T>, p: T -> bool, rep: T)
    requires forall i :: 0 <= i < |a| ==> !p(a[i])
    ensures CollapseRuns(a + t, p, rep) == a + CollapseRuns(t, p, rep)
  {
    if a == [] {
      assert a + t == t;
    } else {
      assert (a + t)[1..] == a[1..] + t;
      CollapseRunsPrefix(a[1..], t, p, rep);
    }
  }

  /** A run of elements satisfying `p` is skipped up to the first that does not. */
  lemma {:induction false} DropWhileRun<T>(a: seq<T>, t: seq<T>, p: T -> bool)
    requires forall i :: 0 <= i < |a| ==> p(a[i])
    requires t == [] || !p(t[0])
    ensures DropWhile(a + t, p) == t
  {
    if a == [] {
      assert a + t == t;
    } else {
      assert (a + t)[1..] == a[1..] + t;
      DropWhileRun(a[1..], t, p);
    }
  }

  /** A whole run of elements satisfying `p` becomes one `rep`. */
  lemma CollapseRunsRun<T>(run: seq<T>, t: seq<T>, p: T -> bool, rep: T)
    requires run != [] && forall i :: 0 <= i < |run| ==> p(run[i])
    requires t == [] || !p(t[0])
    ensures CollapseRuns(run + t, p, rep) == [rep] + CollapseRuns(t, p, rep)
  {
    assert (run + t)[1..] == run[1..] + t;
    DropWhileRun(run[1..], t, p);
  }

  /** Runs of length one that already are `rep` stay as they are. */
  lemma {:induction false} CollapseRunsSingle<T>(s: seq<T>, p: T -> bool, rep: T)
    requires forall i :: 0 <= i < |s| ==> p(s[i]) ==> s[i] == rep
    requires NoAdjacent(s, p)
    ensures CollapseRuns(s, p, rep) == s
  {
    if s != [] {
      if p(s[0]) {
        assert DropWhile(s[1..], p) == s[1..] by {
          if |s| > 1 { assert !p(s[1]); }
        }
      }
      assert NoAdjacent(s[1..], p) by {
        forall i | 0 <= i < |s[1..]| - 1 ensures !(p(s[1..][i]) && p(s[1..][i + 1])) {
          assert s[1..][i] == s[i + 1] && s[1..][i + 1] == s[i + 2];
        }
      }
      CollapseRunsSingle(s[1..], p, rep);
    }
  }

  // ---------------------------------------------------------------------------
  // Stable sort by a numeric key, largest first: `sort((a, b) => key(b) - key(a))`
  // ---------------------------------------------------------------------------

  predicate SortedDesc<T>(xs: seq<T>, key: T -> real) {
    forall i, j :: 0 <= i < j < |xs| ==> key(xs[i]) >= key(xs[j])
  }

  /** The elements whose key is `v`. */
  function KeyIs<T>(key: T -> real, v: real): T -> bool {
    x => key(x) == v
  }

  /** Places `x` in front of the first element whose key is not larger than its own. */
  function Insert<T>(x: T, ys: seq<T>, key: T -> real): (r: seq<T>)
    ensures |r| == |ys| + 1
  {
    if ys == [] || key(x) >= key(ys[0]) then [x] + ys
    else [ys[0]] + Insert(x, ys[1..], key)
  }

  /** A stable sort by non-increasing key (insertion sort). */
  function SortDesc<T>(xs: seq<T>, key: T -> real): (r: seq<T>)
    ensures |r| == |xs|
  {
    if xs == [] then [] else Insert(xs[0], SortDesc(xs[1..], key), key)
  }

  lemma {:induction false} InsertPerm<T>(x: T, ys: seq<T>, key: T -> real)
    ensures multiset(Insert(x, ys, key)) == multiset(ys) + multiset{x}
  {
    if !(ys == [] || key(x) >= key(ys[0])) {
      InsertPerm(x, ys[1..], key);
      assert ys == [ys[0]] + ys[1..];
    }
  }

  lemma {:induction false} InsertSorted<T>(x: T, ys: seq<T>, key: T -> real)
    requires SortedDesc(ys, key)
    ensures SortedDesc(Insert(x, ys, key), key)
  {
    if !(ys == [] || key(x) >= key(ys[0])) {
      var rest := Insert(x, ys[1..], key);
      InsertSorted(x, ys[1..], key);
      InsertPerm(x, ys[1..], key);
      forall k | 0 <= k < |rest| ensures key(ys[0]) >= key(rest[k]) {
        assert rest[k] in multiset(rest);
        if rest[k] != x {
          assert rest[k] in multiset(ys[1..]);
          var m :| 0 <= m < |ys[1..]| && ys[1..][m] == rest[k];
          assert ys[1 + m] == rest[k];
        }
      }
    }
  }

  lemma {:induction false} InsertFilter<T>(x: T, ys: seq<T>, key: T -> real, v: real)
    ensures Filter(Insert(x, ys, key), KeyIs(key, v)) ==
      if key(x) == v then [x] + Filter(ys, KeyIs(key, v)) else Filter(ys, KeyIs(key, v))
  {
    if ys == [] || key(x) >= key(ys[0]) {
      assert ([x] + ys)[1..] == ys;
    } else {
      InsertFilter(x, ys[1..], key, v);
      assert ([ys[0]] + Insert(x, ys[1..], key))[1..] == Insert(x, ys[1..], key);
    }
  }

  /** The sort orders by key, keeps every element, and keeps the order of elements with equal keys. */
  lemma {:induction false} SortDescCorrect<T>(xs: seq<T>, key: T -> real)
    ensures SortedDesc(SortDesc(xs, key), key)
    ensures multiset(SortDesc(xs, key)) == multiset(xs)
    ensures forall v :: Filter(SortDesc(xs, key), KeyIs(key, v)) == Filter(xs, KeyIs(key, v))
  {
    if xs != [] {
      SortDescCorrect(xs[1..], key);
      InsertSorted(xs[0], SortDesc(xs[1..], key), key);
      InsertPerm(xs[0], SortDesc(xs[1..], key), key);
      assert xs == [xs[0]] + xs[1..];
      forall v ensures Filter(SortDesc(xs, key), KeyIs(key, v)) == Filter(xs, KeyIs(key, v)) {
        InsertFilter(xs[0], SortDesc(xs[1..], key), key, v);
      }
    }
  }

  /** `slice(0, k)`. */
  function Take<T>(xs: seq<T>, k: nat): (r: seq<T>)
    ensures |r| <= k && |r| <= |xs|
    ensures r == xs[..|r|]
    ensures |xs| <= k ==> r == xs
  {
    if |xs| <= k then xs else xs[..k]
  }

  // ---------------------------------------------------------------------------
  // Map: keys in order of first insertion
  // ---------------------------------------------------------------------------

  /** The keys of a Map (or of a list of rows), in order. */
  function Keys<K, V>(t: seq<(K, V)>): (r: seq<K>)
    ensures |r| == |t|
    ensures forall i :: 0 <= i < |t| ==> r[i] == t[i].0
  {
    seq(|t|, i requires 0 <= i < |t| => t[i].0)
  }

  predicate Distinct<T(==)>(s: seq<T>) {
    forall i, j :: 0 <= i < j < |s| ==> s[i] != s[j]
  }

  predicate DistinctKeys<K(==), V>(t: seq<(K, V)>) {
    Distinct(Keys(t))
  }

  /** `map.get(k)`. */
  function Get<K(==), V>(t: seq<(K, V)>, k: K): Option<V> {
    if t == [] then None
    else if t[0].0 == k then Some(t[0].1)
    else Get(t[1..], k)
  }

  /** `get` finds an entry exactly for the keys the map holds. */
  lemma {:induction false} GetSome<K, V>(t: seq<(K, V)>, k: K)
    ensures Get(t, k).Some? <==> k in Keys(t)
  {
    if t != [] {
      assert Keys(t) == [t[0].0] + Keys(t[1..]);
      if t[0].0 != k {
        GetSome(t[1..], k);
      }
    }
  }

  /** In a map with distinct keys, each entry is what `get` finds for its key. */
  lemma {:induction false} GetAt<K, V>(t: seq<(K, V)>, i: nat)
    requires DistinctKeys(t) && i < |t|
    ensures Get(t, t[i].0) == Some(t[i].1)
  {
    if i > 0 {
      assert Keys(t)[0] != Keys(t)[i];
      assert DistinctKeys(t[1..]) by {
        forall a, b | 0 <= a < b < |t[1..]| ensures Keys(t[1..])[a] != Keys(t[1..])[b] {
          assert Keys(t)[a + 1] != Keys(t)[b + 1];
        }
      }
      GetAt(t[1..], i - 1);
    }
  }

  /** `map.set(k, v)`: a present key keeps its position and takes the new value, a new key goes last. */
  function Put<K(==), V>(t: seq<(K, V)>, k: K, v: V): seq<(K, V)>
  {
    if t == [] then [(k, v)]
    else if t[0].0 == k then [(k, v)] + t[1..]
    else [t[0]] + Put(t[1..], k, v)
  }

  /** `set` keeps the existing keys in place and appends a new key at the end. */
  lemma {:induction false} PutKeys<K, V>(t: seq<(K, V)>, k: K, v: V)
    ensures k in Keys(t) ==> Keys(Put(t, k, v)) == Keys(t)
    ensures k !in Keys(t) ==> Keys(Put(t, k, v)) == Keys(t) + [k]
  {
    if t == [] {
    } else if t[0].0 == k {
      PutKeysFirst(t, k, v);
      assert Keys(t)[0] == k;
    } else {
      PutKeys(t[1..], k, v);
      PutKeysRest(t, k, v);
    }
  }

  lemma PutKeysFirst<K, V>(t: seq<(K, V)>, k: K, v: V)
    requires t != [] && t[0].0 == k
    ensures Keys(Put(t, k, v)) == Keys(t)
  {
    var r := [(k, v)] + t[1..];
    assert Put(t, k, v) == r;
    forall i | 0 <= i < |t| ensures Keys(r)[i] == Keys(t)[i] {
    }
    assert Keys(r) == Keys(t);
  }

  lemma PutKeysRest<K, V>(t: seq<(K, V)>, k: K, v: V)
    requires t != [] && t[0].0 != k
    ensures Keys(t) == [t[0].0] + Keys(t[1..])
    ensures Keys(Put(t, k, v)) == [t[0].0] + Keys(Put(t[1..], k, v))
  {
    var tail := Put(t[1..], k, v);
    assert Put(t, k, v) == [t[0]] + tail;
    assert Keys([t[0]] + tail) == [t[0].0] + Keys(tail);
  }

  /** After `set(k, v)`, `get(k)` is `v` and every other key reads as before. */
  lemma {:induction false} PutGet<K, V>(t: seq<(K, V)>, k: K, v: V, k': K)
    ensures Get(Put(t, k, v), k') == if k' == k then Some(v) else Get(t, k')
  {
    if t != [] && t[0].0 != k {
      PutGet(t[1..], k, v, k');
      assert Put(t, k, v)[1..] == Put(t[1..], k, v);
    }
  }

  /** `set` never creates a second entry for a key. */
  lemma PutDistinct<K, V>(t: seq<(K, V)>, k: K, v: V)
    requires DistinctKeys(t)
    ensures DistinctKeys(Put(t, k, v))
  {
    PutKeys(t, k, v);
  }

  // ---------------------------------------------------------------------------
  // Accumulating counts and assignments into a Map
  // ---------------------------------------------------------------------------

  /** The sum of the counts of the rows with key `k`. */
  function SumFor<K(==)>(rows: seq<(K, int)>, k: K): int {
    if rows == [] then 0
    else SumFor(rows[..|rows| - 1], k) + (if rows[|rows| - 1].0 == k then rows[|rows| - 1].1 else 0)
  }

  /** `m.set(r.key, (m.get(r.key) ?? 0) + r.count)`: one row added into a Map of counts. */
  function Bump<K(==)>(t: seq<(K, int)>, row: (K, int)): seq<(K, int)> {
    Put(t, row.0, Get(t, row.0).GetOr(0) + row.1)
  }

  /** `for (const r of rows) m.set(r.key, (m.get(r.key) ?? 0) + r.count)` starting from an empty Map. */
  function Tally<K(==)>(rows: seq<(K, int)>): seq<(K, int)> {
    if rows == [] then []
    else Bump(Tally(rows[..|rows| - 1]), rows[|rows| - 1])
  }

  lemma KeysSnoc<K, V>(rows: seq<(K, V)>)
    requires rows != []
    ensures Keys(rows) == Keys(rows[..|rows| - 1]) + [rows[|rows| - 1].0]
  {
  }

  lemma KeysSnocMember<K, V>(rows: seq<(K, V)>, k: K)
    requires rows != []
    ensures k in Keys(rows) <==> k in Keys(rows[..|rows| - 1]) || k == rows[|rows| - 1].0
  {
    KeysSnoc(rows);
  }

  lemma SumForLast<K>(rows: seq<(K, int)>, k: K)
    requires rows != []
    ensures SumFor(rows, k) == SumFor(rows[..|rows| - 1], k) + (if rows[|rows| - 1].0 == k then rows[|rows| - 1].1 else 0)
  {
  }

  lemma {:induction false} SumForAbsent<K>(rows: seq<(K, int)>, k: K)
    requires k !in Keys(rows)
    ensures SumFor(rows, k) == 0
  {
    if rows != [] {
      KeysSnoc(rows);
      SumForAbsent(rows[..|rows| - 1], k);
    }
  }

  /** A tally has one entry per distinct key of the rows, in order of first occurrence... */
  lemma TallyKeys<K>(rows: seq<(K, int)>)
    ensures DistinctKeys(Tally(rows))
    ensures forall k :: k in Keys(Tally(rows)) <==> k in Keys(rows)
  {
    TallyDistinct(rows);
    TallyMembers(rows);
  }

  /** The distinct elements of `s`, each where it first occurs. */
  function FirstOccurrences<T(==)>(s: seq<T>): seq<T> {
    if s == [] then []
    else if s[|s| - 1] in s[..|s| - 1] then FirstOccurrences(s[..|s| - 1])
    else FirstOccurrences(s[..|s| - 1]) + [s[|s| - 1]]
  }

  /** ...and those keys come in the order in which they first occur in the rows. */
  lemma {:induction false} TallyOrder<K>(rows: seq<(K, int)>)
    ensures Keys(Tally(rows)) == FirstOccurrences(Keys(rows))
  {
    if rows == [] {
      assert Keys(rows) == [];
    } else {
      var init := rows[..|rows| - 1];
      TallyOrder(init);
      TallyKeysStep(rows);
      assert Keys(rows)[..|rows| - 1] == Keys(init) && Keys(rows)[|rows| - 1] == rows[|rows| - 1].0 by {
        KeysSnoc(rows);
      }
    }
  }

  /** One more row appends its key to the tally's keys unless it is already there. */
  lemma TallyKeysStep<K>(rows: seq<(K, int)>)
    requires rows != []
    ensures var init, k := rows[..|rows| - 1], rows[|rows| - 1].0;
      Keys(Tally(rows)) == if k in Keys(init) then Keys(Tally(init)) else Keys(Tally(init)) + [k]
  {
    var init, last := rows[..|rows| - 1], rows[|rows| - 1];
    var t := Tally(init);
    var v := Get(t, last.0).GetOr(0) + last.1;
    assert last.0 in Keys(t) <==> last.0 in Keys(init) by { TallyMembers(init); }
    assert Tally(rows) == Put(t, last.0, v);
    PutKeys(t, last.0, v);
  }

  lemma {:induction false} TallyDistinct<K>(rows: seq<(K, int)>)
    ensures DistinctKeys(Tally(rows))
  {
    if rows != [] {
      var init := rows[..|rows| - 1];
      var last := rows[|rows| - 1];
      var t := Tally(init);
      TallyDistinct(init);
      PutDistinct(t, last.0, Get(t, last.0).GetOr(0) + last.1);
      assert Tally(rows) == Bump(t, last);
    }
  }

  lemma {:induction false} TallyMembers<K>(rows: seq<(K, int)>)
    ensures forall k :: k in Keys(Tally(rows)) <==> k in Keys(rows)
  {
    if rows != [] {
      var init := rows[..|rows| - 1];
      var last := rows[|rows| - 1];
      var t := Tally(init);
      var v := Get(t, last.0).GetOr(0) + last.1;
      TallyMembers(init);
      KeysSnoc(rows);
      PutKeys(t, last.0, v);
      assert Tally(rows) == Bump(t, last);
      if last.0 in Keys(t) {
        assert Keys(Tally(rows)) == Keys(t);
      } else {
        assert Keys(Tally(rows)) == Keys(t) + [last.0];
      }
      forall k
        ensures k in Keys(Tally(rows)) <==> k in Keys(rows)
      {
        assert k in Keys(rows) <==> k in Keys(init) || k == last.0;
      }
    }
  }

  /** ...holding the sum of the counts of that key's rows. */
  lemma {:induction false} TallySums<K>(rows: seq<(K, int)>, k: K)
    ensures Get(Tally(rows), k) == if k in Keys(rows) then Some(SumFor(rows, k)) else None
  {
    if rows == [] {
      assert Keys(rows) == [];
    } else {
      var init, last := rows[..|rows| - 1], rows[|rows| - 1];
      TallySums(init, k);
      BumpGet(Tally(init), last, k);
      assert Tally(rows) == Bump(Tally(init), last);
      if k == last.0 {
        assert Get(Tally(init), k).GetOr(0) == SumFor(init, k) by {
          if k !in Keys(init) { SumForAbsent(init, k); }
        }
        assert SumFor(rows, k) == SumFor(init, k) + last.1;
        assert k in Keys(rows) by { KeysSnocMember(rows, k); }
        assert Get(Tally(rows), k) == Some(SumFor(rows, k));
      } else {
        assert SumFor(rows, k) == SumFor(init, k);
        assert k in Keys(rows) <==> k in Keys(init) by { KeysSnocMember(rows, k); }
      }
    }
  }

  /** Adding one row changes the entry of its own key only, by the row's count. */
  lemma BumpGet<K>(t: seq<(K, int)>, row: (K, int), k: K)
    ensures Get(Bump(t, row), row.0) == Some(Get(t, row.0).GetOr(0) + row.1)
    ensures k != row.0 ==> Get(Bump(t, row), k) == Get(t, k)
  {
    var v := Get(t, row.0).GetOr(0) + row.1;
    PutGet(t, row.0, v, row.0);
    PutGet(t, row.0, v, k);
  }

  /** `new Map(rows)`: a later row for a key replaces the value but not the position. */
  function Assign<K(==), V>(rows: seq<(K, V)>): seq<(K, V)> {
    if rows == [] then []
    else Put(Assign(rows[..|rows| - 1]), rows[|rows| - 1].0, rows[|rows| - 1].1)
  }

  /** The value of the last row for `k`. */
  function LastFor<K(==), V>(rows: seq<(K, V)>, k: K): Option<V> {
    if rows == [] then None
    else if rows[|rows| - 1].0 == k then Some(rows[|rows| - 1].1)
    else LastFor(rows[..|rows| - 1], k)
  }

  /** Building a Map from rows keeps each key of the rows once, holding its last value. */
  lemma {:induction false} AssignCorrect<K, V>(rows: seq<(K, V)>, k: K)
    ensures DistinctKeys(Assign(rows))
    ensures Get(Assign(rows), k) == LastFor(rows, k)
  {
    if rows != [] {
      var init := rows[..|rows| - 1];
      AssignCorrect(init, k);
      PutDistinct(Assign(init), rows[|rows| - 1].0, rows[|rows| - 1].1);
      PutGet(Assign(init), rows[|rows| - 1].0, rows[|rows| - 1].1, k);
    }
  }

  /** A key has a last value exactly when some row carries it. */
  lemma {:induction false} LastForSome<K, V>(rows: seq<(K, V)>, k: K)
    ensures LastFor(rows, k).Some? <==> k in Keys(rows)
  {
    if rows != [] {
      KeysSnoc(rows);
      LastForSome(rows[..|rows| - 1], k);
    }
  }
}
