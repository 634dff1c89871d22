/**
 * The order in which borrowMutAll takes the cells' monitors: the cells are
 * sorted by a per-cell integer key (the identity hash, which may tie), and the
 * monitors are entered one inside the other in that order before the body runs.
 */
module LockOrder {

  predicate Distinct<X(==)>(s: seq<X>) {
    forall i, j :: 0 <= i < j < |s| ==> s[i] != s[j]
  }

  /** Non-decreasing by key. */
  predicate SortedByKey<X>(s: seq<X>, key: X -> int) {
    forall i, j :: 0 <= i < j < |s| ==> key(s[i]) <= key(s[j])
  }

  /** A lower bound on the keys of u and of x bounds the keys of any t holding u plus x. */
  lemma {:induction false} KeyBoundOfPermutation<X>(t: seq<X>, u: seq<X>, x: X, key: X -> int, lo: int)
    requires multiset(t) == multiset(u) + multiset{x}
    requires lo <= key(x) && forall j :: 0 <= j < |u| ==> lo <= key(u[j])
    ensures forall j :: 0 <= j < |t| ==> lo <= key(t[j])
  {
    forall j | 0 <= j < |t|
      ensures lo <= key(t[j])
    {
      assert t[j] in multiset(t);
      if t[j] != x {
        assert t[j] in multiset(u);
        var m :| 0 <= m < |u| && u[m] == t[j];
      }
    }
  }

  /** A head whose key bounds a sorted tail from below keeps the sequence sorted. */
  lemma ConsSorted<X>(h: X, t: seq<X>, key: X -> int)
    requires SortedByKey(t, key)
    requires forall j :: 0 <= j < |t| ==> key(h) <= key(t[j])
    ensures SortedByKey([h] + t, key)
  {
    var r := [h] + t;
    forall i, j | 0 <= i < j < |r|
      ensures key(r[i]) <= key(r[j])
    {
      assert r[j] == t[j - 1];
      if i > 0 {
        assert r[i] == t[i - 1];
      }
    }
  }

  /** Puts x into a sorted sequence, before the first element whose key is not smaller. */
  function InsertByKey<X>(x: X, s: seq<X>, key: X -> int): (r: seq<X>)
    requires SortedByKey(s, key)
    ensures SortedByKey(r, key)
    ensures multiset(r) == multiset(s) + multiset{x}
  {
    if s == [] || key(x) <= key(s[0]) then [x] + s
    else
      var rest := InsertByKey(x, s[1..], key);
      assert s == [s[0]] + s[1..];
      assert multiset(s) == multiset{s[0]} + multiset(s[1..]);
      KeyBoundOfPermutation(rest, s[1..], x, key, key(s[0]));
      ConsSorted(s[0], rest, key);
      [s[0]] + rest
  }

  /**
   * The sort applied to the copy of the caller's array: the result is a
   * permutation of the input, non-decreasing by key.
   */
  function SortByKey<X>(s: seq<X>, key: X -> int): (r: seq<X>)
    ensures SortedByKey(r, key)
    ensures multiset(r) == multiset(s)
    ensures |r| == |s|
  {
    if s == [] then []
    else
      assert s == [s[0]] + s[1..];
      InsertByKey(s[0], SortByKey(s[1..], key), key)
  }

  /** Each element of a sequence without repetitions occurs exactly once. */
  lemma {:induction false} DistinctOccursOnce<X>(s: seq<X>, x: X)
    requires Distinct(s) && x in s
    ensures multiset(s)[x] == 1
  {
    assert s == [s[0]] + s[1..];
    if s[0] == x {
      assert x !in s[1..];
    } else {
      DistinctOccursOnce(s[1..], x);
    }
  }

  datatype LockEvent<X> = Enter(lock: X) | RunBody | Exit(lock: X)

  /**
   * What synchronizeRecursively does from index on: enter the monitor of
   * locks[index], recurse on index + 1, leave the monitor; past the last
   * index, run the body. The index strictly increases, so the recursion ends
   * after one level per remaining lock, with the body in the middle.
   */
  function SynchronizeRecursively<X>(locks: seq<X>, index: nat): (t: seq<LockEvent<X>>)
    ensures |t| == 2 * (if index <= |locks| then |locks| - index else 0) + 1
    ensures t[|t| / 2] == RunBody
    decreases |locks| - index
  {
    if index >= |locks| then [RunBody]
    else
      var inner := SynchronizeRecursively(locks, index + 1);
      assert ([Enter(locks[index])] + inner + [Exit(locks[index])])[|inner| / 2 + 1] == inner[|inner| / 2];
      [Enter(locks[index])] + inner + [Exit(locks[index])]
  }

  /**
   * synchronizeAll: the locks are entered in index order, the body runs once
   * after all of them, and the locks are left in reverse order.
   */
  function SynchronizeAll<X>(locks: seq<X>): (t: seq<LockEvent<X>>)
    ensures |t| == 2 * |locks| + 1
    ensures t[|locks|] == RunBody
    ensures forall k :: 0 <= k < |t| && k != |locks| ==> !t[k].RunBody?
    ensures forall k :: 0 <= k < |locks| ==> t[k] == Enter(locks[k])
    ensures forall k :: |locks| < k < |t| ==> t[k] == Exit(locks[2 * |locks| - k])
  {
    SynchronizeRecursivelyShape(locks, 0);
    SynchronizeRecursively(locks, 0)
  }

  /**
   * From index on, the trace enters locks[index..] in ascending index order,
   * runs the body exactly once, after the last one, and leaves the monitors
   * in reverse order.
   */
  lemma {:induction false} SynchronizeRecursivelyShape<X>(locks: seq<X>, index: nat)
    requires index <= |locks|
    ensures var t, m := SynchronizeRecursively(locks, index), |locks| - index;
            && |t| == 2 * m + 1
            && t[m] == RunBody
            && (forall k :: 0 <= k < |t| && k != m ==> !t[k].RunBody?)
            && (forall k :: 0 <= k < m ==> t[k] == Enter(locks[index + k]))
            && (forall k :: m < k < |t| ==> t[k] == Exit(locks[|locks| + m - k]))
    decreases |locks| - index
  {
    if index < |locks| {
      SynchronizeRecursivelyShape(locks, index + 1);
      var inner := SynchronizeRecursively(locks, index + 1);
      var t := [Enter(locks[index])] + inner + [Exit(locks[index])];
      var m := |locks| - index;
      assert |inner| == 2 * (m - 1) + 1;
      forall k | 1 <= k < |t| - 1
        ensures t[k] == inner[k - 1]
      {
      }
      forall k | 0 <= k < m
        ensures t[k] == Enter(locks[index + k])
      {
        if k > 0 {
          assert t[k] == inner[k - 1];
        }
      }
      forall k | m < k < |t|
        ensures t[k] == Exit(locks[|locks| + m - k])
      {
        if k < |t| - 1 {
          assert t[k] == inner[k - 1];
        }
      }
    }
  }

  /**
   * The lock trace over the sorted copy of distinct cells: every cell's monitor
   * is entered exactly once, in non-decreasing key order, all of them before
   * the body runs, which happens once.
   */
  lemma LockTraceOfSortedCells<X>(cells: seq<X>, key: X -> int)
    requires Distinct(cells)
    ensures var order, n := SortByKey(cells, key), |cells|;
            var t := SynchronizeAll(order);
            && |t| == 2 * n + 1
            && t[n] == RunBody
            && (forall k :: 0 <= k < |t| && k != n ==> !t[k].RunBody?)
            && (forall k :: 0 <= k < n ==> t[k] == Enter(order[k]))
            && (forall k :: n < k < |t| ==> t[k] == Exit(order[2 * n - k]))
            && (forall i, j :: 0 <= i < j < n ==> key(t[i].lock) <= key(t[j].lock))
            && (forall x :: x in cells ==> multiset(order)[x] == 1)
  {
    var order := SortByKey(cells, key);
    forall x | x in cells
      ensures multiset(order)[x] == 1
    {
      DistinctOccursOnce(cells, x);
    }
  }

  /** No two different elements of s share a key. */
  predicate KeyInjectiveOn<X(==)>(s: seq<X>, key: X -> int) {
    forall i, j :: 0 <= i < |s| && 0 <= j < |s| && key(s[i]) == key(s[j]) ==> s[i] == s[j]
  }

  /** Two sorted arrangements of one multiset under a tie-free key start alike. */
  lemma SortedHeadsAgree<X>(a: seq<X>, b: seq<X>, key: X -> int)
    requires a != [] && b != []
    requires SortedByKey(a, key) && SortedByKey(b, key)
    requires multiset(a) == multiset(b)
    requires KeyInjectiveOn(a, key)
    ensures a[0] == b[0]
  {
    assert a[0] in multiset(b);
    var j :| 0 <= j < |b| && b[j] == a[0];
    assert b[0] in multiset(a);
    var i :| 0 <= i < |a| && a[i] == b[0];
    assert key(b[0]) <= key(b[j]) && key(a[0]) <= key(a[i]);
  }

  /** Removing the same head from two sequences with equal multisets leaves equal multisets. */
  lemma TailsShareMultiset<X>(a: seq<X>, b: seq<X>)
    requires a != [] && b != [] && a[0] == b[0]
    requires multiset(a) == multiset(b)
    ensures multiset(a[1..]) == multiset(b[1..])
  {
    assert a == [a[0]] + a[1..] && b == [b[0]] + b[1..];
    assert multiset(a[1..]) == multiset(a) - multiset{a[0]};
    assert multiset(b[1..]) == multiset(b) - multiset{b[0]};
  }

  /** Under a key without ties, there is only one sorted arrangement of a multiset. */
  lemma {:induction false} SortedArrangementUnique<X>(a: seq<X>, b: seq<X>, key: X -> int)
    requires SortedByKey(a, key) && SortedByKey(b, key)
    requires multiset(a) == multiset(b)
    requires KeyInjectiveOn(a, key)
    ensures a == b
  {
    if a != [] {
      assert |b| == |multiset(b)| == |multiset(a)| == |a|;
      SortedHeadsAgree(a, b, key);
      TailsShareMultiset(a, b);
      SortedArrangementUnique(a[1..], b[1..], key);
      assert a == [a[0]] + a[1..] && b == [b[0]] + b[1..];
    }
  }

  /**
   * When the key has no ties among the cells, the lock order depends only on
   * which cells are passed, not on the order the caller passes them in.
   */
  lemma SortByKeyIgnoresArgumentOrder<X>(s1: seq<X>, s2: seq<X>, key: X -> int)
    requires multiset(s1) == multiset(s2)
    requires KeyInjectiveOn(s1, key)
    ensures SortByKey(s1, key) == SortByKey(s2, key)
  {
    var r1, r2 := SortByKey(s1, key), SortByKey(s2, key);
    forall i, j | 0 <= i < |r1| && 0 <= j < |r1| && key(r1[i]) == key(r1[j])
      ensures r1[i] == r1[j]
    {
      assert r1[i] in multiset(s1) && r1[j] in multiset(s1);
      var i' :| 0 <= i' < |s1| && s1[i'] == r1[i];
      var j' :| 0 <= j' < |s1| && s1[j'] == r1[j];
    }
    SortedArrangementUnique(r1, r2, key);
  }

  /**
   * With tied keys the sort keeps argument order, so two calls that pass the
   * same two tied cells in opposite orders take their monitors in opposite
   * orders.
   */
  lemma TiedKeysKeepArgumentOrder<X>(a: X, b: X, key: X -> int)
    requires key(a) == key(b)
    ensures SortByKey([a, b], key) == [a, b]
    ensures SortByKey([b, a], key) == [b, a]
  {
    assert [a, b][1..] == [b] && [b, a][1..] == [a];
    assert SortByKey([b], key) == InsertByKey(b, SortByKey([], key), key) == [b];
    assert SortByKey([a], key) == InsertByKey(a, SortByKey([], key), key) == [a];
  }

  /** The elements of s whose key is v, in their order in s. */
  function KeyFilter<X>(s: seq<X>, key: X -> int, v: int): (r: seq<X>)
    ensures |r| <= |s|
  {
    if s == [] then []
    else (if key(s[0]) == v then [s[0]] else []) + KeyFilter(s[1..], key, v)
  }

  /** The filter of a sequence with head h keeps h exactly when its key is v. */
  lemma FilterOfCons<X>(h: X, t: seq<X>, key: X -> int, v: int)
    ensures KeyFilter([h] + t, key, v) == (if key(h) == v then [h] else []) + KeyFilter(t, key, v)
  {
    assert ([h] + t)[1..] == t;
  }

  /** Inserting x puts it in front of the elements that share its key. */
  lemma {:induction false} InsertFilter<X>(x: X, s: seq<X>, key: X -> int, v: int)
    requires SortedByKey(s, key)
    ensures KeyFilter(InsertByKey(x, s, key), key, v) ==
            (if key(x) == v then [x] else []) + KeyFilter(s, key, v)
  {
    if s == [] || key(x) <= key(s[0]) {
      FilterOfCons(x, s, key, v);
    } else {
      var rest := InsertByKey(x, s[1..], key);
      assert InsertByKey(x, s, key) == [s[0]] + rest;
      FilterOfCons(s[0], rest, key, v);
      InsertFilter(x, s[1..], key, v);
      FilterOfCons(s[0], s[1..], key, v);
      assert s == [s[0]] + s[1..];
      // s[0] and x have different keys, so at most one of them is kept.
      var head := if key(s[0]) == v then [s[0]] else [];
      var mid := if key(x) == v then [x] else [];
      assert head == [] || mid == [];
      assert head + (mid + KeyFilter(s[1..], key, v)) == mid + (head + KeyFilter(s[1..], key, v));
    }
  }

  /**
   * The sort is stable: for every key value, the elements with that key come
   * out in the order they went in, as under List.sort.
   */
  lemma {:induction false} SortByKeyStable<X>(s: seq<X>, key: X -> int, v: int)
    ensures KeyFilter(SortByKey(s, key), key, v) == KeyFilter(s, key, v)
  {
    if s != [] {
      SortByKeyStable(s[1..], key, v);
      InsertFilter(s[0], SortByKey(s[1..], key), key, v);
    }
  }
}
