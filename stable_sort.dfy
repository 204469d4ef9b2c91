/**
 * `Array.prototype.sort((a, b) => key(a) - key(b))`. Since ECMAScript 2019
 * the sort is stable, so it is modelled as an insertion sort, which is.
 */
module StableSort {
  import opened Seqs

  /** Keys never decrease along `s`. */
  predicate SortedBy<T>(s: seq<T>, key: T -> int) {
    forall i, j :: 0 <= i < j < |s| ==> key(s[i]) <= key(s[j])
  }

  /** Puts `x` in front of the first element whose key is not smaller than its own. */
  function Insert<T>(x: T, t: seq<T>, key: T -> int): (r: seq<T>)
    ensures |r| == |t| + 1
    ensures multiset(r) == multiset(t) + multiset{x}
  {
    if t == [] || key(x) <= key(t[0]) then [x] + t
    else
      var r := [t[0]] + Insert(x, t[1..], key);
      assert t == [t[0]] + t[1..];
      r
  }

  /** Every key in `s` is at least `b`. */
  predicate AtLeast<T>(s: seq<T>, key: T -> int, b: int) {
    forall i :: 0 <= i < |s| ==> b <= key(s[i])
  }

  lemma {:induction false} InsertAtLeast<T>(x: T, t: seq<T>, key: T -> int, b: int)
    requires AtLeast(t, key, b) && b <= key(x)
    ensures AtLeast(Insert(x, t, key), key, b)
  {
    if t != [] && key(x) > key(t[0]) {
      InsertAtLeast(x, t[1..], key, b);
      var r := Insert(x, t, key);
      assert r == [t[0]] + Insert(x, t[1..], key);
      assert forall i :: 1 <= i < |r| ==> r[i] == Insert(x, t[1..], key)[i - 1];
    }
  }

  /** A sequence is sorted when its head bounds its sorted tail. */
  lemma SortedCons<T>(y: T, s: seq<T>, key: T -> int)
    requires SortedBy(s, key) && AtLeast(s, key, key(y))
    ensures SortedBy([y] + s, key)
  {
    var r := [y] + s;
    forall i, j | 0 <= i < j < |r| ensures key(r[i]) <= key(r[j]) {
      assert r[j] == s[j - 1];
      if i > 0 {
        assert r[i] == s[i - 1];
      }
    }
  }

  /** Inserting into a sorted sequence keeps it sorted. */
  lemma {:induction false} InsertSorted<T>(x: T, t: seq<T>, key: T -> int)
    requires SortedBy(t, key)
    ensures SortedBy(Insert(x, t, key), key)
  {
    if t == [] || key(x) <= key(t[0]) {
      SortedCons(x, t, key);
    } else {
      var rest := Insert(x, t[1..], key);
      InsertSorted(x, t[1..], key);
      InsertAtLeast(x, t[1..], key, key(t[0]));
      SortedCons(t[0], rest, key);
    }
  }

  /** The sorted copy of `s`; the source sorts the array in place and then reads it. */
  function SortBy<T>(s: seq<T>, key: T -> int): (r: seq<T>)
    ensures |r| == |s|
    ensures multiset(r) == multiset(s)
    ensures SortedBy(r, key)
  {
    if s == [] then []
    else
      assert s == [s[0]] + s[1..];
      InsertSorted(s[0], SortBy(s[1..], key), key);
      Insert(s[0], SortBy(s[1..], key), key)
  }

  /** The elements of `s` whose key is `k`, in order. */
  function WithKey<T(!new)>(s: seq<T>, key: T -> int, k: int): seq<T> {
    Filter(s, x => key(x) == k)
  }

  /** Insertion adds `x` as the first element of its key class. */
  lemma {:induction false} InsertWithKey<T(!new)>(x: T, t: seq<T>, key: T -> int, k: int)
    ensures WithKey(Insert(x, t, key), key, k) == (if key(x) == k then [x] else []) + WithKey(t, key, k)
  {
    if t == [] || key(x) <= key(t[0]) {
      assert ([x] + t)[1..] == t;
    } else {
      InsertWithKey(x, t[1..], key, k);
      assert ([t[0]] + Insert(x, t[1..], key))[1..] == Insert(x, t[1..], key);
    }
  }

  /** Stability: elements with equal keys come out in the order they went in. */
  lemma {:induction false} SortByIsStable<T(!new)>(s: seq<T>, key: T -> int, k: int)
    ensures WithKey(SortBy(s, key), key, k) == WithKey(s, key, k)
  {
    if s != [] {
      SortByIsStable(s[1..], key, k);
      InsertWithKey(s[0], SortBy(s[1..], key), key, k);
    }
  }

  /** Index of the first element of `s` that has the least key. */
  function FirstMin<T>(s: seq<T>, key: T -> int): (i: nat)
    requires |s| > 0
    ensures i < |s|
    ensures forall j :: 0 <= j < |s| ==> key(s[i]) <= key(s[j])
    ensures forall j :: 0 <= j < i ==> key(s[i]) < key(s[j])
  {
    if |s| == 1 then 0
    else
      var j := 1 + FirstMin(s[1..], key);
      assert forall m :: 1 <= m < |s| ==> s[m] == s[1..][m - 1];
      if key(s[0]) <= key(s[j]) then 0 else j
  }

  /**
   * What `sort` followed by `shift` takes: the least-cost element, and among
   * equal costs the one that comes first.
   */
  lemma {:induction false} SortByHead<T>(s: seq<T>, key: T -> int)
    requires |s| > 0
    ensures SortBy(s, key)[0] == s[FirstMin(s, key)]
  {
    if |s| > 1 {
      SortByHead(s[1..], key);
    }
  }
}
