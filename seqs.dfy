/** Sequence helpers for the insertion-ordered collections (JavaScript `Set`, `Map` keys, arrays). */
module Seqs {

  /** No element occurs twice: the shape of the keys of a JavaScript `Set` or `Map`. */
  predicate NoDuplicates<T(==, !new)>(s: seq<T>) {
    forall i, j :: 0 <= i < j < |s| ==> s[i] != s[j]
  }

  /** A sequence without duplicates has as many elements as the set of its elements. */
  lemma {:induction false} DistinctCardinality<T(!new)>(s: seq<T>)
    requires NoDuplicates(s)
    ensures |set x | x in s| == |s|
  {
    if s != [] {
      var rest := set x | x in s[1..];
      assert (set x | x in s) == rest + {s[0]};
      assert s[0] !in rest by {
        forall i | 0 <= i < |s[1..]| ensures s[1..][i] != s[0] {
          assert s[1..][i] == s[i + 1];
        }
      }
      assert NoDuplicates(s[1..]) by {
        forall i, j | 0 <= i < j < |s[1..]| ensures s[1..][i] != s[1..][j] {
          assert s[1..][i] == s[i + 1] && s[1..][j] == s[j + 1];
        }
      }
      DistinctCardinality(s[1..]);
    }
  }

  /** The set of the elements of `s` (`new Set(s)` without its order). */
  function Elements<T(!new)>(s: seq<T>): (r: set<T>)
    ensures forall x :: x in r <==> x in s
  {
    set x | x in s
  }

  lemma ElementsAppend<T(!new)>(s: seq<T>, x: T)
    ensures Elements(s + [x]) == Elements(s) + {x}
  {
    assert forall y :: y in s + [x] <==> y in s || y == x;
  }

  /** One more element of `s` extends the prefix taken so far. */
  lemma PrefixStep<T>(s: seq<T>, i: nat)
    requires i < |s|
    ensures s[..i + 1] == s[..i] + [s[i]]
    ensures s[..i + 1][..i] == s[..i] && s[..i + 1][i] == s[i]
  {
  }

  /** The prefix as long as the sequence is the sequence. */
  lemma PrefixWhole<T>(s: seq<T>)
    ensures s[..|s|] == s
  {
  }

  /** Position of the first occurrence of `x` in `s`. */
  function IndexOf<T(==, !new)>(s: seq<T>, x: T): (i: nat)
    requires x in s
    ensures i < |s| && s[i] == x
    ensures forall j :: 0 <= j < i ==> s[j] != x
  {
    if s[0] == x then 0 else 1 + IndexOf(s[1..], x)
  }

  /**
   * `s` with `x` taken out and the order of the rest kept: what `Set.delete`
   * and `Map.delete` do to the insertion order.
   */
  function RemoveValue<T(==, !new)>(s: seq<T>, x: T): (r: seq<T>)
    ensures forall y :: y in r <==> y in s && y != x
    ensures NoDuplicates(s) ==> NoDuplicates(r)
    ensures x !in s ==> r == s
    ensures NoDuplicates(s) && x in s ==> |r| == |s| - 1
  {
    if s == [] then []
    else if s[0] == x then RemoveValue(s[1..], x)
    else
      var t := RemoveValue(s[1..], x);
      if NoDuplicates(s) then ConsDistinct(s[0], t, s[1..]); [s[0]] + t else [s[0]] + t
  }

  /** `s` with every element of `xs` taken out, order kept. */
  function RemoveAll<T(==, !new)>(s: seq<T>, xs: set<T>): (r: seq<T>)
    ensures forall y :: y in r <==> y in s && y !in xs
    ensures NoDuplicates(s) ==> NoDuplicates(r)
    ensures |r| <= |s|
  {
    if s == [] then []
    else if s[0] in xs then RemoveAll(s[1..], xs)
    else
      var t := RemoveAll(s[1..], xs);
      if NoDuplicates(s) then ConsDistinct(s[0], t, s[1..]); [s[0]] + t else [s[0]] + t
  }

  /** Taking out elements none of which occurs keeps the sequence. */
  lemma {:induction false} RemoveAllNone<T(!new)>(s: seq<T>, xs: set<T>)
    requires forall y :: y in s ==> y !in xs
    ensures RemoveAll(s, xs) == s
  {
    if s != [] {
      RemoveAllNone(s[1..], xs);
    }
  }

  /** Taking out one more element after a batch is the same as taking out the larger batch. */
  lemma {:induction false} RemoveAllThenValue<T(!new)>(s: seq<T>, xs: set<T>, x: T)
    ensures RemoveValue(RemoveAll(s, xs), x) == RemoveAll(s, xs + {x})
  {
    if s != [] {
      RemoveAllThenValue(s[1..], xs, x);
    }
  }

  /** Putting in front an element that `t` cannot contain keeps `t` free of duplicates. */
  lemma ConsDistinct<T(!new)>(x: T, t: seq<T>, s: seq<T>)
    requires NoDuplicates([x] + s)
    requires NoDuplicates(t) && forall y :: y in t ==> y in s
    ensures NoDuplicates([x] + t)
  {
    assert x !in s by {
      forall i | 0 <= i < |s| ensures s[i] != x {
        assert ([x] + s)[0] == x && ([x] + s)[i + 1] == s[i];
      }
    }
  }

  /** Adds `x` at the end unless it is already there: `Set.add` on the insertion order. */
  function AddLast<T(==, !new)>(s: seq<T>, x: T): (r: seq<T>)
    ensures forall y :: y in r <==> y in s || y == x
    ensures NoDuplicates(s) ==> NoDuplicates(r)
    ensures x in s ==> r == s
  {
    if x in s then s else s + [x]
  }

  /** `[...new Set(s)]`: the elements of `s` in order of first occurrence, each once. */
  function Dedup<T(==, !new)>(s: seq<T>): (r: seq<T>)
    ensures NoDuplicates(r)
    ensures forall y :: y in r <==> y in s
    ensures |r| <= |s|
  {
    DedupInto([], s)
  }

  /** Adds each element of `s` in turn to the insertion-ordered set `acc`. */
  function DedupInto<T(==, !new)>(acc: seq<T>, s: seq<T>): (r: seq<T>)
    requires NoDuplicates(acc)
    ensures NoDuplicates(r)
    ensures forall y :: y in r <==> y in acc || y in s
    ensures |r| <= |acc| + |s|
    ensures acc <= r
    decreases |s|
  {
    if s == [] then acc else DedupInto(AddLast(acc, s[0]), s[1..])
  }

  /** A sequence that already has no duplicates is left as it is by `Dedup`. */
  lemma {:induction false} DedupOfDistinct<T(!new)>(s: seq<T>)
    requires NoDuplicates(s)
    ensures Dedup(s) == s
  {
    DedupIntoDistinct([], s);
  }

  lemma {:induction false} DedupIntoDistinct<T(!new)>(acc: seq<T>, s: seq<T>)
    requires NoDuplicates(acc + s)
    ensures NoDuplicates(acc) && DedupInto(acc, s) == acc + s
    decreases |s|
  {
    assert NoDuplicates(acc) by {
      forall i, j | 0 <= i < j < |acc| ensures acc[i] != acc[j] {
        assert (acc + s)[i] == acc[i] && (acc + s)[j] == acc[j];
      }
    }
    if s != [] {
      assert s[0] !in acc by {
        forall i | 0 <= i < |acc| ensures acc[i] != s[0] {
          assert (acc + s)[i] == acc[i] && (acc + s)[|acc|] == s[0];
        }
      }
      assert AddLast(acc, s[0]) == acc + [s[0]];
      assert acc + s == (acc + [s[0]]) + s[1..];
      DedupIntoDistinct(acc + [s[0]], s[1..]);
    }
  }

  /** The elements satisfying `keep`, in order (`Array.prototype.filter`). */
  function Filter<T(!new)>(s: seq<T>, keep: T -> bool): (r: seq<T>)
    ensures |r| <= |s|
    ensures forall y :: y in r <==> y in s && keep(y)
  {
    if s == [] then []
    else if keep(s[0]) then [s[0]] + Filter(s[1..], keep)
    else Filter(s[1..], keep)
  }

  /** Filtering distributes over concatenation. */
  lemma {:induction false} FilterAppend<T(!new)>(a: seq<T>, b: seq<T>, keep: T -> bool)
    ensures Filter(a + b, keep) == Filter(a, keep) + Filter(b, keep)
  {
    if a != [] {
      assert (a + b)[1..] == a[1..] + b;
      FilterAppend(a[1..], b, keep);
    } else {
      assert a + b == b;
    }
  }

  /** Filtering a sequence without duplicates keeps it without duplicates. */
  lemma {:induction false} FilterDistinct<T(!new)>(s: seq<T>, keep: T -> bool)
    requires NoDuplicates(s)
    ensures NoDuplicates(Filter(s, keep))
  {
    if s != [] {
      assert NoDuplicates(s[1..]) by {
        forall i, j | 0 <= i < j < |s[1..]| ensures s[1..][i] != s[1..][j] {
          assert s[1..][i] == s[i + 1] && s[1..][j] == s[j + 1];
        }
      }
      FilterDistinct(s[1..], keep);
      if keep(s[0]) {
        assert [s[0]] + s[1..] == s;
        ConsDistinct(s[0], Filter(s[1..], keep), s[1..]);
      }
    }
  }

  /** `s.map(f)`. */
  function Map<T, U>(s: seq<T>, f: T -> U): (r: seq<U>)
    ensures |r| == |s|
    ensures forall i :: 0 <= i < |s| ==> r[i] == f(s[i])
  {
    if s == [] then [] else [f(s[0])] + Map(s[1..], f)
  }

  /** Nothing is kept when no element satisfies `keep`. */
  lemma {:induction false} FilterNone<T(!new)>(s: seq<T>, keep: T -> bool)
    requires forall x :: x in s ==> !keep(x)
    ensures Filter(s, keep) == []
  {
    if s != [] {
      assert s[0] in s;
      FilterNone(s[1..], keep);
    }
  }

  /** Concatenation groups either way. */
  lemma AppendAssoc<T>(a: seq<T>, b: seq<T>, c: seq<T>)
    ensures a + b + c == a + (b + c)
  {
  }

  /** A slice is the two slices either side of a cut. */
  lemma SliceJoin<T>(s: seq<T>, a: nat, b: nat, c: nat)
    requires a <= b <= c <= |s|
    ensures s[a..c] == s[a..b] + s[b..c]
  {
  }

  /** A slice of a slice is a slice. */
  lemma SliceOfSlice<T>(s: seq<T>, lo: nat, hi: nat, i: nat, j: nat)
    requires lo <= hi <= |s| && i <= j <= hi - lo
    ensures s[lo..hi][i..j] == s[lo + i..lo + j]
  {
    forall k | 0 <= k < j - i ensures s[lo..hi][i..j][k] == s[lo + i..lo + j][k] {
      assert s[lo..hi][i..j][k] == s[lo..hi][i + k] == s[lo + i + k];
    }
  }

  /** Mapping distributes over concatenation. */
  lemma MapAppend<T, U>(a: seq<T>, b: seq<T>, f: T -> U)
    ensures Map(a + b, f) == Map(a, f) + Map(b, f)
  {
    assert forall i :: 0 <= i < |a + b| ==> Map(a + b, f)[i] == (Map(a, f) + Map(b, f))[i];
  }

  /** Number of elements satisfying `p`. */
  function Count<T(!new)>(s: seq<T>, p: T -> bool): (n: nat)
    ensures n <= |s|
    ensures n == |Filter(s, p)|
  {
    if s == [] then 0 else (if p(s[0]) then 1 else 0) + Count(s[1..], p)
  }

  /** The first `n` elements, or all of them when there are fewer. */
  function Take<T>(s: seq<T>, n: nat): (r: seq<T>)
    ensures |r| == if |s| < n then |s| else n
    ensures r <= s
  {
    if |s| <= n then s else s[..n]
  }
}
