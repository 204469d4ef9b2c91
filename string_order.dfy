/**
 * The default order of `Array.prototype.sort` on strings, which `sort-keys`
 * uses: code unit by code unit of the UTF-16 encoding, a proper prefix
 * first. A character above U+FFFF therefore sorts by its high surrogate,
 * below U+E000 to U+FFFF.
 */
module StringOrder {
  import opened Seqs
  import opened Utf16

  /** `u < w` on code unit sequences: at the first difference, or a proper prefix first. */
  predicate UnitsLess(u: seq<int>, w: seq<int>)
    decreases |u|
  {
    if u == [] then w != []
    else if w == [] then false
    else if u[0] != w[0] then u[0] < w[0]
    else UnitsLess(u[1..], w[1..])
  }

  /** `a < b` in the default string order. */
  predicate Less(a: string, b: string) {
    UnitsLess(CodeUnits(a), CodeUnits(b))
  }

  lemma {:induction false} UnitsLessIrreflexive(u: seq<int>)
    ensures !UnitsLess(u, u)
    decreases |u|
  {
    if u != [] {
      UnitsLessIrreflexive(u[1..]);
    }
  }

  lemma {:induction false} UnitsLessTransitive(u: seq<int>, v: seq<int>, w: seq<int>)
    requires UnitsLess(u, v) && UnitsLess(v, w)
    ensures UnitsLess(u, w)
    decreases |u|
  {
    if u != [] && v != [] && w != [] && u[0] == v[0] && v[0] == w[0] {
      UnitsLessTransitive(u[1..], v[1..], w[1..]);
    }
  }

  lemma {:induction false} UnitsLessTotal(u: seq<int>, w: seq<int>)
    requires u != w
    ensures UnitsLess(u, w) || UnitsLess(w, u)
    decreases |u|
  {
    if u != [] && w != [] && u[0] == w[0] {
      assert u == [u[0]] + u[1..] && w == [w[0]] + w[1..];
      UnitsLessTotal(u[1..], w[1..]);
    }
  }

  lemma LessIrreflexive(a: string)
    ensures !Less(a, a)
  {
    UnitsLessIrreflexive(CodeUnits(a));
  }

  lemma LessTransitive(a: string, b: string, c: string)
    requires Less(a, b) && Less(b, c)
    ensures Less(a, c)
  {
    UnitsLessTransitive(CodeUnits(a), CodeUnits(b), CodeUnits(c));
  }

  /** Two different strings have different encodings, so one comes first. */
  lemma LessTotal(a: string, b: string)
    requires a != b
    ensures Less(a, b) || Less(b, a)
  {
    if CodeUnits(a) == CodeUnits(b) {
      CodeUnitsInjective(a, b);
    }
    UnitsLessTotal(CodeUnits(a), CodeUnits(b));
  }

  /**
   * U+1F600 sorts before U+FF61, although its scalar value is larger: its
   * high surrogate 0xD83D is below 0xFF61.
   */
  lemma AstralSortsBySurrogate()
    ensures Less("\U{1F600}", "\U{FF61}") && !Less("\U{FF61}", "\U{1F600}")
  {
    CodeUnitsCons('\U{1F600}', "");
    CodeUnitsCons('\U{FF61}', "");
    assert "\U{1F600}" == ['\U{1F600}'] + "" && "\U{FF61}" == ['\U{FF61}'] + "";
  }

  /** Strictly increasing, hence without duplicates. */
  predicate StrictlySorted(s: seq<string>) {
    forall i, j :: 0 <= i < j < |s| ==> Less(s[i], s[j])
  }

  /** Every element of `s` comes after `b`. */
  predicate Above(s: seq<string>, b: string) {
    forall i :: 0 <= i < |s| ==> Less(b, s[i])
  }

  /** Puts `x` in front of the first element that is not below it. */
  function InsertString(x: string, t: seq<string>): (r: seq<string>)
    ensures |r| == |t| + 1
    ensures multiset(r) == multiset(t) + multiset{x}
  {
    if t == [] || !Less(t[0], x) then [x] + t
    else
      assert t == [t[0]] + t[1..];
      [t[0]] + InsertString(x, t[1..])
  }

  lemma {:induction false} InsertAbove(x: string, t: seq<string>, b: string)
    requires Above(t, b) && Less(b, x)
    ensures Above(InsertString(x, t), b)
  {
    if t != [] && Less(t[0], x) {
      InsertAbove(x, t[1..], b);
      var r := InsertString(x, t);
      assert forall i :: 1 <= i < |r| ==> r[i] == InsertString(x, t[1..])[i - 1];
    }
  }

  lemma StrictCons(y: string, s: seq<string>)
    requires StrictlySorted(s) && Above(s, y)
    ensures StrictlySorted([y] + s)
  {
    var r := [y] + s;
    forall i, j | 0 <= i < j < |r| ensures Less(r[i], r[j]) {
      assert r[j] == s[j - 1];
      if i > 0 {
        assert r[i] == s[i - 1];
      }
    }
  }

  lemma {:induction false} InsertStrict(x: string, t: seq<string>)
    requires StrictlySorted(t) && x !in t
    ensures StrictlySorted(InsertString(x, t))
  {
    if t == [] {
    } else if !Less(t[0], x) {
      assert t[0] != x;
      LessTotal(x, t[0]);
      forall i | 0 <= i < |t| ensures Less(x, t[i]) {
        if i > 0 {
          LessTransitive(x, t[0], t[i]);
        }
      }
      StrictCons(x, t);
    } else {
      InsertStrict(x, t[1..]);
      InsertAbove(x, t[1..], t[0]);
      StrictCons(t[0], InsertString(x, t[1..]));
    }
  }

  /** `keys.sort()` on strings that are all different (the keys of an object). */
  function SortStrings(s: seq<string>): (r: seq<string>)
    requires NoDuplicates(s)
    ensures |r| == |s|
    ensures multiset(r) == multiset(s)
    ensures StrictlySorted(r)
  {
    if s == [] then []
    else
      assert s == [s[0]] + s[1..];
      var t := SortStrings(s[1..]);
      assert s[0] !in t by {
        assert s[0] !in multiset(s[1..]);
      }
      InsertStrict(s[0], t);
      InsertString(s[0], t)
  }
}
