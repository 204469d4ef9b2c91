/**
 * JavaScript strings are sequences of UTF-16 code units, where the model's
 * strings are sequences of Unicode scalar values. This module gives each
 * string its UTF-16 encoding, so that `length`, `slice` and the default
 * string order can be taken over code units, as JavaScript takes them.
 */
module Utf16 {

  /** The number of code units a character takes: two (a surrogate pair) above U+FFFF. */
  function UnitCount(c: char): (n: nat)
    ensures n == 1 || n == 2
  {
    if (c as int) < 0x1_0000 then 1 else 2
  }

  /** A leading (high) surrogate. */
  predicate IsHighSurrogate(u: int) {
    0xD800 <= u < 0xDC00
  }

  /** The code units of one character: itself, or its high and then its low surrogate. */
  function Units(c: char): (u: seq<int>)
    ensures |u| == UnitCount(c)
    ensures IsHighSurrogate(u[0]) <==> UnitCount(c) == 2
  {
    var v := c as int;
    if v < 0x1_0000 then [v]
    else [0xD800 + (v - 0x1_0000) / 0x400, 0xDC00 + (v - 0x1_0000) % 0x400]
  }

  /** Two characters with the same code units are the same character. */
  lemma UnitsInjective(c: char, d: char)
    requires Units(c) == Units(d)
    ensures c == d
  {
    var v, w := c as int, d as int;
    if v >= 0x1_0000 {
      assert v - 0x1_0000 == (v - 0x1_0000) / 0x400 * 0x400 + (v - 0x1_0000) % 0x400;
      assert w - 0x1_0000 == (w - 0x1_0000) / 0x400 * 0x400 + (w - 0x1_0000) % 0x400;
      assert Units(c)[0] == Units(d)[0] && Units(c)[1] == Units(d)[1];
    } else {
      assert Units(c)[0] == Units(d)[0];
    }
  }

  /** The UTF-16 encoding of a string: the code units of its characters, in order. */
  function CodeUnits(s: string): (u: seq<int>)
    ensures |u| >= |s|
    decreases |s|
  {
    if s == [] then [] else Units(s[0]) + CodeUnits(s[1..])
  }

  /** `s.length` in JavaScript: the number of code units. */
  function Length(s: string): nat {
    |CodeUnits(s)|
  }

  lemma CodeUnitsCons(c: char, s: string)
    ensures CodeUnits([c] + s) == Units(c) + CodeUnits(s)
  {
    assert ([c] + s)[1..] == s;
  }

  /** Encoding distributes over concatenation. */
  lemma {:induction false} CodeUnitsAppend(a: string, b: string)
    ensures CodeUnits(a + b) == CodeUnits(a) + CodeUnits(b)
    decreases |a|
  {
    if a == [] {
      assert a + b == b;
    } else {
      assert a + b == [a[0]] + (a[1..] + b);
      CodeUnitsCons(a[0], a[1..] + b);
      CodeUnitsAppend(a[1..], b);
    }
  }

  /** A prefix of a string encodes to a prefix of its encoding. */
  lemma CodeUnitsPrefix(a: string, s: string)
    requires a <= s
    ensures CodeUnits(a) <= CodeUnits(s)
  {
    assert s == a + s[|a|..];
    CodeUnitsAppend(a, s[|a|..]);
  }

  /** Different strings have different encodings. */
  lemma {:induction false} CodeUnitsInjective(a: string, b: string)
    requires CodeUnits(a) == CodeUnits(b)
    ensures a == b
    decreases |a|
  {
    if a != [] && b != [] {
      var ua, ub := Units(a[0]), Units(b[0]);
      assert CodeUnits(a)[0] == ua[0] && CodeUnits(b)[0] == ub[0];
      assert |ua| == |ub|;
      assert ua == CodeUnits(a)[..|ua|] && ub == CodeUnits(b)[..|ub|];
      UnitsInjective(a[0], b[0]);
      assert CodeUnits(a[1..]) == CodeUnits(a)[|ua|..] == CodeUnits(b)[|ub|..] == CodeUnits(b[1..]);
      CodeUnitsInjective(a[1..], b[1..]);
      assert a == [a[0]] + a[1..] && b == [b[0]] + b[1..];
    }
  }

  /**
   * `s.slice(0, n)` as far as a string of characters can hold it: the
   * longest prefix of `s` that takes at most `n` code units. It differs
   * from JavaScript's only where the cut falls inside a surrogate pair:
   * JavaScript keeps the pair's high half, which is not a character.
   */
  function Slice(s: string, n: nat): (r: string)
    ensures r <= s
    ensures Length(r) <= n
    ensures r == s || Length(r) + UnitCount(s[|r|]) > n
    decreases |s|
  {
    if s == [] || UnitCount(s[0]) > n then []
    else
      var rest := Slice(s[1..], n - UnitCount(s[0]));
      CodeUnitsCons(s[0], rest);
      assert [s[0]] + rest <= s by {
        assert s == [s[0]] + s[1..];
      }
      [s[0]] + rest
  }

  /**
   * The sliced prefix encodes to JavaScript's slice, the first `n` code
   * units, unless the cut falls inside a surrogate pair; then it stops one
   * code unit short, before the pair.
   */
  lemma SliceAsJavaScript(s: string, n: nat)
    ensures var r := Slice(s, n);
      var cut := if Length(s) < n then Length(s) else n;
      && CodeUnits(r) <= CodeUnits(s)
      && (CodeUnits(r) == CodeUnits(s)[..cut]
          || (Length(r) == n - 1 && r != s && UnitCount(s[|r|]) == 2 && cut == n))
  {
    var r := Slice(s, n);
    CodeUnitsPrefix(r, s);
    if r != s {
      assert s == r + s[|r|..] && s[|r|..] == [s[|r|]] + s[|r| + 1..];
      CodeUnitsAppend(r, s[|r|..]);
      CodeUnitsCons(s[|r|], s[|r| + 1..]);
    }
  }
}
