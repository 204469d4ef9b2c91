/**
 * The string rules the indexers share: the title rule
 * `/^(.*?)(?:\.\s|\n|$)/`, the parenthesised timestamp ids
 * `/\((\d+T\d+Z\d+)\)/g`, and `path.basename(filename, '.md')`.
 */
module TextRules {
  import opened Options
  import opened Strs
  import opened Seqs
  import opened Utf16

  // ---------------------------------------------------------------------
  // The title rule
  // ---------------------------------------------------------------------

  /** Where the non-capturing group `(?:\.\s|\n|$)` can match. */
  predicate IsTitleStop(s: string, e: nat)
    requires e <= |s|
  {
    e == |s| || s[e] == '\n' || (s[e] == '.' && e + 1 < |s| && IsJsWhitespace(s[e + 1]))
  }

  /** The whole pattern can match with `(.*?)` capturing `s[..e]`: `.` matches no line terminator. */
  predicate TitleMatchable(s: string, e: nat) {
    e <= |s| && IsTitleStop(s, e) && forall j :: 0 <= j < e ==> !IsLineTerminator(s[j])
  }

  /**
   * The length of the lazy capture: the least `e` at which the pattern
   * matches, or `None` when a `\r`, U+2028 or U+2029 comes before any stop.
   */
  function TitleMatch(s: string): (r: Option<nat>)
    ensures r.Some? ==> TitleMatchable(s, r.value)
    ensures r.Some? ==> forall e :: 0 <= e < r.value ==> !TitleMatchable(s, e)
    ensures r.None? ==> forall e :: 0 <= e <= |s| ==> !TitleMatchable(s, e)
  {
    TitleMatchFrom(s, 0)
  }

  function TitleMatchFrom(s: string, k: nat): (r: Option<nat>)
    requires k <= |s|
    requires forall j :: 0 <= j < k ==> !IsLineTerminator(s[j]) && !IsTitleStop(s, j)
    ensures r.Some? ==> k <= r.value && TitleMatchable(s, r.value)
    ensures r.Some? ==> forall e :: 0 <= e < r.value ==> !TitleMatchable(s, e)
    ensures r.None? ==> forall e :: 0 <= e <= |s| ==> !TitleMatchable(s, e)
    decreases |s| - k
  {
    if IsTitleStop(s, k) then Some(k)
    else if IsLineTerminator(s[k]) then None
    else TitleMatchFrom(s, k + 1)
  }

  /**
   * The title and the body left by the rule: the front-matter title when
   * there is one; otherwise the capture, with the body being what follows
   * it, trimmed; when the pattern does not match, no title and the text as
   * it was.
   */
  function SplitTitle(frontTitle: string, text: string): (r: (string, string))
    ensures frontTitle != "" ==> r == (frontTitle, text)
    ensures frontTitle == "" && TitleMatch(text).None? ==> r == ("", text)
    ensures frontTitle == "" && TitleMatch(text).Some? ==>
      var e := TitleMatch(text).value;
      r.0 == text[..e] && r.1 == Trim(text[e..])
  {
    if frontTitle != "" then (frontTitle, text)
    else match TitleMatch(text) {
      case None => ("", text)
      case Some(e) => (text[..e], Trim(text[e..]))
    }
  }

  /**
   * A derived title is one line with no sentence end inside: it holds no
   * line terminator and no period that the text follows with white space.
   */
  lemma DerivedTitleIsFirstSentence(text: string)
    requires TitleMatch(text).Some?
    ensures var e := TitleMatch(text).value;
      && (forall j :: 0 <= j < e ==> !IsLineTerminator(text[j]))
      && (forall j :: 0 <= j < e && j + 1 < |text| && text[j] == '.' ==> !IsJsWhitespace(text[j + 1]))
      && text == text[..e] + text[e..]
  {
    var e := TitleMatch(text).value;
    forall j | 0 <= j < e && j + 1 < |text| && text[j] == '.'
      ensures !IsJsWhitespace(text[j + 1])
    {
      assert !TitleMatchable(text, j);
    }
  }

  /** A text without line terminators and sentence ends is a title in full, with an empty body. */
  lemma WholeTextIsTitle(text: string)
    requires forall j :: 0 <= j < |text| ==> !IsLineTerminator(text[j])
    requires forall j :: 0 <= j && j + 1 < |text| ==> !(text[j] == '.' && IsJsWhitespace(text[j + 1]))
    ensures SplitTitle("", text) == (text, "")
  {
    assert TitleMatchable(text, |text|);
    forall e | 0 <= e < |text| ensures !TitleMatchable(text, e) {
      assert !IsTitleStop(text, e);
    }
    assert text[..|text|] == text;
  }

  /** The suffix topic notes get on their title. */
  const TopicSuffix := " (topic)"

  /** `if (topic) title += ' (topic)'`. */
  function TopicTitle(title: string, topic: bool): string {
    if topic then title + TopicSuffix else title
  }

  /** `content.slice(0, 256)`: 256 UTF-16 code units. */
  const ExcerptLength := 256

  /** The longest prefix of the body that fits in 256 code units. */
  function Excerpt(body: string): (r: string)
    ensures r <= body
    ensures Length(r) <= ExcerptLength
    ensures r == body || Length(r) + UnitCount(body[|r|]) > ExcerptLength
  {
    Slice(body, ExcerptLength)
  }

  // ---------------------------------------------------------------------
  // Parenthesised timestamp ids
  // ---------------------------------------------------------------------

  /** The length of the run of decimal digits that starts at `i`. */
  function DigitRun(s: string, i: nat): (n: nat)
    requires i <= |s|
    ensures i + n <= |s|
    ensures forall k :: i <= k < i + n ==> IsDigit(s[k])
    ensures i + n < |s| ==> !IsDigit(s[i + n])
    decreases |s| - i
  {
    if i < |s| && IsDigit(s[i]) then 1 + DigitRun(s, i + 1) else 0
  }

  /**
   * `id` has the shape `\d+T\d+Z\d+` with its `T` at `t` and its `Z` at
   * `z`. Digits, `T` and `Z` are distinct characters, so each `\d+` is a
   * maximal run and the shape fixes `t` and `z`.
   */
  predicate StampShape(id: string, t: nat, z: nat) {
    && 0 < t && t + 1 < z && z + 1 < |id|
    && id[t] == 'T' && id[z] == 'Z'
    && forall k :: 0 <= k < |id| && k != t && k != z ==> IsDigit(id[k])
  }

  /** `id` matches `\d+T\d+Z\d+` as a whole. */
  ghost predicate IsStampId(id: string) {
    exists t, z :: StampShape(id, t, z)
  }

  /** Where a match of `\d+T\d+Z\d+` that starts at `j` ends. */
  function StampIdEnd(s: string, j: nat): (r: Option<nat>)
    requires j <= |s|
    ensures r.Some? ==> j < r.value <= |s|
    ensures r.Some? && r.value < |s| ==> !IsDigit(s[r.value])
  {
    var a := DigitRun(s, j);
    var t := j + a;
    if a >= 1 && t < |s| && s[t] == 'T' then
      var b := DigitRun(s, t + 1);
      var z := t + 1 + b;
      if b >= 1 && z < |s| && s[z] == 'Z' then
        var c := DigitRun(s, z + 1);
        if c >= 1 then Some(z + 1 + c) else None
      else None
    else None
  }

  /** What the id matcher takes has the shape of an id. */
  lemma StampIdEndShape(s: string, j: nat)
    requires j <= |s| && StampIdEnd(s, j).Some?
    ensures IsStampId(s[j..StampIdEnd(s, j).value])
  {
    var a := DigitRun(s, j);
    var b := DigitRun(s, j + a + 1);
    assert StampShape(s[j..StampIdEnd(s, j).value], a, a + 1 + b);
  }

  /** Where a match of `\((\d+T\d+Z\d+)\)` that starts at `i` ends (one past its `)`). */
  function StampAt(s: string, i: nat): (r: Option<nat>)
    requires i <= |s|
    ensures r.Some? ==> i + 2 < r.value <= |s| && s[i] == '(' && s[r.value - 1] == ')'
  {
    if i < |s| && s[i] == '(' then
      match StampIdEnd(s, i + 1) {
        case Some(close) => if close < |s| && s[close] == ')' then Some(close + 1) else None
        case None => None
      }
    else None
  }

  /** What a match holds between its parentheses has the shape of an id. */
  lemma StampAtShape(s: string, i: nat)
    requires i <= |s| && StampAt(s, i).Some?
    ensures IsStampId(s[i + 1..StampAt(s, i).value - 1])
  {
    StampIdEndShape(s, i + 1);
  }

  /** A run of `n` digits followed by a non-digit or the end is what `DigitRun` finds. */
  lemma {:induction false} DigitRunExact(s: string, i: nat, n: nat)
    requires i + n <= |s|
    requires forall k :: i <= k < i + n ==> IsDigit(s[k])
    requires i + n < |s| ==> !IsDigit(s[i + n])
    ensures DigitRun(s, i) == n
    decreases n
  {
    if n > 0 {
      DigitRunExact(s, i + 1, n - 1);
    }
  }

  /** A well-formed parenthesised id where the scan stands is always matched, whole. */
  lemma StampAtComplete(s: string, i: nat, id: string)
    requires IsStampId(id) && i + |id| + 2 <= |s|
    requires s[i] == '(' && s[i + 1..i + 1 + |id|] == id && s[i + 1 + |id|] == ')'
    ensures StampAt(s, i) == Some(i + |id| + 2)
  {
    var t: nat, z: nat :| StampShape(id, t, z);
    var j := i + 1;
    forall k | j <= k < j + |id| ensures s[k] == id[k - j] {
      assert s[k] == s[j..j + |id|][k - j];
    }
    StampIdEndComplete(s, j, |id|, t, z);
    StampAtOf(s, i, j + |id|);
  }

  /** The match at `i` when the id matcher after `(` ends just before a `)`. */
  lemma StampAtOf(s: string, i: nat, close: nat)
    requires i < close < |s| && s[i] == '(' && s[close] == ')' && StampIdEnd(s, i + 1) == Some(close)
    ensures StampAt(s, i) == Some(close + 1)
  {
  }

  /**
   * The id matcher, started on `n` characters of the `\d+T\d+Z\d+` shape
   * (with the `T` at offset `t` and the `Z` at `z`) that a non-digit
   * follows, takes all `n`.
   */
  lemma StampIdEndComplete(s: string, j: nat, n: nat, t: nat, z: nat)
    requires 0 < t && t + 1 < z && z + 1 < n && j + n < |s|
    requires s[j + t] == 'T' && s[j + z] == 'Z' && !IsDigit(s[j + n])
    requires forall k :: j <= k < j + n && k != j + t && k != j + z ==> IsDigit(s[k])
    ensures StampIdEnd(s, j) == Some(j + n)
  {
    DigitRunExact(s, j, t);
    DigitRunExact(s, j + t + 1, z - t - 1);
    DigitRunExact(s, j + z + 1, n - z - 1);
    StampIdEndOf(s, j, t, z, n);
  }

  /** The id matcher on three digit runs separated by `T` and `Z`. */
  lemma StampIdEndOf(s: string, j: nat, t: nat, z: nat, n: nat)
    requires 0 < t && t + 1 < z && z + 1 < n && j + n <= |s|
    requires DigitRun(s, j) == t && s[j + t] == 'T'
    requires DigitRun(s, j + t + 1) == z - t - 1 && s[j + z] == 'Z'
    requires DigitRun(s, j + z + 1) == n - z - 1
    ensures StampIdEnd(s, j) == Some(j + n)
  {
  }

  /** The pieces a scan cuts a string into: single characters, and matched ids. */
  datatype Segment = Text(c: char) | Stamp(id: string)

  /** The characters a segment stands for. */
  function SegmentText(seg: Segment): string {
    match seg
    case Text(c) => [c]
    case Stamp(id) => "(" + id + ")"
  }

  /** The string a sequence of segments came from. */
  function Render(segs: seq<Segment>): string {
    if segs == [] then "" else SegmentText(segs[0]) + Render(segs[1..])
  }

  lemma RenderCons(seg: Segment, rest: seq<Segment>)
    ensures Render([seg] + rest) == SegmentText(seg) + Render(rest)
  {
    assert ([seg] + rest)[1..] == rest;
  }

  /**
   * The left-to-right scan a global `replace` performs: at each position a
   * match is taken when there is one, and the scan resumes after it;
   * otherwise the character is kept and the scan moves on by one.
   */
  function Scan(s: string): seq<Segment>
    decreases |s|
  {
    if s == [] then []
    else match StampAt(s, 0) {
      case Some(e) => [Stamp(s[1..e - 1])] + Scan(s[e..])
      case None => [Text(s[0])] + Scan(s[1..])
    }
  }

  /** Every id the scan matches has the shape `\d+T\d+Z\d+`. */
  lemma {:induction false} ScanStampsWellFormed(s: string)
    ensures forall k :: 0 <= k < |Scan(s)| && Scan(s)[k].Stamp? ==> IsStampId(Scan(s)[k].id)
    decreases |s|
  {
    if s != [] {
      match StampAt(s, 0) {
        case Some(e) =>
          StampAtShape(s, 0);
          ScanStampsWellFormed(s[e..]);
          StampsWellFormedCons(Stamp(s[1..e - 1]), Scan(s[e..]));
        case None =>
          ScanStampsWellFormed(s[1..]);
          StampsWellFormedCons(Text(s[0]), Scan(s[1..]));
      }
    }
  }

  /** A well-formed first segment before well-formed ones. */
  lemma StampsWellFormedCons(head: Segment, tail: seq<Segment>)
    requires head.Stamp? ==> IsStampId(head.id)
    requires forall k :: 0 <= k < |tail| && tail[k].Stamp? ==> IsStampId(tail[k].id)
    ensures forall k :: 0 <= k < |[head] + tail| && ([head] + tail)[k].Stamp? ==> IsStampId(([head] + tail)[k].id)
  {
    var segs := [head] + tail;
    forall k | 0 <= k < |segs| && segs[k].Stamp? ensures IsStampId(segs[k].id) {
      if k > 0 {
        assert segs[k] == tail[k - 1];
      }
    }
  }

  /** The scan cuts the string without losing or adding a character. */
  lemma {:induction false} ScanRendersBack(s: string)
    ensures Render(Scan(s)) == s
    decreases |s|
  {
    if s != [] {
      match StampAt(s, 0) {
        case Some(e) =>
          ScanRendersBack(s[e..]);
          RenderStampStep(s, e, Scan(s[e..]));
        case None =>
          ScanRendersBack(s[1..]);
          RenderCons(Text(s[0]), Scan(s[1..]));
          assert s == [s[0]] + s[1..];
      }
    }
  }

  /** A matched id followed by the rendering of the rest renders the whole string. */
  lemma RenderStampStep(s: string, e: nat, rest: seq<Segment>)
    requires 2 < e <= |s| && s[0] == '(' && s[e - 1] == ')'
    requires Render(rest) == s[e..]
    ensures Render([Stamp(s[1..e - 1])] + rest) == s
  {
    RenderCons(Stamp(s[1..e - 1]), rest);
    assert s[..e] == "(" + s[1..e - 1] + ")";
    assert s == s[..e] + s[e..];
  }

  /** The characters outside the matched ids. */
  function TextOf(segs: seq<Segment>): string {
    if segs == [] then ""
    else (if segs[0].Text? then [segs[0].c] else "") + TextOf(segs[1..])
  }

  /** The captured ids, in order. */
  function StampsOf(segs: seq<Segment>): seq<string> {
    if segs == [] then []
    else (if segs[0].Stamp? then [segs[0].id] else []) + StampsOf(segs[1..])
  }

  /**
   * `s.replace(/\((\d+T\d+Z\d+)\)/g, '')`: the text loses exactly the
   * width of the captured ids and their parentheses.
   */
  function StripStamps(s: string): (r: string)
    ensures |r| + StampWidth(StampIds(s)) == |s|
  {
    ScanRendersBack(s);
    StripLength(Scan(s));
    TextOf(Scan(s))
  }

  /** The `pageId` captures a global `replace` hands its callback, in order. */
  function StampIds(s: string): (ids: seq<string>)
    ensures forall k :: 0 <= k < |ids| ==> IsStampId(ids[k])
  {
    ScanStampsWellFormed(s);
    StampIdsOf(Scan(s))
  }

  function StampIdsOf(segs: seq<Segment>): (ids: seq<string>)
    requires forall k :: 0 <= k < |segs| && segs[k].Stamp? ==> IsStampId(segs[k].id)
    ensures ids == StampsOf(segs)
    ensures forall k :: 0 <= k < |ids| ==> IsStampId(ids[k])
  {
    if segs == [] then []
    else
      assert forall k :: 0 <= k < |segs[1..]| ==> segs[1..][k] == segs[k + 1];
      (if segs[0].Stamp? then [segs[0].id] else []) + StampIdsOf(segs[1..])
  }

  /** Stripping removes exactly the matched ids, each with its parentheses. */
  lemma {:induction false} StripLength(segs: seq<Segment>)
    ensures |Render(segs)| == |TextOf(segs)| + StampWidth(StampsOf(segs))
  {
    if segs != [] {
      StripLength(segs[1..]);
      if segs[0].Stamp? {
        assert ([segs[0].id] + StampsOf(segs[1..]))[1..] == StampsOf(segs[1..]);
      } else {
        assert [] + StampsOf(segs[1..]) == StampsOf(segs[1..]);
      }
    }
  }

  /** The characters the matched ids take up, parentheses included. */
  function StampWidth(ids: seq<string>): nat {
    if ids == [] then 0 else |ids[0]| + 2 + StampWidth(ids[1..])
  }

  /** Stripping changes a text exactly when the text holds an id to extract. */
  lemma StripChangesIffStamps(s: string)
    ensures StripStamps(s) == s <==> StampIds(s) == []
  {
    var segs := Scan(s);
    ScanRendersBack(s);
    StripLength(segs);
    if StampIds(s) == [] {
      NoStampsTextIsRender(segs);
    } else {
      assert StampWidth(StampsOf(segs)) > 0;
    }
  }

  lemma {:induction false} NoStampsTextIsRender(segs: seq<Segment>)
    requires StampsOf(segs) == []
    ensures TextOf(segs) == Render(segs)
  {
    if segs != [] {
      NoStampsTextIsRender(segs[1..]);
    }
  }

  // ---------------------------------------------------------------------
  // path.basename(filename, '.md')
  // ---------------------------------------------------------------------

  /** `filename` with its trailing `/` characters removed. */
  function DropTrailingSlashes(p: string): (r: string)
    ensures r <= p
    ensures r == [] || r[|r| - 1] != '/'
  {
    if p != [] && p[|p| - 1] == '/' then DropTrailingSlashes(p[..|p| - 1]) else p
  }

  /** What follows the last `/` of `p` (all of `p` when it has none). */
  function LastComponent(p: string): (r: string)
    ensures '/' !in r
    ensures |r| <= |p| && r == p[|p| - |r|..]
    ensures |r| < |p| ==> p[|p| - |r| - 1] == '/'
  {
    if p == [] then []
    else if p[|p| - 1] == '/' then []
    else
      var front := p[..|p| - 1];
      var r := LastComponent(front) + [p[|p| - 1]];
      assert p[|p| - |r|..] == front[|front| - |r| + 1..] + [p[|p| - 1]];
      r
  }

  predicate EndsWith(s: string, suffix: string) {
    |suffix| <= |s| && s[|s| - |suffix|..] == suffix
  }

  /** `ext` taken off the end of a component that ends with it and is longer than it. */
  function DropExt(base: string, ext: string): (r: string)
    ensures r <= base
    ensures ext != "" && EndsWith(base, ext) && base != ext ==> r + ext == base
    ensures !(ext != "" && EndsWith(base, ext) && base != ext) ==> r == base
  {
    if ext != "" && EndsWith(base, ext) && base != ext then base[..|base| - |ext|] else base
  }

  /**
   * `path.basename(p, ext)` on POSIX paths: nothing when the whole path is
   * `ext`; otherwise the last component, with `ext` removed when the
   * component ends with it and is longer than it.
   */
  function BaseName(p: string, ext: string): (r: string)
    ensures '/' !in r
    ensures p == ext ==> r == ""
    ensures p != ext ==> r == DropExt(LastComponent(DropTrailingSlashes(p)), ext)
  {
    if p == ext then ""
    else
      var base := LastComponent(DropTrailingSlashes(p));
      var r := DropExt(base, ext);
      assert forall k :: 0 <= k < |r| ==> r[k] == base[k];
      r
  }

  /** A note file `dir/<id>.md` has base name `id`. */
  lemma BaseNameOfNoteFile(dir: string, id: string)
    requires id != "" && '/' !in id
    ensures BaseName(dir + "/" + id + ".md", ".md") == id
  {
    NoteFileName(id);
    BaseNameAfterSlash(dir + "/", id + ".md", ".md");
    AppendAssoc(dir + "/", id, ".md");
  }

  /** `<id>.md` for an id without `/`: no `/`, ends with `.md`, and is `id` before it. */
  lemma NoteFileName(id: string)
    requires id != "" && '/' !in id
    ensures var file := id + ".md";
      && '/' !in file && file[|file| - 1] == 'd' && EndsWith(file, ".md") && file != ".md" && file[..|file| - 3] == id
  {
    var file := id + ".md";
    assert forall k :: 0 <= k < |file| ==> file[k] == if k < |id| then id[k] else ".md"[k - |id|];
    assert file[|file| - 3..] == ".md";
  }

  /** The base name of a path whose last component is the non-empty `file`. */
  lemma BaseNameAfterSlash(pre: string, file: string, ext: string)
    requires pre != [] && pre[|pre| - 1] == '/' && '/' !in file && file != []
    ensures BaseName(pre + file, ext)
         == if pre + file == ext then ""
            else if ext != "" && EndsWith(file, ext) && file != ext then file[..|file| - |ext|] else file
  {
    var p := pre + file;
    assert p[|p| - 1] == file[|file| - 1] && file[|file| - 1] in file;
    assert DropTrailingSlashes(p) == p;
    LastComponentAfterSlash(pre, file);
  }

  lemma {:induction false} LastComponentAfterSlash(pre: string, file: string)
    requires pre != [] && pre[|pre| - 1] == '/' && '/' !in file
    ensures LastComponent(pre + file) == file
    decreases |file|
  {
    if file == [] {
      assert pre + file == pre;
    } else {
      var front := file[..|file| - 1];
      assert (pre + file)[..|pre + file| - 1] == pre + front;
      assert file[|file| - 1] in file;
      LastComponentAfterSlash(pre, front);
      assert file == front + [file[|file| - 1]];
    }
  }
}
