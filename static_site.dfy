/**
 * The decisions of service/scripts/generate_static_site.ts: which notes to
 * compile, which pages to write, the sitemap text, the items of the RSS
 * feed taken from the `Recent` note, and when `recent.xml` is rewritten.
 */
module StaticSite {
  import opened Options
  import opened Seqs
  import opened Strs
  import opened CompileQueue

  /** `compilerVersion` of the static site generator. */
  const CompilerVersion := "6"

  /** `findNotesToCompile()` with this generator's compiler version. */
  method FindNotesToCompile(rows: seq<ContentRow>) returns (toCompile: seq<string>)
    ensures forall id :: id in toCompile <==> exists row :: row in rows && Stale(row, CompilerVersion) && row.id == id
    ensures |toCompile| <= |rows|
  {
    toCompile := CompileQueue.FindNotesToCompile(rows, CompilerVersion);
    forall id ensures id in toCompile <==> exists row :: row in rows && Stale(row, CompilerVersion) && row.id == id {
      Selected(rows, CompilerVersion, id);
    }
  }

  // ---------------------------------------------------------------------
  // Pages
  // ---------------------------------------------------------------------

  /** A row of `select('id, compiled')`. */
  datatype CompiledNote = CompiledNote(id: string, compiled: Option<string>)

  /** A `writeFileSync` under `../published/`: the path below it and the contents. */
  datatype FileWrite = FileWrite(path: string, content: string)

  /** `note.compiled` is truthy: present and not empty. */
  predicate HasOutput(note: CompiledNote) {
    note.compiled.Some? && note.compiled.value != ""
  }

  /**
   * `push(note)`: without compiled output nothing; otherwise the page
   * `<id>.html` rendered by `generateHtml` (`render`), written a second time
   * as `index.html` for `HomePage`.
   */
  function PageWrites(note: CompiledNote, render: (string, string) -> string): seq<FileWrite> {
    if !HasOutput(note) then []
    else
      var html := render(note.id, note.compiled.value);
      [FileWrite(note.id + ".html", html)] + if note.id == "HomePage" then [FileWrite("index.html", html)] else []
  }

  /**
   * The `pages` task over the notes whose id is a node of the tree: the
   * writes of each such note, in note order.
   */
  function Pages(notes: seq<CompiledNote>, publicIds: set<string>, render: (string, string) -> string)
    : (writes: seq<FileWrite>)
    ensures |writes| <= 2 * |notes|
    decreases |notes|
  {
    if notes == [] then []
    else
      (if notes[0].id in publicIds then PageWrites(notes[0], render) else []) + Pages(notes[1..], publicIds, render)
  }

  /** Every note of the tree with compiled output gets its page, `HomePage` also `index.html`. */
  lemma {:induction false} PagesCover(notes: seq<CompiledNote>, publicIds: set<string>, render: (string, string) -> string)
    ensures forall n :: n in notes && n.id in publicIds && HasOutput(n) ==>
      FileWrite(n.id + ".html", render(n.id, n.compiled.value)) in Pages(notes, publicIds, render)
    ensures forall n :: n in notes && n.id == "HomePage" && n.id in publicIds && HasOutput(n) ==>
      FileWrite("index.html", render(n.id, n.compiled.value)) in Pages(notes, publicIds, render)
    decreases |notes|
  {
    if notes != [] {
      PagesCover(notes[1..], publicIds, render);
      var own := if notes[0].id in publicIds then PageWrites(notes[0], render) else [];
      var rest := Pages(notes[1..], publicIds, render);
      assert Pages(notes, publicIds, render) == own + rest;
      forall n | n in notes ensures n == notes[0] || n in notes[1..] {
      }
    }
  }

  /** A note's writes, when it is of the tree and has compiled output. */
  predicate WrittenFor(w: FileWrite, notes: seq<CompiledNote>, publicIds: set<string>, render: (string, string) -> string) {
    exists n :: n in notes && n.id in publicIds && HasOutput(n) && w in PageWrites(n, render)
  }

  /** Every write is one of those of a note of the tree with compiled output. */
  lemma {:induction false} PagesOnlyTree(notes: seq<CompiledNote>, publicIds: set<string>, render: (string, string) -> string)
    ensures forall w :: w in Pages(notes, publicIds, render) ==> WrittenFor(w, notes, publicIds, render)
    decreases |notes|
  {
    if notes != [] {
      var note := notes[0];
      PagesOnlyTree(notes[1..], publicIds, render);
      var own := if note.id in publicIds then PageWrites(note, render) else [];
      var rest := Pages(notes[1..], publicIds, render);
      assert Pages(notes, publicIds, render) == own + rest;
      forall w | w in own + rest ensures WrittenFor(w, notes, publicIds, render) {
        if w in own {
          assert note in notes;
        } else {
          assert WrittenFor(w, notes[1..], publicIds, render);
          var n :| n in notes[1..] && n.id in publicIds && HasOutput(n) && w in PageWrites(n, render);
          assert n in notes;
        }
      }
    }
  }

  /**
   * The whole `pages` task: the tree's node ids as the public ids, the
   * pages, then `404.html`; every note of the tree with compiled output has
   * its page among them.
   */
  function PagesTask(notes: seq<CompiledNote>, treeIds: seq<string>, render: (string, string) -> string,
                     notFound: string): (writes: seq<FileWrite>)
    ensures |writes| >= 1 && writes[|writes| - 1] == FileWrite("404.html", notFound)
    ensures forall n :: n in notes && n.id in treeIds && HasOutput(n) ==>
      FileWrite(n.id + ".html", render(n.id, n.compiled.value)) in writes
  {
    PagesCover(notes, Elements(treeIds), render);
    Pages(notes, Elements(treeIds), render) + [FileWrite("404.html", notFound)]
  }

  // ---------------------------------------------------------------------
  // Sitemap
  // ---------------------------------------------------------------------

  /** `https://notes.dt.in.th/${id}`. */
  function PageUrl(id: string): string {
    "https://notes.dt.in.th/" + id
  }

  /**
   * The `sitemap.txt` text: the page URL of each node id, newline-joined.
   * It is empty exactly when there are no ids, and holds every id's URL.
   */
  function Sitemap(ids: seq<string>): (text: string)
    ensures text == "" <==> ids == []
    ensures forall k :: 0 <= k < |ids| ==> Contains(text, PageUrl(ids[k]))
  {
    var urls := Map(ids, PageUrl);
    JoinEmpty(urls, "\n");
    assert ids != [] ==> urls[0] != "";
    assert forall k :: 0 <= k < |ids| ==> Contains(Join(urls, "\n"), PageUrl(ids[k])) by {
      forall k | 0 <= k < |ids| ensures Contains(Join(urls, "\n"), PageUrl(ids[k])) {
        JoinContains(urls, "\n", k);
      }
    }
    Join(urls, "\n")
  }

  /**
   * Over ids without newlines the sitemap has exactly one line per id, in
   * order, each its page URL, so there is no trailing newline.
   */
  lemma SitemapLines(ids: seq<string>)
    requires |ids| >= 1 && forall k :: 0 <= k < |ids| ==> '\n' !in ids[k]
    ensures Split(Sitemap(ids), '\n') == Map(ids, PageUrl)
  {
    var urls := Map(ids, PageUrl);
    forall k | 0 <= k < |urls| ensures '\n' !in urls[k] {
      UrlWithoutNewline(ids[k]);
    }
    SplitJoin(urls, '\n');
  }

  /** The page URL of an id without a newline has none. */
  lemma UrlWithoutNewline(id: string)
    requires '\n' !in id
    ensures '\n' !in PageUrl(id)
  {
    var prefix := "https://notes.dt.in.th/";
    assert forall i :: 0 <= i < |prefix| ==> prefix[i] != '\n';
    var url := prefix + id;
    forall i | 0 <= i < |url| ensures url[i] != '\n' {
      if i >= |prefix| {
        assert url[i] == id[i - |prefix|];
      }
    }
  }

  /** A tree without nodes gives the empty sitemap. */
  lemma EmptySitemap()
    ensures Sitemap([]) == ""
  {
  }

  // ---------------------------------------------------------------------
  // RSS items: `source.matchAll(/^- (\d\d\d\d-\d\d-\d\d): \[(.*?)\]\(([^)\s]+)\)/gm)`
  // ---------------------------------------------------------------------

  /** A match: the date, the bracket text and the link target. */
  datatype RssItem = RssItem(date: string, title: string, target: string)

  /** `^` in multi-line mode: the start of the text or just after a line terminator. */
  predicate LineStart(s: string, p: nat)
    requires p <= |s|
  {
    p == 0 || IsLineTerminator(s[p - 1])
  }

  /** `\d\d\d\d-\d\d-\d\d` at position `i`. */
  predicate DateAt(s: string, i: nat)
    requires i + 10 <= |s|
  {
    && IsDigit(s[i]) && IsDigit(s[i + 1]) && IsDigit(s[i + 2]) && IsDigit(s[i + 3]) && s[i + 4] == '-'
    && IsDigit(s[i + 5]) && IsDigit(s[i + 6]) && s[i + 7] == '-' && IsDigit(s[i + 8]) && IsDigit(s[i + 9])
  }

  /** A character of `[^)\s]`. */
  predicate TargetChar(c: char) {
    c != ')' && !IsJsWhitespace(c)
  }

  /** The length of the longest run of target characters from `j`. */
  function TargetRun(s: string, j: nat): (n: nat)
    requires j <= |s|
    ensures j + n <= |s|
    ensures forall k :: j <= k < j + n ==> TargetChar(s[k])
    ensures j + n < |s| ==> !TargetChar(s[j + n])
    decreases |s| - j
  {
    if j < |s| && TargetChar(s[j]) then 1 + TargetRun(s, j + 1) else 0
  }

  /**
   * `\]\(([^)\s]+)\)` at position `u`: greedy `+` takes the longest run,
   * and a shorter one would be followed by a target character, not `)`.
   */
  predicate CloseAt(s: string, u: nat) {
    && u + 1 < |s| && s[u] == ']' && s[u + 1] == '('
    && var n := TargetRun(s, u + 2); n > 0 && u + 2 + n < |s| && s[u + 2 + n] == ')'
  }

  /**
   * Lazy `.*?` from `t`: the first position where the rest matches, the
   * bracket text before it holding no line terminator.
   */
  function TitleEnd(s: string, t: nat): (r: Option<nat>)
    ensures r.Some? ==> t <= r.value && CloseAt(s, r.value)
    ensures r.Some? ==> forall u :: t <= u < r.value ==> !CloseAt(s, u) && !IsLineTerminator(s[u])
    ensures r.None? ==> forall u :: t <= u && CloseAt(s, u) ==> exists v :: t <= v < u && IsLineTerminator(s[v])
    decreases |s| - t
  {
    if t >= |s| then None
    else if CloseAt(s, t) then Some(t)
    else if IsLineTerminator(s[t]) then None
    else TitleEnd(s, t + 1)
  }

  /**
   * The match at `p`, if the pattern after `^` matches there: the item and
   * the index just past the closing `)`.
   */
  function MatchAt(s: string, p: nat): (r: Option<(RssItem, nat)>)
    requires p <= |s|
    ensures r.Some? ==> p < r.value.1 <= |s|
  {
    if p + 15 <= |s| && s[p..p + 2] == "- " && DateAt(s, p + 2) && s[p + 12..p + 15] == ": [" then
      match TitleEnd(s, p + 15)
      case None => None
      case Some(u) =>
        var n := TargetRun(s, u + 2);
        Some((RssItem(s[p + 2..p + 12], s[p + 15..u], s[u + 2..u + 2 + n]), u + 3 + n))
    else None
  }

  /** The text a match spans: `- `, the date, `: [`, the title, `](`, the target and `)`. */
  lemma MatchText(s: string, p: nat)
    requires p <= |s| && MatchAt(s, p).Some?
    ensures var (item, e) := MatchAt(s, p).value;
      s[p..e] == "- " + item.date + ": [" + item.title + "](" + item.target + ")"
  {
    var (item, e) := MatchAt(s, p).value;
    var u := TitleEnd(s, p + 15).value;
    var n := TargetRun(s, u + 2);
    assert item == RssItem(s[p + 2..p + 12], s[p + 15..u], s[u + 2..u + 2 + n]) && e == u + 3 + n;
    assert s[p..p + 2] == "- " && s[p + 12..p + 15] == ": [";
    assert s[u..u + 2] == "](";
    assert s[u + 2 + n..e] == ")";
    SevenPieces(s, p, p + 2, p + 12, p + 15, u, u + 2, u + 2 + n, e,
                "- ", item.date, ": [", item.title, "](", item.target, ")");
  }

  /** A slice cut at six points is its seven pieces in order. */
  lemma SevenPieces(s: string, i0: nat, i1: nat, i2: nat, i3: nat, i4: nat, i5: nat, i6: nat, i7: nat,
                    a: string, b: string, c: string, d: string, f: string, g: string, h: string)
    requires i0 <= i1 <= i2 <= i3 <= i4 <= i5 <= i6 <= i7 <= |s|
    requires s[i0..i1] == a && s[i1..i2] == b && s[i2..i3] == c && s[i3..i4] == d
    requires s[i4..i5] == f && s[i5..i6] == g && s[i6..i7] == h
    ensures s[i0..i7] == a + b + c + d + f + g + h
  {
    SliceJoin(s, i0, i1, i2);
    SliceJoin(s, i0, i2, i3);
    SliceJoin(s, i0, i3, i4);
    SliceJoin(s, i0, i4, i5);
    SliceJoin(s, i0, i5, i6);
    SliceJoin(s, i0, i6, i7);
  }

  /**
   * The parts of a match: a date of the `\d\d\d\d-\d\d-\d\d` shape, a
   * non-empty target of target characters, a title with no line terminator
   * that is the shortest one the rest of the pattern follows.
   */
  lemma MatchParts(s: string, p: nat)
    requires p <= |s| && MatchAt(s, p).Some?
    ensures var (item, e) := MatchAt(s, p).value;
      && |item.date| == 10 && DateAt(s, p + 2) && item.date == s[p + 2..p + 12]
      && item.target != [] && (forall k :: 0 <= k < |item.target| ==> TargetChar(item.target[k]))
      && (forall k :: 0 <= k < |item.title| ==> !IsLineTerminator(item.title[k]))
      && (forall u :: p + 15 <= u < p + 15 + |item.title| ==> !CloseAt(s, u))
  {
  }

  /**
   * `matchAll` from position `p`: at each line start where the pattern
   * matches, the item, and the search goes on after the match.
   */
  function ItemsFrom(s: string, p: nat): (r: seq<RssItem>)
    requires p <= |s|
    ensures forall item :: item in r ==>
      exists q :: p <= q <= |s| && LineStart(s, q) && MatchAt(s, q).Some? && MatchAt(s, q).value.0 == item
    decreases |s| - p
  {
    if p == |s| then []
    else if LineStart(s, p) && MatchAt(s, p).Some? then
      var (item, e) := MatchAt(s, p).value;
      var rest := ItemsFrom(s, e);
      assert forall x :: x in [item] + rest ==> x == item || x in rest;
      [item] + rest
    else ItemsFrom(s, p + 1)
  }

  /** The items of the whole `Recent` source, in source order. */
  function RssMatches(source: string): seq<RssItem> {
    ItemsFrom(source, 0)
  }

  /**
   * The feed loop: `feed.item` for each match in turn, stopping once 20
   * items were added, proved against the first 20 matches.
   */
  method RssItems(source: string) returns (items: seq<RssItem>)
    ensures items == Take(RssMatches(source), 20)
    ensures |items| <= 20
  {
    var matches := RssMatches(source);
    items := [];
    var count := 0;
    var i := 0;
    while i < |matches|
      invariant 0 <= i <= |matches| && count == i && i <= 20
      invariant items == matches[..i]
      invariant i == 20 ==> i == |matches|
    {
      items := items + [matches[i]];
      PrefixStep(matches, i);
      i := i + 1;
      count := count + 1;
      if count >= 20 {
        break;
      }
    }
    assert items == Take(matches, 20) by {
      if |matches| <= 20 {
        PrefixWhole(matches);
      }
    }
  }

  // ---------------------------------------------------------------------
  // updateFileSync
  // ---------------------------------------------------------------------

  /**
   * `updateFileSync(path, content, normalizer)`: the new content, as it is,
   * when its normal form differs from that of the old content; no write
   * otherwise.
   */
  function UpdateFile(oldContent: string, content: string, normalize: string -> string): (write: Option<string>)
    ensures write.Some? <==> normalize(oldContent) != normalize(content)
    ensures write.Some? ==> write.value == content
  {
    if normalize(oldContent) != normalize(content) then Some(content) else None
  }

  /** Running the update again with the same content, on the file it left, writes nothing. */
  lemma UpdateFileSettles(oldContent: string, content: string, normalize: string -> string)
    ensures var file := match UpdateFile(oldContent, content, normalize)
                        case Some(w) => w
                        case None => oldContent;
      UpdateFile(file, content, normalize).None?
  {
  }

  const OpenTag := "<lastBuildDate>"
  const CloseTag := "</lastBuildDate>"

  /** The lazy `.*?</lastBuildDate>` from `j`: the first closing tag with no line terminator before it. */
  function CloseTagAt(s: string, j: nat): (r: Option<nat>)
    ensures r.Some? ==> j <= r.value && r.value + 16 <= |s| && s[r.value..r.value + 16] == CloseTag
    decreases |s| - j
  {
    if j + 16 > |s| then None
    else if s[j..j + 16] == CloseTag then Some(j)
    else if IsLineTerminator(s[j]) then None
    else CloseTagAt(s, j + 1)
  }

  /** `r` is `s` with `s[a..b]` removed, an opening tag through a closing tag. */
  predicate RemovedSpan(s: string, r: string, a: nat, b: nat) {
    a + 31 <= b <= |s| && s[a..a + 15] == OpenTag && s[b - 16..b] == CloseTag && r == s[..a] + s[b..]
  }

  /** The leftmost match from `i` on removed; the text as it is when there is none. */
  function DropFrom(s: string, i: nat): (r: string)
    ensures r == s || exists a: nat, b: nat :: i <= a && RemovedSpan(s, r, a, b)
    decreases |s| - i
  {
    if i + 15 > |s| then s
    else if s[i..i + 15] == OpenTag && CloseTagAt(s, i + 15).Some? then
      var b := CloseTagAt(s, i + 15).value + 16;
      assert RemovedSpan(s, s[..i] + s[b..], i, b);
      s[..i] + s[b..]
    else DropFrom(s, i + 1)
  }

  /**
   * The `recent.xml` normaliser: `f.replace(/<lastBuildDate>.*?<\/lastBuildDate>/, '')`.
   * Either nothing is removed, or one stretch from an opening tag through a
   * closing tag is.
   */
  function DropBuildDate(s: string): (r: string)
    ensures r == s || exists a: nat, b: nat :: RemovedSpan(s, r, a, b)
  {
    DropFrom(s, 0)
  }

  /** A feed without an opening tag is left as it is. */
  lemma DropBuildDateNoTag(s: string)
    requires !Contains(s, OpenTag)
    ensures DropBuildDate(s) == s
  {
    NoMatchFrom(s, 0);
  }

  /** With no opening tag in the text, no position from `i` on starts a match. */
  lemma {:induction false} NoMatchFrom(s: string, i: nat)
    requires !Contains(s, OpenTag)
    ensures DropFrom(s, i) == s
    decreases |s| - i
  {
    if i + 15 <= |s| {
      NotContainsAt(s, OpenTag, i);
      NoMatchFrom(s, i + 1);
    }
  }

  /** A one-line build date, and text before it without the opening tag. */
  predicate FeedShape(before: string, date: string) {
    && !Contains(before, OpenTag)
    && !Contains(date, CloseTag)
    && forall k :: 0 <= k < |date| ==> !IsLineTerminator(date[k])
  }

  /**
   * The normaliser removes the first build-date element, whatever the date
   * on its one line, and keeps everything else.
   */
  lemma DropBuildDateOf(before: string, date: string, after: string)
    requires FeedShape(before, date)
    ensures DropBuildDate(before + OpenTag + date + CloseTag + after) == before + after
  {
    var s := before + OpenTag + date + CloseTag + after;
    var a := |before|;
    var j := a + 15 + |date|;
    assert s[a..a + 15] == OpenTag;
    assert s[j..j + 16] == CloseTag;
    CloseFound(s, date, a + 15, j, a + 15);
    SkipBefore(s, before, 0);
    assert s[..a] == before && s[j + 16..] == after;
  }

  /** The search for the closing tag passes over the date. */
  lemma CloseFound(s: string, date: string, lo: nat, j: nat, k: nat)
    requires lo <= k <= j && j + 16 <= |s| && s[j..j + 16] == CloseTag && s[lo..j] == date
    requires !Contains(date, CloseTag) && forall m :: 0 <= m < |date| ==> !IsLineTerminator(date[m])
    ensures CloseTagAt(s, k) == Some(j)
  {
    forall m | k <= m < j
      ensures !ClosesAt(s, m) && !IsLineTerminator(s[m])
    {
      assert s[m] == date[m - lo];
      NoTagBefore(s, CloseTag, date, lo, j, m);
    }
    CloseFoundFrom(s, j, k);
  }

  /** The closing tag starts at `m`. */
  predicate ClosesAt(s: string, m: nat) {
    m + 16 <= |s| && s[m..m + 16] == CloseTag
  }

  /** From `k`, the search passes over characters that start no tag and end no line, up to the tag at `j`. */
  lemma {:induction false} CloseFoundFrom(s: string, j: nat, k: nat)
    requires k <= j && j + 16 <= |s| && s[j..j + 16] == CloseTag
    requires forall m :: k <= m < j ==> !ClosesAt(s, m) && !IsLineTerminator(s[m])
    ensures CloseTagAt(s, k) == Some(j)
    decreases j - k
  {
    if k < j {
      assert !ClosesAt(s, k);
      CloseFoundFrom(s, j, k + 1);
    }
  }

  /** No match starts inside `before`. */
  lemma {:induction false} SkipBefore(s: string, before: string, i: nat)
    requires i <= |before| && |before| + 15 <= |s| && s[..|before|] == before
    requires s[|before|..|before| + 15] == OpenTag && !Contains(before, OpenTag)
    ensures DropFrom(s, i) == DropFrom(s, |before|)
    decreases |before| - i
  {
    if i < |before| {
      NoTagBefore(s, OpenTag, before, 0, |before|, i);
      SkipBefore(s, before, i + 1);
    }
  }

  /**
   * A text `inner` without `tag`, followed by `tag` in `s`: no occurrence
   * of `tag` starts inside `inner`.
   */
  lemma NoTagBefore(s: string, tag: string, inner: string, lo: nat, j: nat, k: nat)
    requires tag == OpenTag || tag == CloseTag
    requires lo <= k < j && j + |tag| <= |s| && s[j..j + |tag|] == tag && s[lo..j] == inner
    requires !Contains(inner, tag)
    ensures s[k..k + |tag|] != tag
  {
    if k + |tag| <= j {
      NoTagInside(s, tag, inner, lo, j, k);
    } else {
      NoTagAcross(s, tag, j, k);
    }
  }

  /** An occurrence starting inside `inner` and ending in it would be one of `inner`. */
  lemma NoTagInside(s: string, tag: string, inner: string, lo: nat, j: nat, k: nat)
    requires lo <= k && k + |tag| <= j <= |s| && s[lo..j] == inner && !Contains(inner, tag)
    ensures s[k..k + |tag|] != tag
  {
    SliceOfSlice(s, lo, j, k - lo, k - lo + |tag|);
    NotContainsAt(inner, tag, k - lo);
  }

  /** An occurrence starting before `j` and running past it would hold the `<` at `j` after its first character. */
  lemma NoTagAcross(s: string, tag: string, j: nat, k: nat)
    requires tag == OpenTag || tag == CloseTag
    requires k < j < k + |tag| && j + |tag| <= |s| && s[j..j + |tag|] == tag
    ensures s[k..k + |tag|] != tag
  {
    TagAfterFirst(tag, j - k);
    assert s[j] == tag[0];
    assert s[k..k + |tag|][j - k] == s[j];
  }

  /** Both tags hold `<` only as their first character. */
  lemma TagAfterFirst(tag: string, m: nat)
    requires tag == OpenTag || tag == CloseTag
    requires 1 <= m < |tag|
    ensures tag[m] != '<' && tag[0] == '<'
  {
    assert tag[m] in tag[1..];
    assert OpenTag[1..] == "lastBuildDate>" && CloseTag[1..] == "/lastBuildDate>";
  }

  /**
   * `recent.xml` is rewritten exactly when something other than the build
   * date changed: two feeds that differ only in their dates leave the file
   * alone.
   */
  lemma FeedRewrite(before: string, date: string, after: string, before': string, date': string, after': string)
    requires FeedShape(before, date) && FeedShape(before', date')
    ensures var oldFeed := before + OpenTag + date + CloseTag + after;
      var newFeed := before' + OpenTag + date' + CloseTag + after';
      UpdateFile(oldFeed, newFeed, DropBuildDate) == if before + after == before' + after' then None else Some(newFeed)
  {
    DropBuildDateOf(before, date, after);
    DropBuildDateOf(before', date', after');
  }
}
