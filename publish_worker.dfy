/**
 * The publishing worker of src/workers/publish.ts: load the public notes
 * of the tarball through the library indexer, add a redirect file for every
 * alias that is not a note and for every id whose lower-case form is free,
 * then reconcile with the stored publishing state.
 */
module PublishWorker {
  import opened Options
  import opened Seqs
  import opened Strs
  import opened TextRules
  import opened OrderedMaps
  import opened LibIndexer
  import opened TarSources
  import opened PublishDiff

  /** The tar filter: a `File` entry whose `basename` matches `/^[^/]+\.md$/`. */
  predicate Listed(e: TarEntry) {
    e.isFile && MarkdownName(BaseName(e.path, ""))
  }

  /**
   * What the accept loop makes of an entry: unlisted entries never reach
   * it; a listed one is indexed under its base name with `publicOnly`, which
   * turns away a file whose front matter is not public and otherwise gives
   * the id `basename(path, '.md')`.
   */
  function Accept(parsers: Parsers): TarEntry -> Option<string> {
    (e: TarEntry) =>
      if !Listed(e) || Turned(e.content, true, parsers) then None else Some(IdOf(BaseName(e.path, "")))
  }

  /** The alias redirects the indexer records for `entries`, in turn. */
  function Redirects(entries: seq<TarEntry>, parsers: Parsers): (m: OrderedMap<string>)
    ensures m.Valid()
    decreases |entries|
  {
    if entries == [] then Empty()
    else
      var redirects := Redirects(entries[..|entries| - 1], parsers);
      var e := entries[|entries| - 1];
      if Listed(e) && !Turned(e.content, true, parsers)
      then RedirectAll(redirects, AliasesOf(e.content, parsers), IdOf(BaseName(e.path, "")))
      else redirects
  }

  /** A listed entry whose front matter does not parse: the indexer throws on it. */
  predicate EntryThrows(e: TarEntry, parsers: Parsers) {
    Listed(e) && parsers.parseThrows(e.content)
  }

  /** The index of the first element where `p` holds, if any. */
  function FirstWhere<T>(s: seq<T>, p: T -> bool): (k: Option<nat>)
    ensures k.Some? ==> k.value < |s| && p(s[k.value]) && forall j :: 0 <= j < k.value ==> !p(s[j])
    ensures k.None? <==> forall j :: 0 <= j < |s| ==> !p(s[j])
    decreases |s|
  {
    if s == [] then None
    else if p(s[0]) then Some(0)
    else
      var rest := FirstWhere(s[1..], p);
      assert forall j :: 1 <= j < |s| ==> s[j] == s[1..][j - 1];
      if rest.None? then None else Some(rest.value + 1)
  }

  /**
   * The first entry the indexer throws on, if any: the first listed entry
   * with front matter that does not parse, and none when there is no such
   * entry.
   */
  function FirstThrowing(entries: seq<TarEntry>, parsers: Parsers): (k: Option<nat>)
    ensures k.Some? ==>
      && k.value < |entries| && EntryThrows(entries[k.value], parsers)
      && forall j :: 0 <= j < k.value ==> !EntryThrows(entries[j], parsers)
    ensures k.None? <==> forall j :: 0 <= j < |entries| ==> !EntryThrows(entries[j], parsers)
  {
    FirstWhere(entries, (e: TarEntry) => EntryThrows(e, parsers))
  }

  /** An element where `p` holds, after none before it where it does, is the first. */
  lemma FirstWhereAt<T>(s: seq<T>, p: T -> bool, i: nat)
    requires i < |s| && p(s[i]) && FirstWhere(s[..i], p).None?
    ensures FirstWhere(s, p) == Some(i)
  {
    assert forall j :: 0 <= j < i ==> s[..i][j] == s[j];
  }

  /** An element where `p` fails, after none before it where it holds, keeps the prefix clear. */
  lemma FirstWhereStep<T>(s: seq<T>, p: T -> bool, i: nat)
    requires i < |s| && !p(s[i]) && FirstWhere(s[..i], p).None?
    ensures FirstWhere(s[..i + 1], p).None?
  {
    assert forall j :: 0 <= j < i ==> s[..i][j] == s[j];
    assert forall j :: 0 <= j <= i ==> s[..i + 1][j] == s[j];
  }

  /**
   * One turn of the loading loop: an entry the tar filter lets through is
   * indexed under its base name with `publicOnly`, and a truthy id puts its
   * contents in `sourceMap`. The turn throws exactly when the indexer does,
   * changing neither map, and otherwise takes one step of `Sources` and of
   * `Redirects`.
   */
  method LoadEntry(engine: SearchEngine, sourceMap: OrderedMap<string>, entry: TarEntry, parsers: Parsers)
    returns (sourceMap': OrderedMap<string>, threw: bool)
    requires engine.Valid() && sourceMap.Valid()
    modifies engine
    ensures engine.Valid()
    ensures threw == EntryThrows(entry, parsers)
    ensures threw ==> sourceMap' == sourceMap && engine.redirectMap == old(engine.redirectMap)
    ensures !threw ==>
      var id := Accept(parsers)(entry);
      sourceMap' == if Truthy(id) then sourceMap.Set(id.value, entry.content) else sourceMap
    ensures !threw ==>
      engine.redirectMap ==
        if Listed(entry) && !Turned(entry.content, true, parsers)
        then RedirectAll(old(engine.redirectMap), AliasesOf(entry.content, parsers), IdOf(BaseName(entry.path, "")))
        else old(engine.redirectMap)
  {
    sourceMap', threw := sourceMap, false;
    if !Listed(entry) {
      return;
    }
    var path := BaseName(entry.path, "");
    var id;
    id, threw := engine.IndexDocument(path, entry.content, true, parsers);
    if !threw && id.Some? && id.value != "" {
      sourceMap' := sourceMap.Set(id.value, entry.content);
    }
  }

  /**
   * `loadPublicNotes()`: a new search engine indexes every listed entry in
   * tarball order; the source map keeps the contents of each accepted one
   * under its id, and the engine's redirects are those of the accepted files.
   * The loop has no `try`: the first entry the indexer throws on ends it,
   * and `failed` names that entry.
   */
  method LoadPublicNotes(entries: seq<TarEntry>, parsers: Parsers)
    returns (engine: SearchEngine, sourceMap: OrderedMap<string>, failed: Option<nat>)
    ensures fresh(engine) && engine.Valid()
    ensures failed == FirstThrowing(entries, parsers)
    ensures failed.None? ==>
      && sourceMap == Sources(entries, Accept(parsers))
      && engine.redirectMap == Redirects(entries, parsers)
    ensures failed.Some? ==>
      && sourceMap == Sources(entries[..failed.value], Accept(parsers))
      && engine.redirectMap == Redirects(entries[..failed.value], parsers)
  {
    engine := new SearchEngine();
    sourceMap := Empty();
    ghost var throws := (e: TarEntry) => EntryThrows(e, parsers);
    for i := 0 to |entries|
      invariant engine.Valid()
      invariant FirstWhere(entries[..i], throws).None?
      invariant sourceMap == Sources(entries[..i], Accept(parsers))
      invariant engine.redirectMap == Redirects(entries[..i], parsers)
    {
      PrefixStep(entries, i);
      var threw;
      sourceMap, threw := LoadEntry(engine, sourceMap, entries[i], parsers);
      if threw {
        FirstWhereAt(entries, throws, i);
        return engine, sourceMap, Some(i);
      }
      FirstWhereStep(entries, throws, i);
    }
    PrefixWhole(entries);
    failed := None;
  }

  /** A component without `/` is its own last component. */
  lemma LastComponentOfName(name: string)
    requires '/' !in name
    ensures LastComponent(name) == name
  {
  }

  /** A top-level `*.md` path is its own base name, so it passes this filter's name test. */
  lemma ListedBaseName(path: string)
    requires MarkdownName(path)
    ensures BaseName(path, "") == path && MarkdownName(BaseName(path, ""))
  {
    assert path[|path| - 1] == 'd';
    assert DropTrailingSlashes(path) == path;
    LastComponentOfName(path);
  }

  /**
   * A listed entry's id is its name without `.md`, never empty, so the
   * `if (id)` test only ever drops files the indexer turned away.
   */
  lemma ListedId(e: TarEntry)
    requires Listed(e)
    ensures var name := BaseName(e.path, "");
      IdOf(name) == name[..|name| - 3] && IdOf(name) != ""
  {
    var name := BaseName(e.path, "");
    assert name[|name| - 1] == 'd';
    assert DropTrailingSlashes(name) == name;
    LastComponentOfName(name);
    assert |name| > 3 && name != ".md" && EndsWith(name, ".md");
    var id := DropExt(name, ".md");
    assert id + ".md" == name;
    assert id == name[..|name| - 3];
  }

  /** The lines of a redirect file: front matter saying where to go, then a link there. */
  function RedirectLines(to: string, quote: string -> string): seq<string> {
    ["---", "public: true", "redirect_to: " + quote(to), "---", "Redirect to [" + to + "](" + to + ")"]
  }

  /**
   * `generateRedirect(to)`, with `JSON.stringify` as `quote`: the redirect
   * lines joined by newlines.
   */
  function GenerateRedirect(to: string, quote: string -> string): (file: string)
    ensures file == "---" + "\n" + "public: true" + "\n" + ("redirect_to: " + quote(to)) + "\n"
                    + "---" + "\n" + ("Redirect to [" + to + "](" + to + ")")
  {
    JoinFive("---", "public: true", "redirect_to: " + quote(to), "---", "Redirect to [" + to + "](" + to + ")", "\n");
    Join(RedirectLines(to, quote), "\n")
  }

  /**
   * When neither the target nor its quoted form holds a newline, the file
   * splits back into its five lines: the front matter of a public note
   * redirecting to the quoted target, and the link.
   */
  lemma RedirectSplitsBack(to: string, quote: string -> string)
    requires '\n' !in to && '\n' !in quote(to)
    ensures Split(GenerateRedirect(to, quote), '\n') == RedirectLines(to, quote)
  {
    var lines := RedirectLines(to, quote);
    assert '\n' !in lines[2] && '\n' !in lines[4];
    SplitJoin(lines, '\n');
  }

  /**
   * `for (const [from, to] of searchEngine.redirectMap)` over the keys
   * `froms`: an alias that is not in the source map yet gets the redirect
   * file of its target.
   */
  function WithRedirects(froms: seq<string>, redirects: map<string, string>, sources: OrderedMap<string>,
                         quote: string -> string): (m: OrderedMap<string>)
    requires sources.Valid() && forall k :: k in froms ==> k in redirects
    ensures m.Valid()
    decreases |froms|
  {
    if froms == [] then sources
    else
      var m := WithRedirects(froms[..|froms| - 1], redirects, sources, quote);
      var from := froms[|froms| - 1];
      if m.Has(from) then m else m.Set(from, GenerateRedirect(redirects[from], quote))
  }

  /** The redirect loop, proved against `WithRedirects`. */
  method AddRedirects(sourceMap: OrderedMap<string>, redirectMap: OrderedMap<string>, quote: string -> string)
    returns (result: OrderedMap<string>)
    requires sourceMap.Valid() && redirectMap.Valid()
    ensures result == WithRedirects(redirectMap.keys, redirectMap.values, sourceMap, quote)
  {
    result := sourceMap;
    var froms := redirectMap.keys;
    for i := 0 to |froms|
      invariant result == WithRedirects(froms[..i], redirectMap.values, sourceMap, quote)
    {
      PrefixStep(froms, i);
      var from := froms[i];
      if !result.Has(from) {
        result := result.Set(from, GenerateRedirect(redirectMap.values[from], quote));
      }
    }
    PrefixWhole(froms);
  }

  /**
   * After the redirect loop: a real note keeps its contents and its place,
   * an alias that is not a note maps to the redirect file of its target,
   * and nothing else is added.
   */
  lemma {:induction false} WithRedirectsOutcome(froms: seq<string>, redirects: map<string, string>,
                                                sources: OrderedMap<string>, quote: string -> string)
    requires sources.Valid() && forall k :: k in froms ==> k in redirects
    ensures var m := WithRedirects(froms, redirects, sources, quote);
      && sources.keys <= m.keys
      && (forall k :: k in sources.values ==> m.Get(k) == sources.Get(k))
      && (forall k :: k !in sources.values && k in froms ==> m.Get(k) == Some(GenerateRedirect(redirects[k], quote)))
      && (forall k :: k !in sources.values && k !in froms ==> m.Get(k) == None)
    decreases |froms|
  {
    if froms != [] {
      var front := froms[..|froms| - 1];
      assert froms == front + [froms[|froms| - 1]];
      WithRedirectsOutcome(front, redirects, sources, quote);
      var before := WithRedirects(front, redirects, sources, quote);
      AddLastPrefix(before.keys, froms[|froms| - 1]);
    }
  }

  lemma AddLastPrefix(keys: seq<string>, k: string)
    ensures keys <= AddLast(keys, k)
  {
  }

  /**
   * The first of `ids` whose lower-case form is `k` and differs from it:
   * the id whose redirect the lower-case loop stores under `k`.
   */
  function FirstLowered(ids: seq<string>, k: string, lower: string -> string): (r: Option<string>)
    ensures r.Some? ==> r.value in ids && lower(r.value) == k && r.value != k
    ensures r.None? ==> forall x :: x in ids ==> lower(x) != k || x == k
    decreases |ids|
  {
    if ids == [] then None
    else
      var front := ids[..|ids| - 1];
      var last := ids[|ids| - 1];
      assert forall x :: x in ids ==> x in front || x == last;
      var r := FirstLowered(front, k, lower);
      if r.Some? then r else if lower(last) == k && last != k then Some(last) else None
  }

  /** No id of `ids` before index `i` lower-cases to `k` from something else. */
  predicate NoneBefore(ids: seq<string>, k: string, lower: string -> string, i: int)
    requires i <= |ids|
  {
    forall j :: 0 <= j < i ==> lower(ids[j]) != k || ids[j] == k
  }

  /** `FirstLowered` is the first such id: none before it lower-cases to `k`. */
  lemma {:induction false} FirstLoweredIsFirst(ids: seq<string>, k: string, lower: string -> string)
    requires FirstLowered(ids, k, lower).Some?
    ensures exists i :: 0 <= i < |ids| && ids[i] == FirstLowered(ids, k, lower).value && NoneBefore(ids, k, lower, i)
    decreases |ids|
  {
    var front := ids[..|ids| - 1];
    var first := FirstLowered(front, k, lower);
    if first.Some? {
      FirstLoweredIsFirst(front, k, lower);
      var i :| 0 <= i < |front| && front[i] == first.value && NoneBefore(front, k, lower, i);
      assert ids[i] == front[i];
      assert NoneBefore(ids, k, lower, i) by {
        forall j | 0 <= j < i ensures lower(ids[j]) != k || ids[j] == k {
          assert ids[j] == front[j];
        }
      }
    } else {
      assert NoneBefore(ids, k, lower, |front|) by {
        forall j | 0 <= j < |front| ensures lower(ids[j]) != k || ids[j] == k {
          assert ids[j] == front[j] && front[j] in front;
        }
      }
      assert ids[|front|] == FirstLowered(ids, k, lower).value;
    }
  }

  /**
   * The lower-case loop over the snapshot `ids`: an id whose lower-case form
   * differs and is not in the map yet gets a redirect to itself under it.
   */
  function WithLowercase(ids: seq<string>, sources: OrderedMap<string>, lower: string -> string,
                         quote: string -> string): (m: OrderedMap<string>)
    requires sources.Valid()
    ensures m.Valid()
    decreases |ids|
  {
    if ids == [] then sources
    else
      var m := WithLowercase(ids[..|ids| - 1], sources, lower, quote);
      var id := ids[|ids| - 1];
      var lowercased := lower(id);
      if lowercased != id && !m.Has(lowercased) then m.Set(lowercased, GenerateRedirect(id, quote)) else m
  }

  /**
   * `const ids = Array.from(sourceMap.keys())`, then the loop over that
   * snapshot, proved against `WithLowercase`: keys the loop adds are not
   * visited again.
   */
  method AddLowercaseRedirects(sourceMap: OrderedMap<string>, lower: string -> string, quote: string -> string)
    returns (result: OrderedMap<string>)
    requires sourceMap.Valid()
    ensures result == WithLowercase(sourceMap.keys, sourceMap, lower, quote)
  {
    var ids := sourceMap.keys;
    result := sourceMap;
    for i := 0 to |ids|
      invariant result == WithLowercase(ids[..i], sourceMap, lower, quote)
    {
      PrefixStep(ids, i);
      var id := ids[i];
      var lowercased := lower(id);
      if lowercased != id && !result.Has(lowercased) {
        result := result.Set(lowercased, GenerateRedirect(id, quote));
      }
    }
    PrefixWhole(ids);
  }

  /**
   * After the lower-case loop: every key of the map keeps its contents and
   * its place; a free lower-case form maps to the redirect file of the first
   * id lower-casing to it; every id whose lower-case form differs has that
   * form in the map; nothing else is added.
   */
  lemma {:induction false} WithLowercaseOutcome(ids: seq<string>, sources: OrderedMap<string>,
                                                lower: string -> string, quote: string -> string)
    requires sources.Valid()
    ensures var m := WithLowercase(ids, sources, lower, quote);
      && sources.keys <= m.keys
      && (forall k :: k in sources.values ==> m.Get(k) == sources.Get(k))
      && (forall k :: k !in sources.values ==>
            m.Get(k) == if FirstLowered(ids, k, lower).Some?
                        then Some(GenerateRedirect(FirstLowered(ids, k, lower).value, quote)) else None)
      && (forall id :: id in ids && lower(id) != id ==> lower(id) in m.values)
    decreases |ids|
  {
    if ids != [] {
      var front := ids[..|ids| - 1];
      var last := ids[|ids| - 1];
      assert forall x :: x in ids <==> x in front || x == last;
      WithLowercaseOutcome(front, sources, lower, quote);
      var before := WithLowercase(front, sources, lower, quote);
      AddLastPrefix(before.keys, lower(last));
    }
  }

  /**
   * `main()` up to the save decision: load the notes, add the alias and the
   * lower-case redirects, and reconcile the result, the files to publish,
   * with the old state. When the indexer throws on an entry, `main` ends
   * there: there is no plan, so nothing is uploaded, deleted or saved.
   */
  method Publish(entries: seq<TarEntry>, oldState: PublishingState, parsers: Parsers,
                 hash: string -> string, quote: string -> string, lower: string -> string)
    returns (failed: Option<nat>, sourceMap: OrderedMap<string>, plan: Option<PublishDiff.Plan>)
    requires oldState.files.Valid()
    ensures failed == FirstThrowing(entries, parsers)
    ensures failed.Some? <==> plan.None?
    ensures failed.None? ==> var notes := Sources(entries, Accept(parsers));
      var redirects := Redirects(entries, parsers);
      var aliased := WithRedirects(redirects.keys, redirects.values, notes, quote);
      sourceMap == WithLowercase(aliased.keys, aliased, lower, quote)
    ensures plan.Some? ==> var p := plan.value;
      && (forall id :: id in p.toUpload <==> id in sourceMap.values && oldState.files.Get(id) != Some(hash(sourceMap.values[id])))
      && (forall id :: id in p.toDelete <==> id in oldState.files.values && id !in sourceMap.values)
      && p.toUpload * p.toDelete == {}
      && p.newState.files.Valid()
      && p.newState.files.values == (map id | id in sourceMap.values :: hash(sourceMap.values[id]))
      && (p.save <==> p.toUpload != {} || p.toDelete != {})
  {
    var engine, notes;
    engine, notes, failed := LoadPublicNotes(entries, parsers);
    if failed.Some? {
      return failed, notes, None;
    }
    var aliased := AddRedirects(notes, engine.redirectMap, quote);
    sourceMap := AddLowercaseRedirects(aliased, lower, quote);
    var p := Reconcile(sourceMap, oldState, hash);
    plan := Some(p);
  }
}
