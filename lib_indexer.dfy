/**
 * The indexer of the shared library (lib/indexer.ts) over the search
 * engine object of lib/searchEngine.ts: derives a `JournalDocument` from a
 * file, records alias redirects, and replaces any earlier document of the
 * same id.
 */
module LibIndexer {
  import opened Options
  import opened Seqs
  import opened Strs
  import opened TextRules
  import opened Utf16
  import opened OrderedMaps
  import opened NotesDatabase
  import opened IndexNote

  /** A document of the library (`JournalDocument`). */
  datatype JournalDocument = JournalDocument(
    id: string,
    public: bool,
    topic: bool,
    aka: string,
    text: string,
    links: string,
    excerpt: string,
    title: string,
    names: string)

  /**
   * The foreign parsers, as functions: gray-matter splits a file into its
   * front matter and its markdown body, and throws on the files where
   * `parseThrows` holds (front matter it cannot parse);
   * `new MarkdownContent(body).links` lists the hrefs of the body's links
   * in document order.
   */
  datatype Parsers = Parsers(
    parseFrontMatter: string -> (FrontMatter, string),
    parseThrows: string -> bool,
    hrefs: string -> seq<string>)

  /** The id of a note file: `path.basename(filename, '.md')`. */
  function IdOf(filename: string): string {
    BaseName(filename, ".md")
  }

  /** The `publicOnly` option turns a file away whose front matter is not public. */
  predicate Turned(contents: string, publicOnly: bool, parsers: Parsers) {
    publicOnly && !parsers.parseFrontMatter(contents).0.public
  }

  /**
   * The document built for `id` from the front matter and the trimmed
   * markdown body: links from the body as it is, the title rule on the body
   * with its timestamp ids removed.
   */
  function DocumentFor(id: string, front: FrontMatter, body: string, hrefs: seq<string>): (d: JournalDocument)
    ensures d.id == id && d.public == front.public && d.topic == front.topic
  {
    var (title, text) := SplitTitle(front.title, StripStamps(body));
    JournalDocument(
      id := id,
      public := front.public,
      topic := front.topic,
      aka := Join(front.aka, " "),
      text := text,
      links := Join(LocalLinks(hrefs), " "),
      excerpt := Excerpt(text),
      title := TopicTitle(title, front.topic),
      names := NamesOf(id, front.aliases))
  }

  /** The document `indexDocumentIntoSearchEngine` stores for a file. */
  function DocumentOf(filename: string, contents: string, parsers: Parsers): (d: JournalDocument)
    ensures d.id == IdOf(filename)
  {
    var (front, content) := parsers.parseFrontMatter(contents);
    var body := Trim(content);
    DocumentFor(IdOf(filename), front, body, parsers.hrefs(body))
  }

  /** The aliases of a file's front matter (none when `aliases` is absent or falsy). */
  function AliasesOf(contents: string, parsers: Parsers): seq<string> {
    parsers.parseFrontMatter(contents).0.aliases
  }

  /**
   * `redirectMap.set(alias, id)` for each alias in turn: every alias ends up
   * pointing at `id`, whatever it pointed at before, and every other key
   * keeps its target.
   */
  function RedirectAll(m: OrderedMap<string>, aliases: seq<string>, id: string): (r: OrderedMap<string>)
    requires m.Valid()
    ensures r.Valid()
    ensures forall a :: a in aliases ==> r.Get(a) == Some(id)
    ensures forall k :: k !in aliases ==> r.Get(k) == m.Get(k)
    ensures m.keys <= r.keys
    decreases |aliases|
  {
    if aliases == [] then m
    else
      var front := aliases[..|aliases| - 1];
      var last := aliases[|aliases| - 1];
      assert forall a :: a in aliases <==> a in front || a == last;
      RedirectAll(m, front, id).Set(last, id)
  }

  /**
   * `m.delete(id)` when `m` has `id`, then `m.set(id, v)`: the key always
   * goes to the end of the order.
   */
  function Replace<V>(m: OrderedMap<V>, id: string, v: V): (r: OrderedMap<V>)
    requires m.Valid()
    ensures r.Valid()
    ensures r.keys == RemoveValue(m.keys, id) + [id]
    ensures r.values == m.values[id := v]
    ensures r.Get(id) == Some(v)
    ensures forall k :: k != id ==> r.Get(k) == m.Get(k)
  {
    var cleared := if id in m.values then m.Delete(id) else m;
    assert cleared.keys == RemoveValue(m.keys, id);
    assert cleared.values[id := v] == m.values[id := v];
    assert id !in cleared.keys;
    cleared.Set(id, v)
  }

  /** The invariant of the search engine's state, on its four parts. */
  ghost predicate Consistent(documentMap: OrderedMap<JournalDocument>, contentsMap: map<string, string>,
                             redirectMap: OrderedMap<string>, searchIndex: multiset<string>)
  {
    && documentMap.Valid() && redirectMap.Valid()
    && (forall id :: id in documentMap.values ==> documentMap.values[id].id == id && id in contentsMap)
    && (forall id :: searchIndex[id] == if id in documentMap.values then 1 else 0)
  }

  /** Storing a document under its own id, with its contents, and indexing it once keeps the invariant. */
  lemma StoreConsistent(documentMap: OrderedMap<JournalDocument>, contentsMap: map<string, string>,
                        redirectMap: OrderedMap<string>, searchIndex: multiset<string>,
                        id: string, document: JournalDocument, contents: string, index: multiset<string>)
    requires Consistent(documentMap, contentsMap, redirectMap, searchIndex) && document.id == id
    requires forall k :: index[k] == if k == id then 1 else searchIndex[k]
    ensures Consistent(Replace(documentMap, id, document), contentsMap[id := contents], redirectMap, index)
  {
    var documents := Replace(documentMap, id, document);
    var stored := contentsMap[id := contents];
    assert documents.values == documentMap.values[id := document];
    forall k | k in documents.values ensures documents.values[k].id == k && k in stored {
      if k != id {
        assert k in documentMap.values && documents.values[k] == documentMap.values[k];
      }
    }
    forall k ensures index[k] == if k in documents.values then 1 else 0 {
      if k != id {
        assert k in documents.values <==> k in documentMap.values;
      }
    }
  }

  /**
   * The search engine of the library: the MiniSearch index (as the multiset
   * of ids it holds), the documents, the raw contents, and the alias
   * redirects, the last two keyed by id.
   */
  class SearchEngine {
    var documentMap: OrderedMap<JournalDocument>
    var contentsMap: map<string, string>
    var redirectMap: OrderedMap<string>
    var searchIndex: multiset<string>

    /**
     * Both ordered maps are well formed; each document sits under its own
     * id with its raw contents beside it; the index holds exactly one entry
     * per document and none for anything else.
     */
    ghost predicate Valid()
      reads this
    {
      Consistent(documentMap, contentsMap, redirectMap, searchIndex)
    }

    /** `createSearchEngine()`: everything empty. */
    constructor ()
      ensures Valid()
      ensures documentMap == Empty() && redirectMap == Empty()
      ensures contentsMap == map[] && searchIndex == multiset{}
    {
      documentMap := Empty();
      contentsMap := map[];
      redirectMap := Empty();
      searchIndex := multiset{};
    }

    /** `for (const alias of aliases) searchEngine.redirectMap.set(alias, id)`. */
    method SetRedirects(aliases: seq<string>, id: string)
      requires Valid()
      modifies this
      ensures Valid()
      ensures redirectMap == RedirectAll(old(redirectMap), aliases, id)
      ensures documentMap == old(documentMap) && contentsMap == old(contentsMap)
      ensures searchIndex == old(searchIndex)
    {
      var redirects := redirectMap;
      for i := 0 to |aliases|
        invariant redirects == RedirectAll(redirectMap, aliases[..i], id)
        modifies {}
      {
        PrefixStep(aliases, i);
        redirects := redirects.Set(aliases[i], id);
      }
      PrefixWhole(aliases);
      redirectMap := redirects;
    }

    /**
     * `indexDocumentIntoSearchEngine(searchEngine, filename, contents,
     * { publicOnly })`. Front matter that does not parse throws before
     * anything is touched: `threw` is set, and nothing changes. A file the
     * gate turns away yields `None` and changes nothing. Otherwise the aliases point at the id, the document
     * replaces any earlier one (moving to the end of the order), the raw
     * contents are stored, the index keeps one entry for the id, and the id
     * is returned. Identical contents are replaced all the same.
     */
    method IndexDocument(filename: string, contents: string, publicOnly: bool, parsers: Parsers)
      returns (result: Option<string>, threw: bool)
      requires Valid()
      modifies this
      ensures Valid()
      ensures threw == parsers.parseThrows(contents)
      ensures threw ==>
        result == None && documentMap == old(documentMap) && contentsMap == old(contentsMap)
        && redirectMap == old(redirectMap) && searchIndex == old(searchIndex)
      ensures !threw && Turned(contents, publicOnly, parsers) ==>
        result == None && documentMap == old(documentMap) && contentsMap == old(contentsMap)
        && redirectMap == old(redirectMap) && searchIndex == old(searchIndex)
      ensures !threw && !Turned(contents, publicOnly, parsers) ==>
        var id := IdOf(filename);
        && result == Some(id)
        && redirectMap == RedirectAll(old(redirectMap), AliasesOf(contents, parsers), id)
        && documentMap == Replace(old(documentMap), id, DocumentOf(filename, contents, parsers))
        && contentsMap == old(contentsMap)[id := contents]
        && searchIndex[id] == 1
        && forall k :: k != id ==> searchIndex[k] == old(searchIndex)[k]
    {
      if parsers.parseThrows(contents) {
        return None, true;
      }
      var (front, content) := parsers.parseFrontMatter(contents);
      if !front.public && publicOnly {
        return None, false;
      }
      var id := IdOf(filename);
      SetRedirects(front.aliases, id);
      StoreDocument(id, DocumentOf(filename, contents, parsers), contents);
      return Some(id), false;
    }

    /**
     * The end of `indexDocumentIntoSearchEngine`: any earlier document of
     * the id leaves the index and the map, then the new one is added to both
     * and the raw contents are stored.
     */
    method StoreDocument(id: string, document: JournalDocument, contents: string)
      requires Valid() && document.id == id
      modifies this
      ensures Valid()
      ensures documentMap == Replace(old(documentMap), id, document)
      ensures contentsMap == old(contentsMap)[id := contents]
      ensures redirectMap == old(redirectMap)
      ensures searchIndex[id] == 1
      ensures forall k :: k != id ==> searchIndex[k] == old(searchIndex)[k]
    {
      var index := searchIndex;
      if id in documentMap.values {
        index := index - multiset{id};
      }
      index := index + multiset{id};
      assert forall k :: index[k] == if k == id then 1 else searchIndex[k];
      var documents := Replace(documentMap, id, document);
      var stored := contentsMap[id := contents];
      StoreConsistent(documentMap, contentsMap, redirectMap, searchIndex, id, document, contents, index);
      documentMap, contentsMap, searchIndex := documents, stored, index;
    }
  }

  // ---------------------------------------------------------------------
  // What the stored document states
  // ---------------------------------------------------------------------

  /**
   * The title rule reads the body with its timestamp ids removed. The
   * removal changes the body exactly when it holds such an id; without one,
   * and without a front-matter title, the title is the first sentence of
   * the body and the text is the trimmed rest.
   */
  lemma TitleAfterStamps(id: string, front: FrontMatter, body: string, hrefs: seq<string>)
    requires front.title == ""
    ensures var d := DocumentFor(id, front, body, hrefs);
      var stripped := StripStamps(body);
      && (stripped == body <==> StampIds(body) == [])
      && (TitleMatch(stripped).Some? ==>
            var e := TitleMatch(stripped).value;
            && d.title == TopicTitle(stripped[..e], front.topic)
            && d.text == Trim(stripped[e..])
            && (forall j :: 0 <= j < e ==> !IsLineTerminator(stripped[j])))
      && (TitleMatch(stripped).None? ==> d.title == TopicTitle("", front.topic) && d.text == stripped)
      && d.excerpt <= d.text && Length(d.excerpt) <= ExcerptLength
  {
    StripChangesIffStamps(body);
    if TitleMatch(StripStamps(body)).Some? {
      DerivedTitleIsFirstSentence(StripStamps(body));
    }
  }

  /** A front-matter title is kept as it is (plus the topic suffix), and the text is the stripped body. */
  lemma FrontTitleKept(id: string, front: FrontMatter, body: string, hrefs: seq<string>)
    requires front.title != ""
    ensures var d := DocumentFor(id, front, body, hrefs);
      d.title == TopicTitle(front.title, front.topic) && d.text == StripStamps(body)
  {
  }

  /**
   * The stored `links` split back into the body's hrefs without `:`, in
   * order, provided there is one and no href holds a space; the stored
   * `names` split back into the id and then each new alias, provided no
   * name holds a space.
   */
  lemma LinksAndNamesSplitBack(id: string, front: FrontMatter, body: string, hrefs: seq<string>)
    requires forall k :: 0 <= k < |hrefs| ==> ' ' !in hrefs[k]
    requires ' ' !in id && forall k :: 0 <= k < |front.aliases| ==> ' ' !in front.aliases[k]
    ensures var d := DocumentFor(id, front, body, hrefs);
      && (LocalLinks(hrefs) != [] ==> Split(d.links, ' ') == LocalLinks(hrefs))
      && var names := Split(d.names, ' ');
         names == Dedup([id] + front.aliases) && names[0] == id
         && forall w :: w in names <==> w == id || w in front.aliases
  {
    var links := LocalLinks(hrefs);
    if links != [] {
      forall k | 0 <= k < |links| ensures ' ' !in links[k] {
        assert links[k] in hrefs;
      }
      SplitJoin(links, ' ');
    }
    var all := [id] + front.aliases;
    var names := Dedup(all);
    forall k | 0 <= k < |names| ensures ' ' !in names[k] {
      assert names[k] in all;
    }
    DedupHead(id, front.aliases);
    SplitJoin(names, ' ');
  }

  /**
   * Indexing a file again with the same contents is not skipped: the
   * document is stored anew and its id moves to the end of the order (it
   * stays in place only when it was already last).
   */
  lemma ReindexMovesLast(m: OrderedMap<JournalDocument>, id: string, d: JournalDocument)
    requires m.Valid() && m.Get(id) == Some(d)
    ensures Replace(m, id, d).values == m.values
    ensures Replace(m, id, d).keys == RemoveValue(m.keys, id) + [id]
    ensures Replace(m, id, d).keys == m.keys <==> m.keys[|m.keys| - 1] == id
  {
    var r := Replace(m, id, d);
    assert m.values[id := d] == m.values;
    assert id in m.keys;
    var rest := RemoveValue(m.keys, id);
    if m.keys[|m.keys| - 1] == id {
      var i := |m.keys| - 1;
      RemoveLastDistinct(m.keys);
      PrefixStep(m.keys, i);
      PrefixWhole(m.keys);
    } else {
      assert r.keys[|r.keys| - 1] != m.keys[|m.keys| - 1];
    }
  }

  /** Removing the last element of a sequence without duplicates leaves its front. */
  lemma {:induction false} RemoveLastDistinct(s: seq<string>)
    requires s != [] && NoDuplicates(s)
    ensures RemoveValue(s, s[|s| - 1]) == s[..|s| - 1]
  {
    var x := s[|s| - 1];
    if |s| > 1 {
      assert s[0] != x;
      assert NoDuplicates(s[1..]) by {
        forall i, j | 0 <= i < j < |s[1..]| ensures s[1..][i] != s[1..][j] {
          assert s[1..][i] == s[i + 1] && s[1..][j] == s[j + 1];
        }
      }
      RemoveLastDistinct(s[1..]);
      assert s[1..][|s[1..]| - 1] == x;
      assert s[..|s| - 1] == [s[0]] + s[1..][..|s[1..]| - 1];
    }
  }
}
