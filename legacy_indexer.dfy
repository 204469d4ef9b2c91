/**
 * The older, regex-based indexer of the shared library (lib/indexer.js): a
 * bare MiniSearch index, the links taken from parenthesised timestamp ids,
 * and a per-engine document map kept in a module-level `WeakMap`.
 */
module LegacyIndexer {
  import opened Strs
  import opened TextRules
  import opened Utf16
  import opened NotesDatabase
  import opened LibIndexer

  /** The record the older indexer adds: no `public`, `aka` or `names`. */
  datatype LegacyDocument = LegacyDocument(
    id: string,
    topic: bool,
    text: string,
    links: string,
    excerpt: string,
    title: string)

  /**
   * The document built for a file: the links are the captured timestamp
   * ids of the trimmed body, and the title rule reads that body with the
   * ids still in it (the scanning `replace` is only called for its callback).
   */
  function LegacyDocumentOf(filename: string, contents: string, parse: string -> (FrontMatter, string))
    : (d: LegacyDocument)
    ensures d.id == IdOf(filename)
  {
    var (front, content) := parse(contents);
    var body := Trim(content);
    var (title, text) := SplitTitle(front.title, body);
    LegacyDocument(
      id := IdOf(filename),
      topic := front.topic,
      text := text,
      links := Join(StampIds(body), " "),
      excerpt := Excerpt(text),
      title := TopicTitle(title, front.topic))
  }

  /**
   * The stored `links` split back into every captured id, in order, and the
   * ids stay in the stored text: with a front-matter title it is the whole
   * trimmed body.
   */
  lemma LegacyLinksAndText(filename: string, contents: string, parse: string -> (FrontMatter, string))
    ensures var d := LegacyDocumentOf(filename, contents, parse);
      var (front, content) := parse(contents);
      var body := Trim(content);
      && (StampIds(body) != [] ==> Split(d.links, ' ') == StampIds(body))
      && (front.title != "" ==> d.text == body && d.title == TopicTitle(front.title, front.topic))
      && d.excerpt <= d.text && Length(d.excerpt) <= ExcerptLength
  {
    var (front, content) := parse(contents);
    var body := Trim(content);
    var ids := StampIds(body);
    if ids != [] {
      forall k | 0 <= k < |ids| ensures ' ' !in ids[k] {
        StampIdHasNoSpace(ids[k]);
      }
      SplitJoin(ids, ' ');
    }
  }

  /** A timestamp id is made of digits, `T` and `Z`. */
  lemma StampIdHasNoSpace(id: string)
    requires IsStampId(id)
    ensures ' ' !in id
  {
    var t, z :| StampShape(id, t, z);
    forall k | 0 <= k < |id| ensures id[k] != ' ' {
      assert k == t || k == z || IsDigit(id[k]);
    }
  }

  /** A MiniSearch index, as the multiset of the ids it holds. */
  class MiniSearch {
    var entries: multiset<string>

    constructor ()
      ensures entries == multiset{}
    {
      entries := multiset{};
    }

    /** `remove(document)`: one entry for the id goes. */
    method Remove(id: string)
      modifies this
      ensures entries == old(entries) - multiset{id}
    {
      entries := entries - multiset{id};
    }

    /** `add(document)`: one more entry for the id. */
    method Add(id: string)
      modifies this
      ensures entries == old(entries) + multiset{id}
    {
      entries := entries + multiset{id};
    }
  }

  /** The module-level `WeakMap` from a search engine to its document map; it starts empty. */
  class DocumentMaps {
    var maps: map<MiniSearch, map<string, LegacyDocument>>

    constructor ()
      ensures maps == map[]
    {
      maps := map[];
    }

    /** `set(searchEngine, documentMap)`. */
    method Set(engine: MiniSearch, documentMap: map<string, LegacyDocument>)
      modifies this
      ensures maps == old(maps)[engine := documentMap]
    {
      maps := maps[engine := documentMap];
    }

    /** The document map of `engine`, or a new empty one when none is kept. */
    function MapOf(engine: MiniSearch): map<string, LegacyDocument>
      reads this
    {
      if engine in maps then maps[engine] else map[]
    }

    /** The index of `engine` holds one entry per document of its map and none for anything else. */
    ghost predicate Tracks(engine: MiniSearch)
      reads this, engine
    {
      forall id :: engine.entries[id] == if id in MapOf(engine) then 1 else 0
    }
  }

  /**
   * The body shared by both versions: the engine loses the entry of an
   * existing document of the map before it gains one for the new document,
   * which replaces that document in the returned map.
   */
  method Replace(engine: MiniSearch, documentMap: map<string, LegacyDocument>, document: LegacyDocument)
    returns (documentMap': map<string, LegacyDocument>)
    modifies engine
    ensures engine.entries == (if document.id in documentMap then old(engine.entries) - multiset{document.id}
                               else old(engine.entries)) + multiset{document.id}
    ensures documentMap' == documentMap[document.id := document]
  {
    documentMap' := documentMap;
    var id := document.id;
    if id in documentMap' {
      engine.Remove(id);
      documentMap' := documentMap' - {id};
    }
    engine.Add(id);
    documentMap' := documentMap'[id := document];
  }

  /**
   * `indexDocumentIntoSearchEngine(searchEngine, filename, contents)` as
   * written: front matter that does not parse (`parseThrows`) throws before
   * anything is touched. Otherwise the map fetched for the engine is filled
   * in but never stored back, so the kept maps do not change, and the
   * engine loses an entry only for a document of a kept map, which never
   * exists.
   */
  method IndexAsWritten(weak: DocumentMaps, engine: MiniSearch, filename: string, contents: string,
                        parse: string -> (FrontMatter, string), parseThrows: string -> bool)
    returns (threw: bool)
    modifies engine
    ensures threw == parseThrows(contents)
    ensures threw ==> engine.entries == old(engine.entries)
    ensures !threw ==> var id := IdOf(filename);
      engine.entries == (if id in weak.MapOf(engine) then old(engine.entries) - multiset{id}
                         else old(engine.entries)) + multiset{id}
  {
    if parseThrows(contents) {
      return true;
    }
    threw := false;
    var document := LegacyDocumentOf(filename, contents, parse);
    var documentMap := weak.MapOf(engine);
    documentMap := Replace(engine, documentMap, document);
  }

  /**
   * The same call with the new map stored in the `WeakMap`: it throws, and
   * changes nothing, on front matter that does not parse; otherwise the
   * engine keeps exactly one entry for the id, and its map holds the new
   * document.
   */
  method IndexDocument(weak: DocumentMaps, engine: MiniSearch, filename: string, contents: string,
                       parse: string -> (FrontMatter, string), parseThrows: string -> bool)
    returns (threw: bool)
    requires weak.Tracks(engine)
    modifies weak, engine
    ensures weak.Tracks(engine)
    ensures threw == parseThrows(contents)
    ensures threw ==> weak.maps == old(weak.maps) && engine.entries == old(engine.entries)
    ensures !threw ==>
      && weak.maps == old(weak.maps)[engine := old(weak.MapOf(engine))[IdOf(filename) := LegacyDocumentOf(filename, contents, parse)]]
      && engine.entries[IdOf(filename)] == 1
      && forall k :: k != IdOf(filename) ==> engine.entries[k] == old(engine.entries)[k]
  {
    if parseThrows(contents) {
      return true;
    }
    threw := false;
    var document := LegacyDocumentOf(filename, contents, parse);
    var documentMap := weak.MapOf(engine);
    ReplaceKeepsCounts(engine.entries, documentMap, document.id, document);
    documentMap := Replace(engine, documentMap, document);
    weak.Set(engine, documentMap);
  }

  /** Removing the id when the map holds it and adding it again keeps one entry per key of the updated map. */
  lemma ReplaceKeepsCounts<V>(entries: multiset<string>, m: map<string, V>, id: string, v: V)
    requires forall k :: entries[k] == if k in m then 1 else 0
    ensures var after := (if id in m then entries - multiset{id} else entries) + multiset{id};
      forall k :: after[k] == if k in m[id := v] then 1 else 0
  {
  }

  /**
   * Indexing one file whose front matter parses twice into a new engine as
   * written leaves two entries for its id (a file that does not parse
   * throws both times and leaves none).
   */
  method ReindexAsWritten(filename: string, contents: string, parse: string -> (FrontMatter, string),
                          parseThrows: string -> bool)
    returns (entries: multiset<string>)
    ensures !parseThrows(contents) ==> entries[IdOf(filename)] == 2 && |entries| == 2
    ensures parseThrows(contents) ==> entries == multiset{}
  {
    var weak := new DocumentMaps();
    var engine := new MiniSearch();
    var threw := IndexAsWritten(weak, engine, filename, contents, parse, parseThrows);
    threw := IndexAsWritten(weak, engine, filename, contents, parse, parseThrows);
    entries := engine.entries;
  }

  /** With the map stored back, the same two calls leave one entry. */
  method ReindexCorrected(filename: string, contents: string, parse: string -> (FrontMatter, string),
                          parseThrows: string -> bool)
    returns (entries: multiset<string>)
    ensures !parseThrows(contents) ==> entries[IdOf(filename)] == 1 && |entries| == 1
    ensures parseThrows(contents) ==> entries == multiset{}
  {
    var weak := new DocumentMaps();
    var engine := new MiniSearch();
    var threw := IndexDocument(weak, engine, filename, contents, parse, parseThrows);
    threw := IndexDocument(weak, engine, filename, contents, parse, parseThrows);
    entries := engine.entries;
    if !threw {
      assert entries == multiset{IdOf(filename)};
    }
  }
}
