/**
 * The service indexer (service/src/indexNote.ts): derives a note record
 * from a source and keeps the record, the source, the id set and the search
 * index in step.
 */
module IndexNote {
  import opened Seqs
  import opened Strs
  import opened TextRules
  import opened Utf16
  import opened Identities
  import opened NotesDatabase

  /** The hrefs that are note ids: those without `:` (no scheme), in order, duplicates kept. */
  function LocalLinks(hrefs: seq<string>): (links: seq<string>)
    ensures forall k :: 0 <= k < |links| ==> ':' !in links[k]
    ensures forall l :: l in links <==> l in hrefs && ':' !in l
  {
    var links := Filter(hrefs, (l: string) => ':' !in l);
    assert forall k :: 0 <= k < |links| ==> links[k] in links;
    links
  }

  /** `[...new Set([slug, ...aliases])].join(' ')`. */
  function NamesOf(slug: string, aliases: seq<string>): string {
    Join(Dedup([slug] + aliases), " ")
  }

  /** The record built from a slug, its front matter, and the plain text and hrefs of its body. */
  function DeriveNote(slug: string, front: FrontMatter, text: string, hrefs: seq<string>): (n: Note)
    ensures n.id == slug && n.frontMatter == front
  {
    var (title, body) := SplitTitle(front.title, text);
    Note(
      id := slug,
      public := front.public,
      topic := front.topic,
      aka := Join(front.aka, " "),
      text := body,
      links := Join(LocalLinks(hrefs), " "),
      excerpt := Excerpt(body),
      title := TopicTitle(title, front.topic),
      names := NamesOf(slug, front.aliases),
      frontMatter := front)
  }

  /** The record `indexNote` stores for `slug` when it indexes `source`. */
  function NoteFor(slug: string, source: string, libs: Libraries): (n: Note)
    ensures n.id == slug
  {
    var (front, content) := libs.parseFrontMatter(source);
    var (hrefs, text) := libs.markdown(content);
    DeriveNote(slug, front, text, hrefs)
  }

  /** The stored source is byte-identical: the record is current and the call returns early. */
  predicate IsCurrent(documents: map<string, Note>, contents: map<string, string>, slug: string, source: string) {
    slug in documents && slug in contents && contents[slug] == source
  }

  /** The `publicOnly` gate turns the note away. */
  predicate IsGated(source: string, publicOnly: bool, libs: Libraries) {
    publicOnly && !libs.parseFrontMatter(source).0.public
  }

  /**
   * `indexNote(db, slug, source, { publicOnly })`. The slug always joins
   * the id set. The call returns false, changing nothing else, when the
   * stored source is identical; otherwise gray-matter parses the source,
   * and when it throws (`threw`) the call ends there, with nothing else
   * changed. Otherwise it returns false, changing nothing else, when the
   * gate turns the note away, and else stores the new record and source,
   * replaces the search entry, and returns true.
   */
  method IndexNote(db: NotesDatabase, slug: string, source: string, publicOnly: bool, libs: Libraries)
    returns (indexed: bool, threw: bool)
    requires db.Valid()
    modifies db, db.identitySet
    ensures db.Valid()
    ensures db.identitySet.Has(slug)
    ensures db.identitySet.order == AddLast(old(db.identitySet.order), slug)
    ensures old(db.identitySet.Has(slug)) ==> db.identitySet.identities == old(db.identitySet.identities)
    ensures db.identitySet.identities.Keys == old(db.identitySet.identities.Keys) + {slug}
    ensures threw == (!IsCurrent(old(db.documentMap), old(db.contentsMap), slug, source) && libs.parseThrows(source))
    ensures indexed == (!IsCurrent(old(db.documentMap), old(db.contentsMap), slug, source)
                        && !libs.parseThrows(source) && !IsGated(source, publicOnly, libs))
    ensures !indexed ==> db.documentMap == old(db.documentMap) && db.contentsMap == old(db.contentsMap)
                         && db.searchIndex == old(db.searchIndex)
    ensures indexed ==> db.documentMap == old(db.documentMap)[slug := NoteFor(slug, source, libs)]
                        && db.contentsMap == old(db.contentsMap)[slug := source]
  {
    ghost var known := db.identitySet.Has(slug);
    ghost var order := db.identitySet.order;
    db.identitySet.Add(slug);
    assert known <==> slug in order;
    assert db.Valid();

    var existed := slug in db.documentMap;
    if existed && slug in db.contentsMap && db.contentsMap[slug] == source {
      return false, false;
    }

    if libs.parseThrows(source) {
      return false, true;
    }
    var (front, content) := libs.parseFrontMatter(source);
    if !front.public && publicOnly {
      return false, false;
    }

    StoreNote(db, slug, NoteFor(slug, source, libs), source);
    return true, false;
  }

  /**
   * The update at the end of `indexNote`: the record and the source are
   * stored under the slug, and the search entry of any earlier record is
   * replaced by one for the new record.
   */
  method StoreNote(db: NotesDatabase, slug: string, document: Note, source: string)
    requires db.Valid() && document.id == slug && db.identitySet.Has(slug)
    modifies db
    ensures db.Valid()
    ensures db.documentMap == old(db.documentMap)[slug := document]
    ensures db.contentsMap == old(db.contentsMap)[slug := source]
  {
    InStepAfterStore(db.documentMap, db.contentsMap, db.identitySet.identities.Keys, db.searchIndex,
                     slug, document, source);
    var existed := slug in db.documentMap;
    db.documentMap := db.documentMap[slug := document];
    db.contentsMap := db.contentsMap[slug := source];
    if existed {
      db.searchIndex := db.searchIndex - multiset{slug};
    }
    db.searchIndex := db.searchIndex + multiset{slug};
  }

  /**
   * `unindexNote(db, slug)`: nothing at all when there is no record;
   * otherwise the record, its source, its id and its search entry go.
   */
  method UnindexNote(db: NotesDatabase, slug: string)
    requires db.Valid()
    modifies db, db.identitySet
    ensures db.Valid()
    ensures slug !in old(db.documentMap) ==>
      && db.documentMap == old(db.documentMap) && db.contentsMap == old(db.contentsMap)
      && db.searchIndex == old(db.searchIndex)
      && db.identitySet.order == old(db.identitySet.order)
      && db.identitySet.identities == old(db.identitySet.identities)
    ensures slug in old(db.documentMap) ==>
      && db.documentMap == old(db.documentMap) - {slug}
      && db.contentsMap == old(db.contentsMap) - {slug}
      && db.searchIndex == old(db.searchIndex) - multiset{slug}
      && db.identitySet.order == RemoveValue(old(db.identitySet.order), slug)
      && db.identitySet.identities == old(db.identitySet.identities) - {slug}
  {
    if slug !in db.documentMap {
      return;
    }
    InStepAfterRemove(db.documentMap, db.contentsMap, db.identitySet.identities.Keys, db.searchIndex, slug);
    db.documentMap := db.documentMap - {slug};
    db.contentsMap := db.contentsMap - {slug};
    var _ := db.identitySet.Delete(slug);
    db.searchIndex := db.searchIndex - multiset{slug};
  }

  // ---------------------------------------------------------------------
  // What the derived record states
  // ---------------------------------------------------------------------

  /**
   * The stored `links` string splits back into the local hrefs, in order,
   * duplicates and `#` fragments kept, provided no href holds a space.
   */
  lemma LinksSplitBack(slug: string, front: FrontMatter, text: string, hrefs: seq<string>)
    requires forall k :: 0 <= k < |hrefs| ==> ' ' !in hrefs[k]
    requires LocalLinks(hrefs) != []
    ensures Split(DeriveNote(slug, front, text, hrefs).links, ' ') == LocalLinks(hrefs)
  {
    var links := LocalLinks(hrefs);
    forall k | 0 <= k < |links| ensures ' ' !in links[k] {
      assert links[k] in hrefs;
    }
    SplitJoin(links, ' ');
  }

  /**
   * The stored `names` string lists the slug first and then each alias
   * not seen before, each once, provided none holds a space.
   */
  lemma NamesSplitBack(slug: string, front: FrontMatter, text: string, hrefs: seq<string>)
    requires ' ' !in slug && forall k :: 0 <= k < |front.aliases| ==> ' ' !in front.aliases[k]
    ensures var names := Split(DeriveNote(slug, front, text, hrefs).names, ' ');
      && names == Dedup([slug] + front.aliases)
      && names[0] == slug
      && NoDuplicates(names)
      && forall w :: w in names <==> w == slug || w in front.aliases
  {
    var all := [slug] + front.aliases;
    var names := Dedup(all);
    forall k | 0 <= k < |names| ensures ' ' !in names[k] {
      assert names[k] in all;
    }
    DedupHead(slug, front.aliases);
    SplitJoin(names, ' ');
  }

  /** The first element of a sequence stays first after duplicates are collapsed. */
  lemma DedupHead<T(!new)>(x: T, s: seq<T>)
    ensures |Dedup([x] + s)| >= 1 && Dedup([x] + s)[0] == x
  {
    var xs := [x] + s;
    assert xs[0] == x && xs[1..] == s;
    assert AddLast([], x) == [x];
    assert Dedup(xs) == DedupInto([x], s);
    assert [x] <= DedupInto([x], s);
  }

  /**
   * Without a front-matter title, the title is the first sentence of the
   * text (plus the topic suffix), the body is the trimmed rest, and the
   * excerpt is the body's first 256 characters.
   */
  lemma DerivedTitleAndBody(slug: string, front: FrontMatter, text: string, hrefs: seq<string>)
    requires front.title == "" && TitleMatch(text).Some?
    ensures var n := DeriveNote(slug, front, text, hrefs);
      var e := TitleMatch(text).value;
      && n.title == TopicTitle(text[..e], front.topic)
      && n.text == Trim(text[e..])
      && n.excerpt <= n.text && Length(n.excerpt) <= ExcerptLength
      && (forall j :: 0 <= j < e ==> !IsLineTerminator(text[j]))
  {
    DerivedTitleIsFirstSentence(text);
  }
}
