/**
 * The reindex pass of the service (service/src/NotesManager.ts): a
 * sequential reconciliation of the database against a scan of the notes
 * source, and the one-note update.
 */
module NotesManager {
  import opened Options
  import opened Seqs
  import opened Identities
  import opened NotesDatabase
  import opened IndexNote

  /** The stored sources after a pass has read each slug of `scanned` in turn. */
  function Reread(before: map<string, string>, scanned: seq<string>, read: string -> string): map<string, string>
    decreases |scanned|
  {
    if scanned == [] then before
    else Reread(before, scanned[..|scanned| - 1], read)[scanned[|scanned| - 1] := read(scanned[|scanned| - 1])]
  }

  /** Reading one more slug overrides its source. */
  lemma RereadStep(before: map<string, string>, scanned: seq<string>, x: string, read: string -> string)
    ensures Reread(before, scanned + [x], read) == Reread(before, scanned, read)[x := read(x)]
  {
    assert (scanned + [x])[..|scanned|] == scanned;
  }

  /** After the reads, a slug has a source when it had one before or was read; a slug read has what was read. */
  lemma {:induction false} RereadHas(before: map<string, string>, scanned: seq<string>, read: string -> string, x: string)
    ensures x in Reread(before, scanned, read) <==> x in before || x in scanned
    ensures x in Reread(before, scanned, read) ==>
      Reread(before, scanned, read)[x] == if x in scanned then read(x) else before[x]
    decreases |scanned|
  {
    if scanned != [] {
      var earlier := scanned[..|scanned| - 1];
      assert scanned == earlier + [scanned[|scanned| - 1]];
      RereadHas(before, earlier, read, x);
    }
  }

  /**
   * One iteration of the scan throws, given the sources stored so far,
   * when `source.read` throws, or when the stored source is not the one
   * read and gray-matter throws on it.
   */
  predicate Throws(stored: map<string, string>, slug: string, read: string -> string,
                   readThrows: string -> bool, libs: Libraries)
  {
    readThrows(slug) || (!(slug in stored && stored[slug] == read(slug)) && libs.parseThrows(read(slug)))
  }

  /** The `j`-th iteration of a scan throws, after the slugs before it were read. */
  predicate ThrowsAt(before: map<string, string>, scan: seq<string>, j: nat, read: string -> string,
                     readThrows: string -> bool, libs: Libraries)
    requires j < |scan|
  {
    Throws(Reread(before, scan[..j], read), scan[j], read, readThrows, libs)
  }

  /** The position of the iteration at which the pass over `scanned` throws, if there is one. */
  function FirstThrow(before: map<string, string>, scanned: seq<string>, read: string -> string,
                      readThrows: string -> bool, libs: Libraries): (k: Option<nat>)
    ensures k.Some? ==> k.value < |scanned|
    decreases |scanned|
  {
    if scanned == [] then None
    else
      var earlier := scanned[..|scanned| - 1];
      var k := FirstThrow(before, earlier, read, readThrows, libs);
      if k.Some? then k
      else if Throws(Reread(before, earlier, read), scanned[|scanned| - 1], read, readThrows, libs) then Some(|scanned| - 1)
      else None
  }

  lemma FirstThrowStep(before: map<string, string>, scanned: seq<string>, x: string, read: string -> string,
                       readThrows: string -> bool, libs: Libraries)
    ensures FirstThrow(before, scanned + [x], read, readThrows, libs)
            == if FirstThrow(before, scanned, read, readThrows, libs).Some? then FirstThrow(before, scanned, read, readThrows, libs)
               else if Throws(Reread(before, scanned, read), x, read, readThrows, libs) then Some(|scanned|)
               else None
  {
    assert (scanned + [x])[..|scanned|] == scanned;
  }

  /** Once an iteration has thrown, reading more slugs does not change where the pass threw. */
  lemma {:induction false} FirstThrowSticks(before: map<string, string>, a: seq<string>, b: seq<string>,
                                            read: string -> string, readThrows: string -> bool, libs: Libraries)
    requires FirstThrow(before, a, read, readThrows, libs).Some?
    ensures FirstThrow(before, a + b, read, readThrows, libs) == FirstThrow(before, a, read, readThrows, libs)
    decreases |b|
  {
    if b == [] {
      assert a + b == a;
    } else {
      var init := b[..|b| - 1];
      FirstThrowSticks(before, a, init, read, readThrows, libs);
      assert a + b == (a + init) + [b[|b| - 1]];
      FirstThrowStep(before, a + init, b[|b| - 1], read, readThrows, libs);
    }
  }

  /**
   * After iteration `i` of a pass that has not thrown yet, the pass throws
   * at `i` when that iteration throws, and has not thrown yet otherwise.
   */
  lemma ThrowOrGoOn(before: map<string, string>, scan: seq<string>, i: nat, read: string -> string,
                    readThrows: string -> bool, libs: Libraries)
    requires i < |scan| && FirstThrow(before, scan[..i], read, readThrows, libs).None?
    ensures Throws(Reread(before, scan[..i], read), scan[i], read, readThrows, libs) ==>
      FirstThrow(before, scan, read, readThrows, libs) == Some(i)
    ensures !Throws(Reread(before, scan[..i], read), scan[i], read, readThrows, libs) ==>
      FirstThrow(before, scan[..i + 1], read, readThrows, libs).None?
  {
    PrefixStep(scan, i);
    FirstThrowStep(before, scan[..i], scan[i], read, readThrows, libs);
    if Throws(Reread(before, scan[..i], read), scan[i], read, readThrows, libs) {
      FirstThrowSticks(before, scan[..i + 1], scan[i + 1..], read, readThrows, libs);
      assert scan[..i + 1] + scan[i + 1..] == scan;
    }
  }

  /** Whether an iteration throws depends only on the slugs up to it. */
  lemma ThrowsAtPrefix(before: map<string, string>, scan: seq<string>, j: nat, n: nat, read: string -> string,
                       readThrows: string -> bool, libs: Libraries)
    requires j < n <= |scan|
    ensures ThrowsAt(before, scan, j, read, readThrows, libs) == ThrowsAt(before, scan[..n], j, read, readThrows, libs)
  {
    assert scan[..n][..j] == scan[..j];
  }

  /**
   * The pass throws at the first iteration that throws: it goes through
   * exactly when no iteration throws, and when it throws at `k`, iteration
   * `k` throws and none before it does.
   */
  lemma {:induction false} FirstThrowIsFirst(before: map<string, string>, scan: seq<string>, read: string -> string,
                                             readThrows: string -> bool, libs: Libraries)
    ensures FirstThrow(before, scan, read, readThrows, libs).None? <==>
      forall j :: 0 <= j < |scan| ==> !ThrowsAt(before, scan, j, read, readThrows, libs)
    ensures FirstThrow(before, scan, read, readThrows, libs).Some? ==>
      var k := FirstThrow(before, scan, read, readThrows, libs).value;
      && ThrowsAt(before, scan, k, read, readThrows, libs)
      && forall j :: 0 <= j < k ==> !ThrowsAt(before, scan, j, read, readThrows, libs)
    decreases |scan|
  {
    if scan != [] {
      var n := |scan| - 1;
      var earlier := scan[..n];
      FirstThrowIsFirst(before, earlier, read, readThrows, libs);
      assert ThrowsAt(before, scan, n, read, readThrows, libs)
             == Throws(Reread(before, earlier, read), scan[n], read, readThrows, libs);
      forall j | 0 <= j < n
        ensures ThrowsAt(before, scan, j, read, readThrows, libs) == ThrowsAt(before, earlier, j, read, readThrows, libs)
      {
        ThrowsAtPrefix(before, scan, j, n, read, readThrows, libs);
      }
    }
  }

  /** A pass that goes through read every scanned slug without `source.read` throwing. */
  lemma PassReadAll(before: map<string, string>, scan: seq<string>, read: string -> string,
                    readThrows: string -> bool, libs: Libraries)
    requires FirstThrow(before, scan, read, readThrows, libs).None?
    ensures forall j :: 0 <= j < |scan| ==> !readThrows(scan[j])
  {
    FirstThrowIsFirst(before, scan, read, readThrows, libs);
    forall j | 0 <= j < |scan| ensures !readThrows(scan[j]) {
      assert !ThrowsAt(before, scan, j, read, readThrows, libs);
    }
  }

  /** The scanned slugs unknown to the id set before the pass: what `added` counts. */
  function AddedSlugs(known: set<string>, scanned: seq<string>): set<string> {
    Elements(scanned) - known
  }

  /**
   * The scanned slugs known to the id set before the pass whose stored
   * source, if any, is not the one read: what `changed` counts. A known id
   * without a source (its front matter threw in an earlier pass) counts.
   */
  function ChangedSlugs(before: map<string, string>, known: set<string>, scanned: seq<string>,
                        read: string -> string): set<string>
  {
    set s | s in Elements(scanned) * known && !(s in before && before[s] == read(s))
  }

  /**
   * One more slug counts as added exactly when it was unknown before the
   * pass and was not read earlier in it.
   */
  lemma AddedStep(known: set<string>, scanned: seq<string>, x: string)
    ensures |AddedSlugs(known, scanned + [x])|
            == |AddedSlugs(known, scanned)| + (if x !in known && x !in scanned then 1 else 0)
  {
    ElementsAppend(scanned, x);
    var earlier := AddedSlugs(known, scanned);
    if x !in known && x !in scanned {
      assert x !in earlier;
      assert AddedSlugs(known, scanned + [x]) == earlier + {x};
    } else if x in scanned {
      assert Elements(scanned + [x]) == Elements(scanned);
    } else {
      assert Elements(scanned + [x]) - known == Elements(scanned) - known;
    }
  }

  /**
   * One more slug counts as changed exactly when it was known before the
   * pass without the source read, and was not read earlier in it.
   */
  lemma ChangedStep(before: map<string, string>, known: set<string>, scanned: seq<string>, x: string,
                    read: string -> string)
    ensures |ChangedSlugs(before, known, scanned + [x], read)|
            == |ChangedSlugs(before, known, scanned, read)|
               + (if x !in scanned && x in known && !(x in before && before[x] == read(x)) then 1 else 0)
  {
    ElementsAppend(scanned, x);
    var earlier := ChangedSlugs(before, known, scanned, read);
    if x !in scanned && x in known && !(x in before && before[x] == read(x)) {
      assert x !in earlier;
      assert ChangedSlugs(before, known, scanned + [x], read) == earlier + {x};
    } else if x in scanned {
      assert Elements(scanned + [x]) == Elements(scanned);
    } else {
      assert ChangedSlugs(before, known, scanned + [x], read) == earlier;
    }
  }

  /**
   * The counters of a pass after the slugs of `scanned`, in turn: a slug
   * whose stored source is the one read counts in neither; any other
   * counts as changed when the id set has it (known before the pass or
   * read earlier in it) and as added otherwise.
   */
  function PassCounts(before: map<string, string>, known: set<string>, scanned: seq<string>,
                      read: string -> string): (counts: (nat, nat))
    decreases |scanned|
  {
    if scanned == [] then (0, 0)
    else
      var earlier := scanned[..|scanned| - 1];
      var x := scanned[|scanned| - 1];
      var (added, changed) := PassCounts(before, known, earlier, read);
      var stored := Reread(before, earlier, read);
      if x in stored && stored[x] == read(x) then (added, changed)
      else if x in known || x in earlier then (added, changed + 1)
      else (added + 1, changed)
  }

  /** One more slug: the step of the pass the counters make. */
  lemma PassCountsStep(before: map<string, string>, known: set<string>, scanned: seq<string>, x: string,
                       read: string -> string)
    ensures var (added, changed) := PassCounts(before, known, scanned, read);
      var stored := Reread(before, scanned, read);
      PassCounts(before, known, scanned + [x], read)
      == if x in stored && stored[x] == read(x) then (added, changed)
         else if x in known || x in scanned then (added, changed + 1)
         else (added + 1, changed)
  {
    assert (scanned + [x])[..|scanned|] == scanned;
  }

  /**
   * What one `indexNote` call tells the counters: a slug indexed anew counts
   * as changed when the id set had it and as added otherwise, which is the
   * step `PassCounts` takes for one more slug.
   */
  lemma CountStep(before: map<string, string>, known: set<string>, scanned: seq<string>, slug: string,
                  read: string -> string, stored: map<string, string>, added: nat, changed: nat,
                  indexed: bool, existedBefore: bool)
    requires stored == Reread(before, scanned, read)
    requires (added, changed) == PassCounts(before, known, scanned, read)
    requires existedBefore == (slug in known || slug in scanned)
    requires indexed == !(slug in stored && stored[slug] == read(slug))
    ensures PassCounts(before, known, scanned + [slug], read)
            == if !indexed then (added, changed) else if existedBefore then (added, changed + 1) else (added + 1, changed)
  {
    PassCountsStep(before, known, scanned, slug, read);
  }

  /**
   * `added` is the number of distinct scanned slugs unknown before the
   * pass, and `changed` the number of distinct scanned slugs known before
   * it whose source then was not the one read, when every slug with a
   * source was known.
   */
  lemma {:induction false} PassCountsCountSlugs(before: map<string, string>, known: set<string>,
                                                scanned: seq<string>, read: string -> string)
    requires before.Keys <= known
    ensures PassCounts(before, known, scanned, read)
            == (|AddedSlugs(known, scanned)|, |ChangedSlugs(before, known, scanned, read)|)
    decreases |scanned|
  {
    if scanned != [] {
      var earlier := scanned[..|scanned| - 1];
      var x := scanned[|scanned| - 1];
      assert scanned == earlier + [x];
      PassCountsCountSlugs(before, known, earlier, read);
      RereadHas(before, earlier, read, x);
      AddedStep(known, earlier, x);
      ChangedStep(before, known, earlier, x, read);
    }
  }

  /**
   * Once the ids left over are unindexed (those among them with a source
   * lose it), exactly the scanned slugs remain, each with what was read.
   */
  lemma RereadWithoutExtras(before: map<string, string>, known: set<string>, scan: seq<string>, read: string -> string)
    requires before.Keys <= known
    ensures Reread(before, scan, read) - (known - Elements(scan)) == map s | s in scan :: read(s)
  {
    var m := Reread(before, scan, read) - (known - Elements(scan));
    var n := map s | s in scan :: read(s);
    forall x ensures (x in m <==> x in n) && (x in m ==> m[x] == n[x]) {
      RereadHas(before, scan, read, x);
    }
  }

  /**
   * The ids after a pass that goes through: the scanned slugs, and the ids
   * known before it without a source, which unindexing leaves alone.
   */
  lemma IdsAfterPass(before: map<string, string>, known: set<string>, scan: seq<string>, read: string -> string)
    requires before.Keys <= known
    ensures (known + Elements(scan)) - ((known - Elements(scan)) * Reread(before, scan, read).Keys)
            == Elements(scan) + (known - before.Keys)
  {
    forall x ensures x in Reread(before, scan, read) <==> x in before || x in scan {
      RereadHas(before, scan, read, x);
    }
  }

  /**
   * The ids known before the pass that the scan did not produce, in the
   * order they were known: distinct, and exactly the known ids not scanned.
   */
  lemma LeftOver(known: seq<string>, scan: seq<string>)
    requires NoDuplicates(known)
    ensures var extras := RemoveAll(known, Elements(scan));
      && NoDuplicates(extras)
      && Elements(extras) == Elements(known) - Elements(scan)
      && |extras| == |Elements(known) - Elements(scan)|
  {
    var extras := RemoveAll(known, Elements(scan));
    DistinctCardinality(extras);
  }

  /**
   * `derive` gives the record `indexNote` stores, without `publicOnly`, for
   * a slug and its source. (The trigger keeps the record derivation folded
   * until a record `indexNote` stored is in view.)
   */
  ghost predicate DerivesAsIndexer(derive: (string, string) -> Note, libs: Libraries) {
    forall id, source {:trigger NoteFor(id, source, libs)} :: derive(id, source) == NoteFor(id, source, libs)
  }

  /** With `derive` the indexer's derivation, the derived records of the scanned slugs are the indexer's. */
  lemma IndexerRecords(scan: seq<string>, read: string -> string, derive: (string, string) -> Note, libs: Libraries)
    requires DerivesAsIndexer(derive, libs)
    ensures (map s | s in scan :: derive(s, read(s))) == map s | s in scan :: NoteFor(s, read(s), libs)
  {
  }

  /** The record `derive` gives for each stored source. */
  function Records(contents: map<string, string>, derive: (string, string) -> Note): (documents: map<string, Note>)
    ensures documents.Keys == contents.Keys
  {
    map id | id in contents :: derive(id, contents[id])
  }

  /** Storing one more source stores the record derived from it, and no other record changes. */
  lemma RecordsAfterStore(contents: map<string, string>, derive: (string, string) -> Note, slug: string, source: string)
    ensures Records(contents[slug := source], derive) == Records(contents, derive)[slug := derive(slug, source)]
  {
  }

  /** Dropping a source drops its record, and no other record changes. */
  lemma RecordsAfterRemove(contents: map<string, string>, derive: (string, string) -> Note, slug: string)
    ensures Records(contents - {slug}, derive) == Records(contents, derive) - {slug}
  {
  }

  /**
   * What the manager adds to the database's own invariant: each record is
   * the one `derive` gives for its stored source. (The manager never
   * indexes with `publicOnly`; an id whose front matter threw stays in the
   * id set without a record.)
   */
  ghost predicate Derived(documents: map<string, Note>, contents: map<string, string>,
                          derive: (string, string) -> Note)
  {
    documents == Records(contents, derive)
  }

  /** What one `indexNote` call without `publicOnly` does to the sources and to `Derived`. */
  lemma DerivedAfterIndex(documents: map<string, Note>, contents: map<string, string>,
                          derive: (string, string) -> Note, slug: string, source: string, indexed: bool, threw: bool,
                          documents': map<string, Note>, contents': map<string, string>)
    requires Derived(documents, contents, derive) && contents.Keys == documents.Keys
    requires threw ==> !IsCurrent(documents, contents, slug, source)
    requires indexed == (!IsCurrent(documents, contents, slug, source) && !threw)
    requires !indexed ==> documents' == documents && contents' == contents
    requires indexed ==> documents' == documents[slug := derive(slug, source)] && contents' == contents[slug := source]
    ensures Derived(documents', contents', derive)
    ensures !threw ==> contents' == contents[slug := source]
    ensures threw ==> contents' == contents
  {
    RecordsAfterStore(contents, derive, slug, source);
    if !indexed && !threw {
      assert contents[slug := source] == contents;
    }
  }

  lemma DerivedAfterRemove(documents: map<string, Note>, contents: map<string, string>,
                           derive: (string, string) -> Note, slug: string)
    requires Derived(documents, contents, derive)
    ensures Derived(documents - {slug}, contents - {slug}, derive)
  {
    RecordsAfterRemove(contents, derive, slug);
  }

  /** The records of a source per scanned slug are the derived records of exactly those slugs. */
  lemma RecordsOfScan(scan: seq<string>, read: string -> string, derive: (string, string) -> Note)
    ensures Records(map s | s in scan :: read(s), derive) == map s | s in scan :: derive(s, read(s))
  {
  }

  /**
   * A second pass over an unchanged source, after one that went through,
   * goes through too, and finds nothing to add and nothing changed; it
   * counts as removed exactly the ids without a source that were not
   * scanned (`stale`: ids whose front matter threw before), every time.
   */
  lemma SecondPassQuiet(scan: seq<string>, read: string -> string, readThrows: string -> bool, libs: Libraries,
                        stale: set<string>)
    requires forall j :: 0 <= j < |scan| ==> !readThrows(scan[j])
    ensures var after := map s | s in scan :: read(s);
      var known := Elements(scan) + stale;
      && FirstThrow(after, scan, read, readThrows, libs).None?
      && AddedSlugs(known, scan) == {}
      && ChangedSlugs(after, known, scan, read) == {}
      && known - Elements(scan) == stale - Elements(scan)
  {
    var after := map s | s in scan :: read(s);
    FirstThrowIsFirst(after, scan, read, readThrows, libs);
    forall j | 0 <= j < |scan| ensures !ThrowsAt(after, scan, j, read, readThrows, libs) {
      RereadHas(after, scan[..j], read, scan[j]);
    }
  }

  /**
   * Unindexing the next left-over id: when it still has a source it loses
   * it and its place in the id set, which extends the batch dropped so
   * far; otherwise nothing changes, and the batch is the same.
   */
  lemma DropOne(contents: map<string, string>, ids: set<string>, done: set<string>, slug: string)
    ensures slug in contents - done ==>
      && (contents - done) - {slug} == contents - (done + {slug})
      && (ids - (done * contents.Keys)) - {slug} == ids - ((done + {slug}) * contents.Keys)
    ensures slug !in contents - done ==>
      && contents - done == contents - (done + {slug})
      && ids - (done * contents.Keys) == ids - ((done + {slug}) * contents.Keys)
  {
  }

  /** The outcome of a pass: the three counters, or the slug whose iteration threw. */
  datatype PassResult = Done(added: nat, changed: nat, removed: nat) | Aborted(slug: string)

  class NotesManager {
    /** `db`: the database the manager keeps up to date. */
    const db: NotesDatabase
    /** The front matter and markdown parsers the indexer applies. */
    const libs: Libraries
    /** The indexer's record derivation under `libs`, as a value the invariant can name. */
    ghost const derive: (string, string) -> Note

    /**
     * The database is valid and every record is the one derived from its
     * stored source.
     */
    ghost predicate Valid()
      reads this, db, db.identitySet
    {
      && db.Valid()
      && Derived(db.documentMap, db.contentsMap, derive)
      && DerivesAsIndexer(derive, libs)
    }

    /** The ids in the database's id set. */
    ghost function Ids(): set<string>
      reads this, db, db.identitySet
    {
      db.identitySet.identities.Keys
    }

    /** `new NotesManager(source)`, with an empty database. */
    constructor (libs: Libraries)
      ensures Valid() && fresh(db) && fresh(db.identitySet)
      ensures db.documentMap == map[] && db.contentsMap == map[] && Ids() == {}
      ensures this.libs == libs
    {
      this.libs := libs;
      derive := (id, source) => NoteFor(id, source, libs);
      db := new NotesDatabase();
    }

    /**
     * `doUpdateIndex`, where `source.read(slug)` throws for the slugs where
     * `readThrows` holds and gives `read(slug)` otherwise: index every slug
     * of `scan` with what is read, then unindex every id known before the
     * pass that the scan did not produce. When an iteration throws, the
     * pass stops there, with the slugs before it indexed and nothing
     * unindexed. Otherwise the database holds exactly the scanned notes,
     * the ids without a source that were not scanned stay, and `added`
     * counts the scanned slugs the id set did not have, `changed` those it
     * had whose source was not the one read, and `removed` the known ids
     * not scanned.
     */
    method DoUpdateIndex(scan: seq<string>, read: string -> string, readThrows: string -> bool)
      returns (result: PassResult)
      requires Valid()
      modifies db, db.identitySet
      ensures Valid()
      ensures result.Done? <==> FirstThrow(old(db.contentsMap), scan, read, readThrows, libs).None?
      ensures result.Done? ==>
        && db.contentsMap == (map s | s in scan :: read(s))
        && db.documentMap == (map s | s in scan :: NoteFor(s, read(s), libs))
        && Ids() == Elements(scan) + (old(Ids()) - old(db.contentsMap).Keys)
        && result.added == |AddedSlugs(old(Ids()), scan)|
        && result.changed == |ChangedSlugs(old(db.contentsMap), old(Ids()), scan, read)|
        && result.removed == |old(Ids()) - Elements(scan)|
      ensures result.Aborted? ==>
        var k := FirstThrow(old(db.contentsMap), scan, read, readThrows, libs).value;
        && result.slug == scan[k]
        && db.contentsMap == Reread(old(db.contentsMap), scan[..k], read)
        && Ids() == old(Ids()) + Elements(scan[..k]) + (if readThrows(scan[k]) then {} else {scan[k]})
    {
      ghost var before, known := db.contentsMap, Ids();
      assert Elements(db.identitySet.order) == known;
      assert before.Keys <= known by {
        assert db.contentsMap.Keys == db.documentMap.Keys;
      }
      LeftOver(db.identitySet.order, scan);
      var added, changed, extraNotes, threwAt := IndexScan(scan, read, readThrows);
      if threwAt.Some? {
        return Aborted(scan[threwAt.value]);
      }
      UnindexAll(extraNotes);
      RereadWithoutExtras(before, known, scan, read);
      IdsAfterPass(before, known, scan, read);
      PassCountsCountSlugs(before, known, scan, read);
      RecordsOfScan(scan, read, derive);
      IndexerRecords(scan, read, derive, libs);
      return Done(added, changed, |extraNotes|);
    }

    /**
     * The loop over `scan`: `indexNote` on each slug with what is read for
     * it, counting, and dropping the slug from the ids left over; it stops
     * at the first iteration that throws.
     */
    method IndexScan(scan: seq<string>, read: string -> string, readThrows: string -> bool)
      returns (added: nat, changed: nat, extraNotes: seq<string>, threwAt: Option<nat>)
      requires Valid()
      modifies db, db.identitySet
      ensures Valid()
      ensures threwAt == FirstThrow(old(db.contentsMap), scan, read, readThrows, libs)
      ensures threwAt.None? ==>
        && db.contentsMap == Reread(old(db.contentsMap), scan, read)
        && Ids() == old(Ids()) + Elements(scan)
        && extraNotes == RemoveAll(old(db.identitySet.order), Elements(scan))
        && (added, changed) == PassCounts(old(db.contentsMap), old(Ids()), scan, read)
      ensures threwAt.Some? ==>
        var k := threwAt.value;
        && db.contentsMap == Reread(old(db.contentsMap), scan[..k], read)
        && Ids() == old(Ids()) + Elements(scan[..k]) + (if readThrows(scan[k]) then {} else {scan[k]})
    {
      ghost var before, known, knownOrder := db.contentsMap, Ids(), db.identitySet.order;
      extraNotes := db.identitySet.order;
      added, changed := 0, 0;
      assert RemoveAll(knownOrder, Elements(scan[..0])) == knownOrder by {
        RemoveAllNone(knownOrder, Elements(scan[..0]));
      }
      for i := 0 to |scan|
        invariant Valid()
        invariant FirstThrow(before, scan[..i], read, readThrows, libs).None?
        invariant db.contentsMap == Reread(before, scan[..i], read)
        invariant Ids() == known + Elements(scan[..i])
        invariant extraNotes == RemoveAll(knownOrder, Elements(scan[..i]))
        invariant (added, changed) == PassCounts(before, known, scan[..i], read)
      {
        PrefixStep(scan, i);
        var threw;
        added, changed, extraNotes, threw := ScanSlug(scan[i], read, readThrows, before, known, scan[..i], knownOrder,
                                                     added, changed, extraNotes);
        ThrowOrGoOn(before, scan, i, read, readThrows, libs);
        if threw {
          return added, changed, extraNotes, Some(i);
        }
      }
      PrefixWhole(scan);
      threwAt := None;
    }

    /**
     * One iteration of the scan over `slug`, after the slugs of `scanned`:
     * `indexNote`, the counters, and `extraNotes.delete(slug)`; or the
     * throw of the read or of the parse.
     */
    method ScanSlug(slug: string, read: string -> string, readThrows: string -> bool,
                    ghost before: map<string, string>, ghost known: set<string>,
                    ghost scanned: seq<string>, ghost knownOrder: seq<string>,
                    added: nat, changed: nat, extraNotes: seq<string>)
      returns (added': nat, changed': nat, extraNotes': seq<string>, threw: bool)
      requires Valid()
      requires db.contentsMap == Reread(before, scanned, read)
      requires Ids() == known + Elements(scanned)
      requires extraNotes == RemoveAll(knownOrder, Elements(scanned))
      requires (added, changed) == PassCounts(before, known, scanned, read)
      modifies db, db.identitySet
      ensures Valid()
      ensures threw == Throws(Reread(before, scanned, read), slug, read, readThrows, libs)
      ensures threw ==>
        && db.contentsMap == Reread(before, scanned, read)
        && Ids() == known + Elements(scanned) + (if readThrows(slug) then {} else {slug})
      ensures !threw ==>
        && db.contentsMap == Reread(before, scanned + [slug], read)
        && Ids() == known + Elements(scanned + [slug])
        && extraNotes' == RemoveAll(knownOrder, Elements(scanned + [slug]))
        && (added', changed') == PassCounts(before, known, scanned + [slug], read)
    {
      ghost var stored := db.contentsMap;
      RereadStep(before, scanned, slug, read);
      RemoveAllThenValue(knownOrder, Elements(scanned), slug);
      ElementsAppend(scanned, slug);
      var indexed, existedBefore;
      indexed, existedBefore, threw := IndexScanned(slug, read, readThrows);
      added', changed', extraNotes' := added, changed, extraNotes;
      if threw {
        return;
      }
      CountStep(before, known, scanned, slug, read, stored, added, changed, indexed, existedBefore);
      extraNotes' := RemoveValue(extraNotes, slug);
      if indexed {
        if existedBefore {
          changed' := changed' + 1;
        } else {
          added' := added' + 1;
        }
      }
    }

    /**
     * One iteration of the scan: whether the id set has the slug, the read,
     * and `indexNote` on what is read. A read that throws changes nothing;
     * otherwise the slug joins the id set, and unless the parse throws its
     * source becomes the one read.
     */
    method IndexScanned(slug: string, read: string -> string, readThrows: string -> bool)
      returns (indexed: bool, existedBefore: bool, threw: bool)
      requires Valid()
      modifies db, db.identitySet
      ensures Valid()
      ensures existedBefore == (slug in old(Ids()))
      ensures threw == Throws(old(db.contentsMap), slug, read, readThrows, libs)
      ensures Ids() == old(Ids()) + (if readThrows(slug) then {} else {slug})
      ensures threw ==> db.contentsMap == old(db.contentsMap)
      ensures !threw ==> db.contentsMap == old(db.contentsMap)[slug := read(slug)]
      ensures !threw ==> indexed == !(slug in old(db.contentsMap) && old(db.contentsMap)[slug] == read(slug))
    {
      existedBefore := db.identitySet.Has(slug);
      if readThrows(slug) {
        return false, existedBefore, true;
      }
      ghost var documents, contents := db.documentMap, db.contentsMap;
      indexed, threw := IndexNote.IndexNote(db, slug, read(slug), false, libs);
      DerivedAfterIndex(documents, contents, derive, slug, read(slug), indexed, threw,
                        db.documentMap, db.contentsMap);
    }

    /**
     * `index(id)`: read that one slug and index it; a throw of the read or
     * of the parse reaches the caller. Otherwise its source and record are
     * the ones read and derived now; no other record changes.
     */
    method Index(id: string, read: string -> string, readThrows: string -> bool) returns (threw: bool)
      requires Valid()
      modifies db, db.identitySet
      ensures Valid()
      ensures threw == Throws(old(db.contentsMap), id, read, readThrows, libs)
      ensures Ids() == old(Ids()) + (if readThrows(id) then {} else {id})
      ensures threw ==> db.contentsMap == old(db.contentsMap) && db.documentMap == old(db.documentMap)
      ensures !threw ==> db.contentsMap == old(db.contentsMap)[id := read(id)]
      ensures !threw ==> db.documentMap == old(db.documentMap)[id := NoteFor(id, read(id), libs)]
    {
      var _, _, t := IndexScanned(id, read, readThrows);
      threw := t;
      RecordsAfterStore(old(db.contentsMap), derive, id, read(id));
    }

    /**
     * The loop over the ids left over: `unindexNote` on each, in order. An
     * id with a record loses it, its source and its place in the id set;
     * an id without one stays.
     */
    method UnindexAll(extras: seq<string>)
      requires Valid()
      modifies db, db.identitySet
      ensures Valid()
      ensures db.contentsMap == old(db.contentsMap) - Elements(extras)
      ensures Ids() == old(Ids()) - (Elements(extras) * old(db.contentsMap).Keys)
    {
      for j := 0 to |extras|
        invariant Valid()
        invariant db.contentsMap == old(db.contentsMap) - Elements(extras[..j])
        invariant Ids() == old(Ids()) - (Elements(extras[..j]) * old(db.contentsMap).Keys)
      {
        var slug := extras[j];
        PrefixStep(extras, j);
        ElementsAppend(extras[..j], slug);
        DropOne(old(db.contentsMap), old(Ids()), Elements(extras[..j]), slug);
        assert db.contentsMap.Keys == db.documentMap.Keys;
        ghost var documents, contents := db.documentMap, db.contentsMap;
        if slug in db.documentMap {
          DerivedAfterRemove(documents, contents, derive, slug);
        }
        UnindexNote(db, slug);
      }
      PrefixWhole(extras);
    }
  }
}
