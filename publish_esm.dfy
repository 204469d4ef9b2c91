/**
 * The older publishing worker of src/workers/publish.mjs: load the public
 * notes of the `git archive` tarball through an indexer, then reconcile
 * them with the stored publishing state. It adds no redirect files.
 */
module PublishEsm {
  import opened Options
  import opened Seqs
  import opened TextRules
  import opened OrderedMaps
  import opened TarSources
  import opened PublishDiff
  import PublishWorker

  /**
   * The tar filter: a `File` entry whose whole path matches `/^[^/]+\.md$/`.
   * Such a path is its own base name, so the newer worker's filter, which
   * matches the base name, takes every entry this one takes.
   */
  function Listed(e: TarEntry): (r: bool)
    ensures r ==> PublishWorker.Listed(e)
  {
    if e.isFile && MarkdownName(e.path) then
      PublishWorker.ListedBaseName(e.path);
      true
    else false
  }

  /**
   * What the accept loop makes of an entry: unlisted entries never reach
   * it; a listed one goes to the indexer, `index`, with its path and
   * contents, and the indexer's answer is taken as it is.
   */
  function Accept(index: (string, string) -> Option<string>): TarEntry -> Option<string> {
    (e: TarEntry) => if Listed(e) then index(e.path, e.content) else None
  }

  /** `loadPublicNotes()`, proved against `Sources`. */
  method LoadPublicNotes(entries: seq<TarEntry>, index: (string, string) -> Option<string>)
    returns (sourceMap: OrderedMap<string>)
    ensures sourceMap == Sources(entries, Accept(index))
  {
    sourceMap := Empty();
    for i := 0 to |entries|
      invariant sourceMap == Sources(entries[..i], Accept(index))
    {
      PrefixStep(entries, i);
      var entry := entries[i];
      if !Listed(entry) {
        continue;
      }
      var id := index(entry.path, entry.content);
      if id.Some? && id.value != "" {
        sourceMap := sourceMap.Set(id.value, entry.content);
      }
    }
    PrefixWhole(entries);
  }

  /**
   * Only top-level files are listed: a note in a sub-directory, which the
   * newer worker lists by its base name, never reaches this indexer.
   */
  lemma NestedNotListed()
    ensures var e := TarEntry("notes/a.md", true, "");
      !Listed(e) && PublishWorker.Listed(e)
  {
    var p := "notes/a.md";
    assert p[5] == '/';
    assert DropTrailingSlashes(p) == p;
    TextRules.LastComponentAfterSlash("notes/", "a.md");
    assert "notes/" + "a.md" == p;
  }

  /** `main()` up to the save decision. */
  method Publish(entries: seq<TarEntry>, oldState: PublishingState, index: (string, string) -> Option<string>,
                 hash: string -> string)
    returns (sourceMap: OrderedMap<string>, plan: PublishDiff.Plan)
    requires oldState.files.Valid()
    ensures sourceMap == Sources(entries, Accept(index))
    ensures forall id :: id in plan.toUpload <==> id in sourceMap.values && oldState.files.Get(id) != Some(hash(sourceMap.values[id]))
    ensures forall id :: id in plan.toDelete <==> id in oldState.files.values && id !in sourceMap.values
    ensures plan.toUpload * plan.toDelete == {}
    ensures plan.newState.files.Valid()
    ensures plan.newState.files.values == map id | id in sourceMap.values :: hash(sourceMap.values[id])
    ensures plan.save <==> plan.toUpload != {} || plan.toDelete != {}
  {
    sourceMap := LoadPublicNotes(entries, index);
    plan := Reconcile(sourceMap, oldState, hash);
  }
}
