/**
 * The reconciliation both publishing workers (src/workers/publish.ts and
 * src/workers/publish.mjs) run after collecting their sources: hash every
 * source, plan the uploads of changed files and the deletions of files
 * that are gone, and derive the new publishing state from a copy of the
 * old one.
 */
module PublishDiff {
  import opened Options
  import opened Seqs
  import opened OrderedMaps

  /** The `files` of the stored `PublishingState`: the hash of each published id, in key order. */
  datatype PublishingState = PublishingState(files: OrderedMap<string>)

  /** What a run decides: the ids to upload, the ids to delete, the new state and whether to store it. */
  datatype Plan = Plan(toUpload: set<string>, toDelete: set<string>, newState: PublishingState, save: bool)

  /**
   * The two loops of `main`. The uploads are the ids whose hash differs from
   * the old state's (new ids included), the deletions the old ids without a
   * source, and the two never meet. The new files map exactly the source
   * ids to their hashes, and they equal the old ones exactly when nothing is
   * uploaded or deleted.
   */
  method Diff(sourceMap: OrderedMap<string>, oldFiles: OrderedMap<string>, hash: string -> string)
    returns (toUpload: set<string>, toDelete: set<string>, newFiles: OrderedMap<string>)
    requires sourceMap.Valid() && oldFiles.Valid()
    ensures newFiles.Valid()
    ensures forall id :: id in toUpload <==> id in sourceMap.values && oldFiles.Get(id) != Some(hash(sourceMap.values[id]))
    ensures forall id :: id in toDelete <==> id in oldFiles.values && id !in sourceMap.values
    ensures toUpload * toDelete == {}
    ensures newFiles.values == map id | id in sourceMap.values :: hash(sourceMap.values[id])
    ensures newFiles == oldFiles <==> toUpload == {} && toDelete == {}
  {
    var hashed;
    toUpload, hashed := HashSources(sourceMap, oldFiles, hash);
    toDelete, newFiles := DropGone(sourceMap, oldFiles, hashed);
    DiffOutcome(sourceMap, oldFiles, hash, toUpload, toDelete, newFiles);
  }

  /**
   * `for (const [id, source] of sourceMap)`: every source id that the old
   * files do not map to its hash is to be uploaded, with the new hash set.
   */
  method HashSources(sourceMap: OrderedMap<string>, oldFiles: OrderedMap<string>, hash: string -> string)
    returns (toUpload: set<string>, newFiles: OrderedMap<string>)
    requires sourceMap.Valid() && oldFiles.Valid()
    ensures newFiles.Valid()
    ensures forall id :: id in toUpload <==> id in sourceMap.values && oldFiles.Get(id) != Some(hash(sourceMap.values[id]))
    ensures forall k :: k in sourceMap.values ==> newFiles.Get(k) == Some(hash(sourceMap.values[k]))
    ensures forall k :: k !in sourceMap.values ==> newFiles.Get(k) == oldFiles.Get(k)
    ensures toUpload == {} ==> newFiles == oldFiles
  {
    var keys := sourceMap.keys;
    newFiles := oldFiles;
    toUpload := {};
    for i := 0 to |keys|
      invariant Hashing(keys[..i], sourceMap.values, oldFiles, hash) == (toUpload, newFiles)
    {
      PrefixStep(keys, i);
      var id := keys[i];
      var h := hash(sourceMap.values[id]);
      if oldFiles.Get(id) != Some(h) {
        toUpload := toUpload + {id};
        newFiles := newFiles.Set(id, h);
      }
    }
    PrefixWhole(keys);
    HashingOutcome(keys, sourceMap.values, oldFiles, hash);
  }

  /** The uploads and the files after hashing the sources of `ids` in turn. */
  function Hashing(ids: seq<string>, sources: map<string, string>, oldFiles: OrderedMap<string>,
                   hash: string -> string): (r: (set<string>, OrderedMap<string>))
    requires oldFiles.Valid() && forall k :: k in ids ==> k in sources
    ensures r.1.Valid()
    decreases |ids|
  {
    if ids == [] then ({}, oldFiles)
    else
      var (toUpload, files) := Hashing(ids[..|ids| - 1], sources, oldFiles, hash);
      var id := ids[|ids| - 1];
      var h := hash(sources[id]);
      if oldFiles.Get(id) != Some(h) then (toUpload + {id}, files.Set(id, h)) else (toUpload, files)
  }

  /** After hashing `ids`: which ids upload, and the new files of hashed ids and of the rest. */
  lemma {:induction false} HashingOutcome(ids: seq<string>, sources: map<string, string>, oldFiles: OrderedMap<string>,
                                          hash: string -> string)
    requires oldFiles.Valid() && forall k :: k in ids ==> k in sources
    ensures var (toUpload, files) := Hashing(ids, sources, oldFiles, hash);
      && (forall id :: id in toUpload <==> id in ids && oldFiles.Get(id) != Some(hash(sources[id])))
      && (forall k :: k in ids ==> files.Get(k) == Some(hash(sources[k])))
      && (forall k :: k !in ids ==> files.Get(k) == oldFiles.Get(k))
      && (toUpload == {} ==> files == oldFiles)
    decreases |ids|
  {
    if ids != [] {
      var front := ids[..|ids| - 1];
      assert ids == front + [ids[|ids| - 1]];
      HashingOutcome(front, sources, oldFiles, hash);
    }
  }

  /**
   * `for (const id of Object.keys(oldState.files))`: every old id without
   * a source is to be deleted, and leaves the new files.
   */
  method DropGone(sourceMap: OrderedMap<string>, oldFiles: OrderedMap<string>, hashed: OrderedMap<string>)
    returns (toDelete: set<string>, newFiles: OrderedMap<string>)
    requires sourceMap.Valid() && oldFiles.Valid() && hashed.Valid()
    ensures newFiles.Valid()
    ensures forall id :: id in toDelete <==> id in oldFiles.values && id !in sourceMap.values
    ensures forall k :: k in oldFiles.values && k !in sourceMap.values ==> newFiles.Get(k) == None
    ensures forall k :: k !in oldFiles.values || k in sourceMap.values ==> newFiles.Get(k) == hashed.Get(k)
    ensures toDelete == {} ==> newFiles == hashed
  {
    var oldKeys := oldFiles.keys;
    newFiles := hashed;
    toDelete := {};
    for j := 0 to |oldKeys|
      invariant Dropping(oldKeys[..j], sourceMap.values, hashed) == (toDelete, newFiles)
    {
      PrefixStep(oldKeys, j);
      var id := oldKeys[j];
      if id !in sourceMap.values {
        toDelete := toDelete + {id};
        newFiles := newFiles.Delete(id);
      }
    }
    PrefixWhole(oldKeys);
    DroppingOutcome(oldKeys, sourceMap.values, hashed);
  }

  /** The deletions and the files after checking the old ids of `ids` in turn. */
  function Dropping(ids: seq<string>, sources: map<string, string>, hashed: OrderedMap<string>)
    : (r: (set<string>, OrderedMap<string>))
    requires hashed.Valid()
    ensures r.1.Valid()
    decreases |ids|
  {
    if ids == [] then ({}, hashed)
    else
      var (toDelete, files) := Dropping(ids[..|ids| - 1], sources, hashed);
      var id := ids[|ids| - 1];
      if id !in sources then (toDelete + {id}, files.Delete(id)) else (toDelete, files)
  }

  /** After checking `ids`: which ids are deleted, gone from the files, and the files of the rest. */
  lemma {:induction false} DroppingOutcome(ids: seq<string>, sources: map<string, string>, hashed: OrderedMap<string>)
    requires hashed.Valid()
    ensures var (toDelete, files) := Dropping(ids, sources, hashed);
      && (forall id :: id in toDelete <==> id in ids && id !in sources)
      && (forall k :: k in ids && k !in sources ==> files.Get(k) == None)
      && (forall k :: k !in ids || k in sources ==> files.Get(k) == hashed.Get(k))
      && (toDelete == {} ==> files == hashed)
    decreases |ids|
  {
    if ids != [] {
      var front := ids[..|ids| - 1];
      assert ids == front + [ids[|ids| - 1]];
      DroppingOutcome(front, sources, hashed);
    }
  }

  /** What the loops' invariants amount to once both are done. */
  lemma DiffOutcome(sourceMap: OrderedMap<string>, oldFiles: OrderedMap<string>, hash: string -> string,
                    toUpload: set<string>, toDelete: set<string>, newFiles: OrderedMap<string>)
    requires sourceMap.Valid() && oldFiles.Valid() && newFiles.Valid()
    requires forall id :: id in toUpload <==> id in sourceMap.values && oldFiles.Get(id) != Some(hash(sourceMap.values[id]))
    requires forall id :: id in toDelete <==> id in oldFiles.values && id !in sourceMap.values
    requires forall k :: k in sourceMap.values ==> newFiles.Get(k) == Some(hash(sourceMap.values[k]))
    requires forall k :: k !in sourceMap.values ==> newFiles.Get(k) == None
    requires toUpload == {} && toDelete == {} ==> newFiles == oldFiles
    ensures toUpload * toDelete == {}
    ensures newFiles.values == map id | id in sourceMap.values :: hash(sourceMap.values[id])
    ensures newFiles == oldFiles <==> toUpload == {} && toDelete == {}
  {
    forall id | id in toUpload ensures newFiles.Get(id) != oldFiles.Get(id) {
      assert newFiles.Get(id) == Some(hash(sourceMap.values[id]));
    }
    forall id | id in toDelete ensures newFiles.Get(id) != oldFiles.Get(id) {
      assert newFiles.Get(id) == None && oldFiles.Get(id).Some?;
    }
  }

  /**
   * `JSON.stringify(oldState) !== JSON.stringify(newState)`: the state is
   * stored exactly when it changed, which is when a file is uploaded or
   * deleted.
   */
  function ShouldSave(oldState: PublishingState, newState: PublishingState): (save: bool)
    ensures save <==> oldState.files != newState.files
  {
    oldState != newState
  }

  /** The diff, the new state from a copy of the old one, and the save decision. */
  method Reconcile(sourceMap: OrderedMap<string>, oldState: PublishingState, hash: string -> string)
    returns (plan: Plan)
    requires sourceMap.Valid() && oldState.files.Valid()
    ensures forall id :: id in plan.toUpload <==> id in sourceMap.values && oldState.files.Get(id) != Some(hash(sourceMap.values[id]))
    ensures forall id :: id in plan.toDelete <==> id in oldState.files.values && id !in sourceMap.values
    ensures plan.toUpload * plan.toDelete == {}
    ensures plan.newState.files.Valid()
    ensures plan.newState.files.values == map id | id in sourceMap.values :: hash(sourceMap.values[id])
    ensures plan.save <==> plan.toUpload != {} || plan.toDelete != {}
  {
    var newState := oldState;
    var toUpload, toDelete, newFiles := Diff(sourceMap, oldState.files, hash);
    newState := newState.(files := newFiles);
    plan := Plan(toUpload, toDelete, newState, ShouldSave(oldState, newState));
  }
}
