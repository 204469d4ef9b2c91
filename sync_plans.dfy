/**
 * The two table syncs of service/scripts/publish.ts: compare the local
 * key/value pairs of the notes server with the rows of a Supabase table,
 * upload the keys whose remote value is missing or differs, in local
 * order, and delete the remote keys that are gone locally.
 */
module SyncPlans {
  import opened Options
  import opened Seqs
  import opened OrderedMaps

  /** `remote.get(k) !== value`: the remote value of a local key is missing or different. */
  function Outdated(local: OrderedMap<string>, remote: OrderedMap<string>): string -> bool {
    (k: string) => remote.Get(k) != local.Get(k)
  }

  /** `!local.has(k)`. */
  function Gone(local: OrderedMap<string>): string -> bool {
    (k: string) => !local.Has(k)
  }

  /** The two loops both syncs run: the local keys to upload, then the remote keys to delete. */
  method Differences(local: OrderedMap<string>, remote: OrderedMap<string>)
    returns (toUpload: seq<string>, toDelete: seq<string>)
    ensures toUpload == Filter(local.keys, Outdated(local, remote))
    ensures toDelete == Filter(remote.keys, Gone(local))
  {
    toUpload := Select(local.keys, Outdated(local, remote));
    toDelete := Select(remote.keys, Gone(local));
  }

  /** One such loop: `for (const k of keys) if (keep(k)) list.push(k)`. */
  method Select(keys: seq<string>, keep: string -> bool) returns (selected: seq<string>)
    ensures selected == Filter(keys, keep)
  {
    selected := [];
    for i := 0 to |keys|
      invariant selected == Filter(keys[..i], keep)
    {
      PrefixStep(keys, i);
      FilterAppend(keys[..i], [keys[i]], keep);
      var k := keys[i];
      if keep(k) {
        selected := selected + [k];
      }
    }
    PrefixWhole(keys);
  }

  /**
   * The uploads are exactly the local keys whose remote value is missing or
   * differs, the deletions exactly the remote keys with no local value; each
   * list names a key once, and no key is in both.
   */
  lemma DifferencesOutcome(local: OrderedMap<string>, remote: OrderedMap<string>)
    requires local.Valid() && remote.Valid()
    ensures var up := Filter(local.keys, Outdated(local, remote));
      var down := Filter(remote.keys, Gone(local));
      && (forall k :: k in up <==> k in local.values && remote.Get(k) != Some(local.values[k]))
      && (forall k :: k in down <==> k in remote.values && k !in local.values)
      && (forall k :: k in up ==> k !in down)
      && NoDuplicates(up) && NoDuplicates(down)
  {
    FilterDistinct(local.keys, Outdated(local, remote));
    FilterDistinct(remote.keys, Gone(local));
  }

  /** A note the server serves back: its version, if there is a note, and its source, if any. */
  datatype Fetched = Fetched(version: Option<string>, source: Option<string>)

  /** `upsert({ id, source, source_version: note.version })`. */
  datatype NoteUpsert = NoteUpsert(id: string, source: string, sourceVersion: string)

  /** `if (!note || !source) return`: a note is uploaded only with a note and a non-empty source. */
  predicate Uploadable(f: Fetched) {
    f.version.Some? && f.source.Some? && f.source.value != ""
  }

  /** The upserts the uploads of `ids` make, in order. */
  function Upserts(ids: seq<string>, fetch: string -> Fetched): (r: seq<NoteUpsert>)
    ensures |r| <= |ids|
    decreases |ids|
  {
    if ids == [] then []
    else
      var front := ids[..|ids| - 1];
      var id := ids[|ids| - 1];
      var f := fetch(id);
      Upserts(front, fetch) + if Uploadable(f) then [NoteUpsert(id, f.source.value, f.version.value)] else []
  }

  /**
   * An upsert is made exactly for each id whose fetch is uploadable, and
   * carries the fetched source and version.
   */
  lemma {:induction false} UpsertsOutcome(ids: seq<string>, fetch: string -> Fetched)
    ensures forall u :: u in Upserts(ids, fetch) <==>
      (u.id in ids && Uploadable(fetch(u.id))
       && u.source == fetch(u.id).source.value && u.sourceVersion == fetch(u.id).version.value)
    decreases |ids|
  {
    if ids != [] {
      var front := ids[..|ids| - 1];
      var id := ids[|ids| - 1];
      UpsertsOutcome(front, fetch);
      assert forall x :: x in ids <==> x in front || x == id;
    }
  }

  /**
   * `syncNoteContents`: the local notes map ids to versions, the remote
   * rows are `(id, source_version)` pairs made into a map (a repeated id
   * keeps its first place and its last version). Each note to upload is
   * fetched and upserted unless the fetch comes back without a note or a
   * source; each note to delete is deleted.
   */
  method SyncNoteContents(notes: OrderedMap<string>, rows: seq<(string, string)>, fetch: string -> Fetched)
    returns (upserts: seq<NoteUpsert>, deletes: seq<string>)
    ensures var remote := FromEntries(rows);
      && upserts == Upserts(Filter(notes.keys, Outdated(notes, remote)), fetch)
      && deletes == Filter(remote.keys, Gone(notes))
  {
    var remoteNotes := FromEntries(rows);
    var notesToUpload, notesToDelete := Differences(notes, remoteNotes);
    upserts := UploadNotes(notesToUpload, fetch);
    deletes := notesToDelete;
  }

  /** The upload loop: fetch each id, and upsert it unless the note or its source is missing. */
  method UploadNotes(ids: seq<string>, fetch: string -> Fetched) returns (upserts: seq<NoteUpsert>)
    ensures upserts == Upserts(ids, fetch)
  {
    upserts := [];
    for i := 0 to |ids|
      invariant upserts == Upserts(ids[..i], fetch)
    {
      PrefixStep(ids, i);
      var id := ids[i];
      var response := fetch(id);
      if response.version.None? || response.source.None? || response.source.value == "" {
        continue;
      }
      upserts := upserts + [NoteUpsert(id, response.source.value, response.version.value)];
    }
    PrefixWhole(ids);
  }

  /**
   * `syncSearchKeys`: the same comparison of the local search keys (key to
   * note id) with the remote `(search_key, note_id)` rows.
   */
  method SyncSearchKeys(searchKeys: OrderedMap<string>, rows: seq<(string, string)>)
    returns (keysToUpload: seq<string>, keysToDelete: seq<string>)
    ensures var remote := FromEntries(rows);
      && keysToUpload == Filter(searchKeys.keys, Outdated(searchKeys, remote))
      && keysToDelete == Filter(remote.keys, Gone(searchKeys))
  {
    var remoteSearchKeys := FromEntries(rows);
    keysToUpload, keysToDelete := Differences(searchKeys, remoteSearchKeys);
  }
}
