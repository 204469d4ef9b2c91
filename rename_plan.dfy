/**
 * The operation planning of the `/v2/rename` handler in src/serverV2.ts:
 * one pass over the search engine's document map that plans the rename
 * of the note `from` to `to` and a link update in every note linking to it.
 */
module RenamePlan {
  import opened Seqs
  import opened Strs
  import opened OrderedMaps
  import opened LibIndexer

  /**
   * `{ type: 'rename', id, to, aliases }` and `{ type: 'updateLink', id }`.
   */
  datatype Operation =
    | Rename(id: string, to: string, aliases: seq<string>)
    | UpdateLink(id: string)

  datatype RenameResponse = RenameResponse(from: string, to: string, operations: seq<Operation>)

  /**
   * The aliases the renamed note keeps: its space-separated `names`, each
   * once in order of first appearance, without `to`. So `from`, which is
   * the first name, stays unless it is `to`.
   */
  function AliasesAfter(names: string, to: string): (aliases: seq<string>)
    ensures NoDuplicates(aliases)
    ensures forall a :: a in aliases <==> a in Split(names, ' ') && a != to
  {
    RemoveValue(Dedup(Split(names, ' ')), to)
  }

  /** Whether `from` is a whole non-empty link entry of `links`. */
  predicate LinksTo(links: string, from: string) {
    from in SplitNonEmpty(links, ' ')
  }

  /** What one entry of the map contributes: the rename first, then the link update. */
  function OperationsFor(id: string, d: JournalDocument, from: string, to: string): seq<Operation> {
    (if id == from then [Rename(id, to, AliasesAfter(d.names, to))] else [])
      + (if LinksTo(d.links, from) then [UpdateLink(id)] else [])
  }

  /** The operations of the entries of `ids`, in that order. */
  function Plan(ids: seq<string>, documents: map<string, JournalDocument>, from: string, to: string)
    : seq<Operation>
    requires forall k :: k in ids ==> k in documents
    decreases |ids|
  {
    if ids == [] then []
    else
      var front := ids[..|ids| - 1];
      var last := ids[|ids| - 1];
      Plan(front, documents, from, to) + OperationsFor(last, documents[last], from, to)
  }

  /**
   * The handler's loop over `searchEngine.documentMap`: it echoes `from`
   * and `to`, leaves the map as it is, and plans the operations of every
   * entry in map order.
   */
  method PlanRename(documentMap: OrderedMap<JournalDocument>, from: string, to: string)
    returns (response: RenameResponse)
    requires documentMap.Valid()
    ensures response.from == from && response.to == to
    ensures response.operations == Plan(documentMap.keys, documentMap.values, from, to)
    ensures Renames(response.operations) == if from in documentMap.values then 1 else 0
    ensures forall id :: id in documentMap.values && LinksTo(documentMap.values[id].links, from) ==>
      UpdateLink(id) in response.operations
  {
    var operations: seq<Operation> := [];
    var keys := documentMap.keys;
    for i := 0 to |keys|
      invariant operations == Plan(keys[..i], documentMap.values, from, to)
    {
      var id := keys[i];
      var document := documentMap.values[id];
      PlanStep(keys, documentMap.values, from, to, i);
      ghost var before := operations;
      ghost var renamed := if id == from then [Rename(id, to, AliasesAfter(document.names, to))] else [];
      ghost var linked := if LinksTo(document.links, from) then [UpdateLink(id)] else [];
      if id == from {
        var aliases := RemoveValue(Dedup(Split(document.names, ' ')), to);
        operations := operations + [Rename(id, to, aliases)];
      }
      assert operations == before + renamed;
      var links := SplitNonEmpty(document.links, ' ');
      if from in links {
        operations := operations + [UpdateLink(id)];
      }
      assert operations == before + renamed + linked;
      AppendAssoc(before, renamed, linked);
    }
    PrefixWhole(keys);
    response := RenameResponse(from, to, operations);
    PlanRenamesOnce(keys, documentMap.values, from, to);
    forall id | id in documentMap.values && LinksTo(documentMap.values[id].links, from)
      ensures UpdateLink(id) in response.operations
    {
      PlanUpdates(keys, documentMap.values, from, to, id);
    }
  }

  lemma PlanStep(ids: seq<string>, documents: map<string, JournalDocument>, from: string, to: string, i: nat)
    requires forall k :: k in ids ==> k in documents
    requires i < |ids|
    ensures forall k :: k in ids[..i + 1] ==> k in documents
    ensures Plan(ids[..i + 1], documents, from, to)
         == Plan(ids[..i], documents, from, to) + OperationsFor(ids[i], documents[ids[i]], from, to)
  {
    PrefixStep(ids, i);
  }

  /** Where an operation of a plan comes from. */
  lemma {:induction false} PlanOperation(ids: seq<string>, documents: map<string, JournalDocument>,
                                         from: string, to: string, op: Operation)
    requires forall k :: k in ids ==> k in documents
    requires op in Plan(ids, documents, from, to)
    ensures op.id in ids
    ensures op.Rename? ==> op.id == from && op == Rename(from, to, AliasesAfter(documents[from].names, to))
    ensures op.UpdateLink? ==> LinksTo(documents[op.id].links, from)
    decreases |ids|
  {
    var front := ids[..|ids| - 1];
    var last := ids[|ids| - 1];
    if op in Plan(front, documents, from, to) {
      PlanOperation(front, documents, from, to, op);
    }
  }

  /** Every entry linking to `from` gets a link update, a note linking to itself included. */
  lemma {:induction false} PlanUpdates(ids: seq<string>, documents: map<string, JournalDocument>,
                                       from: string, to: string, id: string)
    requires forall k :: k in ids ==> k in documents
    requires id in ids && LinksTo(documents[id].links, from)
    ensures UpdateLink(id) in Plan(ids, documents, from, to)
    decreases |ids|
  {
    var front := ids[..|ids| - 1];
    var last := ids[|ids| - 1];
    if id != last {
      assert id in front by { assert ids == front + [last]; }
      PlanUpdates(front, documents, from, to, id);
    }
  }

  /** The number of rename operations of a plan. */
  function Renames(ops: seq<Operation>): nat {
    if ops == [] then 0 else (if ops[0].Rename? then 1 else 0) + Renames(ops[1..])
  }

  lemma {:induction false} RenamesAppend(a: seq<Operation>, b: seq<Operation>)
    ensures Renames(a + b) == Renames(a) + Renames(b)
  {
    if a != [] {
      assert (a + b)[1..] == a[1..] + b;
      RenamesAppend(a[1..], b);
    } else {
      assert a + b == b;
    }
  }

  /** One entry contributes a rename exactly when it is `from`. */
  lemma OwnRenames(id: string, d: JournalDocument, from: string, to: string)
    ensures Renames(OperationsFor(id, d, from, to)) == if id == from then 1 else 0
  {
    var renamed := if id == from then [Rename(id, to, AliasesAfter(d.names, to))] else [];
    var linked := if LinksTo(d.links, from) then [UpdateLink(id)] else [];
    RenamesAppend(renamed, linked);
    assert Renames(linked) == 0 by {
      if linked != [] {
        assert linked[1..] == [];
      }
    }
    if renamed != [] {
      assert renamed[1..] == [];
    }
  }

  /**
   * Over distinct ids, a plan holds one rename when `from` is among them
   * and none otherwise.
   */
  lemma {:induction false} PlanRenamesOnce(ids: seq<string>, documents: map<string, JournalDocument>,
                                           from: string, to: string)
    requires forall k :: k in ids ==> k in documents
    requires NoDuplicates(ids)
    ensures Renames(Plan(ids, documents, from, to)) == if from in ids then 1 else 0
    decreases |ids|
  {
    if ids != [] {
      var front := ids[..|ids| - 1];
      var last := ids[|ids| - 1];
      assert ids == front + [last];
      assert NoDuplicates(front);
      PlanRenamesOnce(front, documents, from, to);
      assert Plan(ids, documents, from, to)
          == Plan(front, documents, from, to) + OperationsFor(last, documents[last], from, to);
      RenamesAppend(Plan(front, documents, from, to), OperationsFor(last, documents[last], from, to));
      OwnRenames(last, documents[last], from, to);
      assert last == from ==> from !in front;
      assert from in ids <==> from in front || from == last;
    }
  }
}
