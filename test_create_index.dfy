/**
 * The graph table of service/scripts/test_create_index.ts: the same walk as
 * the public tree, with a topic note's links at `0.5` and any other's at
 * `1`, emitting one table row per visited note.
 */
module CreateIndex {
  import opened Options
  import opened Seqs
  import opened NotesDatabase
  import opened PublicTree
  import opened Utf16

  /** `0.5` for a topic note and `1` otherwise, times 2. */
  const TableWeights := Weights(1, 2)

  /** How much of a title a row shows, in UTF-16 code units. */
  const TitleWidth := 64

  /** A row of the table: the slug, the start of the title, and the cost and parent at emission. */
  datatype Row = Row(slug: string, title: string, cost: nat, parent: Option<string>)

  /** The row pushed for a visit; `title.slice(0, 64)`, as `Utf16.Slice` takes it. */
  function RowOf(v: Visit): Row {
    Row(v.slug, Slice(v.title, TitleWidth), v.cost, v.parent)
  }

  /**
   * The `i`-th row is of a public note, showing the start of its title; it
   * has no parent exactly when it is `HomePage`, whose cost is 0; otherwise
   * the parent links to it, has an earlier row, and the cost is the
   * parent's plus one weight per link entry of the parent.
   */
  ghost predicate RowOk(documents: map<string, Note>, table: seq<Row>, i: nat)
    requires i < |table|
  {
    var r := table[i];
    && PublicNote(documents, r.slug) && r.title == Slice(documents[r.slug].title, TitleWidth)
    && (r.parent.None? <==> r.slug == Root)
    && (r.slug == Root ==> r.cost == 0)
    && (r.parent.Some? ==>
          && LinkOf(documents, r.parent.value, r.slug)
          && exists j :: 0 <= j < i && table[j].slug == r.parent.value
                         && r.cost == table[j].cost + Step(documents[r.parent.value], TableWeights))
  }

  /** The rows of a walk's visits are as `RowOk` says, for distinct notes. */
  lemma RowsOfVisits(documents: map<string, Note>, visits: seq<Visit>, table: seq<Row>)
    requires VisitsShaped(documents, TableWeights, visits)
    requires |table| == |visits| && forall i :: 0 <= i < |visits| ==> table[i] == RowOf(visits[i])
    ensures && (forall a, b :: 0 <= a < b < |table| ==> table[a].slug != table[b].slug)
      && (forall i :: 0 <= i < |table| ==> RowOk(documents, table, i))
  {
    forall i | 0 <= i < |table| ensures RowOk(documents, table, i) {
      assert VisitOk(documents, TableWeights, visits, i);
      if visits[i].parent.Some? {
        var p := visits[i].parent.value;
        var j :| 0 <= j < i && visits[j].slug == p && visits[i].cost == visits[j].cost + Step(documents[p], TableWeights);
        assert table[j] == RowOf(visits[j]);
      }
    }
  }

  /** Some row is of the note `id`. */
  ghost predicate HasRow(table: seq<Row>, id: string) {
    exists i :: 0 <= i < |table| && table[i].slug == id
  }

  /**
   * The rows of a closed walk: every public note a row's note links to has
   * a row, and the rows are exactly of the notes reachable from `HomePage`
   * through public notes.
   */
  lemma RowsReachable(documents: map<string, Note>, visits: seq<Visit>, table: seq<Row>)
    requires VisitsShaped(documents, TableWeights, visits) && VisitsClosed(documents, visits)
    requires visits == [] <==> !PublicNote(documents, Root)
    requires visits != [] ==> visits[0].slug == Root
    requires |table| == |visits| && forall i :: 0 <= i < |visits| ==> table[i] == RowOf(visits[i])
    ensures forall i, l :: 0 <= i < |table| && LinkOf(documents, table[i].slug, l) && PublicNote(documents, l) ==>
      HasRow(table, l)
    ensures forall id :: HasRow(table, id) <==> Reachable(documents, id)
  {
    var nodes := NodesOf(visits);
    NodesArePublic(documents, TableWeights, visits);
    VisitOrderRooted(documents, TableWeights, visits);
    NodesOfClosed(documents, TableWeights, visits);
    if visits != [] {
      NodesOfAt(visits, 0);
    }
    TreeIsReachable(documents, nodes, Slugs(visits));
    forall id ensures HasRow(table, id) <==> id in nodes {
      NodesOfKeys(visits, id);
      if HasRow(table, id) {
        var i :| 0 <= i < |table| && table[i].slug == id;
        assert Slugs(visits)[i] == id;
      }
      if id in Slugs(visits) {
        var i :| 0 <= i < |visits| && Slugs(visits)[i] == id;
        assert table[i].slug == id;
      }
    }
    forall i, l | 0 <= i < |table| && LinkOf(documents, table[i].slug, l) && PublicNote(documents, l)
      ensures HasRow(table, l)
    {
      assert table[i].slug == visits[i].slug;
      assert EmittedBefore(visits, l, |visits|);
      var j :| 0 <= j < |visits| && visits[j].slug == l;
      assert table[j].slug == l;
    }
  }

  /**
   * The traversal of the script over the notes indexed into `db`: one row
   * per visited public note, and the count of visited notes, which is the
   * number of rows.
   */
  method CreateIndexTable(db: NotesDatabase) returns (table: seq<Row>, count: nat)
    ensures count == |table|
    ensures forall a, b :: 0 <= a < b < |table| ==> table[a].slug != table[b].slug
    ensures forall i :: 0 <= i < |table| ==> RowOk(db.documentMap, table, i)
    ensures table == [] <==> !PublicNote(db.documentMap, Root)
    ensures table != [] ==> table[0].slug == Root
    ensures forall i, l :: 0 <= i < |table| && LinkOf(db.documentMap, table[i].slug, l) && PublicNote(db.documentMap, l) ==>
      HasRow(table, l)
    ensures forall id :: HasRow(table, id) <==> Reachable(db.documentMap, id)
  {
    var visits := Walk(db.documentMap, TableWeights);
    table := Map(visits, RowOf);
    RowsOfVisits(db.documentMap, visits, table);
    RowsReachable(db.documentMap, visits, table);
    count := |visits|;
  }
}
