/**
 * `getSidebar` of src/sidebar.js: for the note being viewed, three groups
 * of notes from the search engine's document map, namely the notes linking
 * to it, the notes the search finds similar that do not link to it, and
 * the notes it links to.
 */
module Sidebar {
  import opened Options
  import opened Seqs
  import opened Strs
  import opened OrderedMaps
  import opened LibIndexer

  /** A child entry: the note's title as its `label` (`caption` here, `label` being a keyword), and its id twice. */
  datatype Child = Child(caption: string, id: string, noteId: string)

  /** A group of entries, opened by default (`collapsibleState: 1`). */
  datatype Group = Group(id: string, caption: string, collapsibleState: nat, children: seq<Child>)

  /** The entry of one document. */
  function ChildOf(d: JournalDocument): Child {
    Child(d.title, d.id, d.id)
  }

  /** `children(documents)`: one entry per document, in order. */
  function Children(documents: seq<JournalDocument>): (r: seq<Child>)
    ensures |r| == |documents|
    ensures forall i :: 0 <= i < |r| ==> r[i].caption == documents[i].title && r[i].id == documents[i].id
                                         && r[i].noteId == documents[i].id
    ensures forall ch :: ch in r <==> exists d :: d in documents && ch == ChildOf(d)
  {
    var r := Map(documents, ChildOf);
    assert forall d :: d in documents ==> ChildOf(d) in r by {
      forall d | d in documents ensures ChildOf(d) in r {
        var i :| 0 <= i < |documents| && documents[i] == d;
        assert r[i] == ChildOf(d);
      }
    }
    r
  }

  /** A group label: the name, then the number of entries in parentheses. */
  function Label(name: string, n: nat): (r: string)
    ensures |r| > |name| + 3 && r[..|name| + 2] == name + " (" && r[|r| - 1] == ')'
    ensures var digits := r[|name| + 2..|r| - 1];
      (forall k :: 0 <= k < |digits| ==> IsDigit(digits[k])) && DecimalValue(digits) == n
  {
    var r := name + " (" + NatToString(n) + ")";
    assert r[|name| + 2..|r| - 1] == NatToString(n);
    r
  }

  /**
   * The documents whose `links` contain `id` anywhere, in map order: a
   * substring match, so a link to a longer id that begins with `id` counts.
   */
  function Backlinks(docs: seq<JournalDocument>, id: string): (r: seq<JournalDocument>)
    ensures |r| <= |docs|
    ensures forall d :: d in r <==> d in docs && Contains(d.links, id)
  {
    Filter(docs, (f: JournalDocument) => Contains(f.links, id))
  }

  /** The documents whose id is one of the space-separated entries of `linked`, in map order. */
  function Linked(docs: seq<JournalDocument>, linked: string): (r: seq<JournalDocument>)
    ensures |r| <= |docs|
    ensures forall d :: d in r <==> d in docs && d.id in Split(linked, ' ')
  {
    var linkedIds := Elements(Split(linked, ' '));
    Filter(docs, (f: JournalDocument) => f.id in linkedIds)
  }

  /**
   * `searchResults.flatMap(...)`: for each result id in order, its document,
   * unless the id is a backlink's or has no document. Every entry is a kept
   * result's document, and every kept result's document is an entry.
   */
  function Similar(results: seq<string>, exclude: set<string>, documents: map<string, JournalDocument>)
    : (r: seq<JournalDocument>)
    ensures |r| <= |results|
    ensures forall d :: d in r ==> exists x :: x in results && x !in exclude && x in documents && d == documents[x]
    ensures forall x :: x in results && x !in exclude && x in documents ==> documents[x] in r
  {
    if results == [] then []
    else
      var x := results[0];
      var rest := Similar(results[1..], exclude, documents);
      assert forall d :: d in rest ==> exists y :: y in results && y !in exclude && y in documents && d == documents[y] by {
        forall d | d in rest ensures exists y :: y in results && y !in exclude && y in documents && d == documents[y] {
          var y :| y in results[1..] && y !in exclude && y in documents && d == documents[y];
          assert y in results;
        }
      }
      assert forall y :: y in results && y != x ==> y in results[1..] by {
        assert results == [x] + results[1..];
      }
      if x in exclude || x !in documents then rest else [documents[x]] + rest
  }

  /** What `Similar` keeps of a result id: not a backlink's, and with a document. */
  function KeepResult(exclude: set<string>, documents: map<string, JournalDocument>): string -> bool {
    (x: string) => x !in exclude && x in documents
  }

  /**
   * The similar entries are, one for one and in result order, the
   * documents of the result ids that are not backlinks and have a document.
   */
  lemma {:induction false} SimilarInResultOrder(results: seq<string>, exclude: set<string>,
                                                documents: map<string, JournalDocument>)
    ensures var r := Similar(results, exclude, documents);
      var ids := Filter(results, KeepResult(exclude, documents));
      |r| == |ids| && forall i :: 0 <= i < |r| ==> ids[i] in documents && r[i] == documents[ids[i]]
  {
    if results != [] {
      var x, keep := results[0], KeepResult(exclude, documents);
      var rest, ids := Similar(results[1..], exclude, documents), Filter(results[1..], keep);
      SimilarInResultOrder(results[1..], exclude, documents);
      if keep(x) {
        assert Similar(results, exclude, documents) == [documents[x]] + rest;
        assert Filter(results, keep) == [x] + ids;
        DocumentsOfCons(x, rest, ids, documents);
      } else {
        assert Similar(results, exclude, documents) == rest;
        assert Filter(results, keep) == ids;
      }
    }
  }

  /** One more id in front, and its document in front of the entries: still one for one. */
  lemma DocumentsOfCons(x: string, r: seq<JournalDocument>, ids: seq<string>, documents: map<string, JournalDocument>)
    requires x in documents
    requires |r| == |ids| && forall i :: 0 <= i < |r| ==> ids[i] in documents && r[i] == documents[ids[i]]
    ensures var r', ids' := [documents[x]] + r, [x] + ids;
      |r'| == |ids'| && forall i :: 0 <= i < |r'| ==> ids'[i] in documents && r'[i] == documents[ids'[i]]
  {
    var r', ids' := [documents[x]] + r, [x] + ids;
    forall i | 0 <= i < |r'| ensures ids'[i] in documents && r'[i] == documents[ids'[i]] {
      if i > 0 {
        assert r'[i] == r[i - 1] && ids'[i] == ids[i - 1];
      }
    }
  }

  /** `new Set(documents.map(d => d.id))`. */
  function IdsOf(documents: seq<JournalDocument>): (ids: set<string>)
    ensures forall d :: d in documents ==> d.id in ids
    ensures forall x :: x in ids ==> exists d :: d in documents && d.id == x
  {
    set d | d in documents :: d.id
  }

  /** The first group: every document whose links contain `id`, labelled with their number. */
  function BacklinksGroup(docs: seq<JournalDocument>, id: string): (g: Group)
    ensures g.id == "backlinks" && g.collapsibleState == 1
    ensures g.caption == Label("Backlinks", |g.children|)
    ensures forall ch :: ch in g.children <==> exists d :: d in docs && Contains(d.links, id) && ch == ChildOf(d)
  {
    var backlinks := Backlinks(docs, id);
    Group("backlinks", Label("Backlinks", |backlinks|), 1, Children(backlinks))
  }

  /**
   * The second group: the documents of the search results, labelled with
   * their number, none of them a backlink's.
   */
  function SimilarGroup(results: seq<string>, backlinkIds: set<string>, documents: map<string, JournalDocument>)
    : (g: Group)
    ensures g.id == "similar" && g.collapsibleState == 1
    ensures g.caption == Label("Unlinked but similar", |g.children|)
    ensures |g.children| <= |results|
    ensures forall ch :: ch in g.children ==>
      exists x :: x in results && x !in backlinkIds && x in documents && ch == ChildOf(documents[x])
    ensures forall x :: x in results && x !in backlinkIds && x in documents ==> ChildOf(documents[x]) in g.children
  {
    var similar := Similar(results, backlinkIds, documents);
    var g := Group("similar", Label("Unlinked but similar", |similar|), 1, Children(similar));
    assert forall ch :: ch in g.children ==>
      exists x :: x in results && x !in backlinkIds && x in documents && ch == ChildOf(documents[x]) by {
      forall ch | ch in g.children
        ensures exists x :: x in results && x !in backlinkIds && x in documents && ch == ChildOf(documents[x])
      {
        var d :| d in similar && ch == ChildOf(d);
        var x :| x in results && x !in backlinkIds && x in documents && d == documents[x];
      }
    }
    g
  }

  /** The third group: every document whose id is an entry of `linked`, labelled with their number. */
  function LinksGroup(docs: seq<JournalDocument>, linked: string): (g: Group)
    ensures g.id == "links" && g.collapsibleState == 1
    ensures g.caption == Label("Links", |g.children|)
    ensures forall ch :: ch in g.children <==> exists d :: d in docs && d.id in Split(linked, ' ') && ch == ChildOf(d)
  {
    var links := Linked(docs, linked);
    Group("links", Label("Links", |links|), 1, Children(links))
  }

  /**
   * `getSidebar({ currentDocumentId, searchEngine })`. No id, or an empty
   * one, gives no groups. Otherwise there are exactly three groups: the
   * backlinks of the id, the similar notes that are not backlinks, and the
   * notes the id's document links to (the links of a missing document being
   * the empty string). The search is the foreign `minisearch.search`, asked
   * about the id followed by the note's contents.
   */
  function GetSidebar(current: Option<string>, documentMap: OrderedMap<JournalDocument>,
                      contentsMap: map<string, string>, search: string -> seq<string>)
    : (groups: seq<Group>)
    requires documentMap.Valid()
    ensures current.None? || current.value == "" ==> groups == []
    ensures current.Some? && current.value != "" ==>
      var id := current.value;
      var docs := documentMap.Values();
      && |groups| == 3
      && groups[0] == BacklinksGroup(docs, id)
      && groups[1] == SimilarGroup(search(id + " " + Get(contentsMap, id).GetOr("")),
                                   IdsOf(Backlinks(docs, id)), documentMap.values)
      && groups[2] == LinksGroup(docs, if id in documentMap.values then documentMap.values[id].links else "")
  {
    if current.None? || current.value == "" then []
    else
      var id := current.value;
      var docs := documentMap.Values();
      [ BacklinksGroup(docs, id),
        SimilarGroup(search(id + " " + Get(contentsMap, id).GetOr("")), IdsOf(Backlinks(docs, id)), documentMap.values),
        LinksGroup(docs, if id in documentMap.values then documentMap.values[id].links else "") ]
  }

  /** A document linking to `FooBar` shows up among the backlinks of `Foo`. */
  lemma PrefixIdIsBacklink()
    ensures var d := JournalDocument("Other", true, false, "", "", "FooBar", "", "Other", "Other");
      Backlinks([d], "Foo") == [d]
  {
    var d := JournalDocument("Other", true, false, "", "", "FooBar", "", "Other", "Other");
    assert StartsWith(d.links, "Foo");
  }

  /** A note without a document links to nothing but a document with the empty id. */
  lemma MissingLinksNothing(docs: seq<JournalDocument>)
    ensures forall d :: d in Linked(docs, "") ==> d.id == ""
  {
    assert Split("", ' ') == [""];
  }
}
