/**
 * The sitegraph builders of service/src/generateSitegraph.ts and
 * lib/generateSitegraph.ts: for each id of a public tree, except the
 * recent-notes page and ids without a document, a node with the
 * document's title and its non-empty link entries.
 */
module Sitegraph {
  import opened Seqs
  import opened Strs
  import opened NotesDatabase
  import opened PublicTree
  import opened Fringe

  /** The page both builders leave out. */
  const Skipped := "Recent"

  /** `{ link: target }`. */
  datatype SitegraphLink = SitegraphLink(link: string)

  /** A node of the graph: the title and the links of its document. */
  datatype SitegraphNode = SitegraphNode(title: string, links: seq<SitegraphLink>)

  datatype Sitegraph = Sitegraph(nodes: map<string, SitegraphNode>)

  /**
   * `links.split(' ').filter(Boolean).map(target => ({ link: target }))`:
   * one link per non-empty entry, in order and with duplicates kept, none
   * holding a space, and entries naming ids outside the tree kept too.
   */
  function LinksOf(links: string): (r: seq<SitegraphLink>)
    ensures |r| <= |Split(links, ' ')|
    ensures forall k :: 0 <= k < |r| ==> r[k].link != "" && ' ' !in r[k].link
    ensures forall t :: SitegraphLink(t) in r <==> t in Split(links, ' ') && t != ""
  {
    var targets := SplitNonEmpty(links, ' ');
    var r := Map(targets, (t: string) => SitegraphLink(t));
    assert forall t :: SitegraphLink(t) in r <==> t in targets by {
      forall t | t in targets ensures SitegraphLink(t) in r {
        var k :| 0 <= k < |targets| && targets[k] == t;
        assert r[k] == SitegraphLink(t);
      }
    }
    r
  }

  /** Space-joined non-empty, space-free ids come back as their links, in order. */
  lemma LinksOfJoin(ids: seq<string>)
    requires forall k :: 0 <= k < |ids| ==> ids[k] != "" && ' ' !in ids[k]
    ensures LinksOf(Join(ids, " ")) == Map(ids, (t: string) => SitegraphLink(t))
  {
    if ids != [] {
      SplitNonEmptyJoin(ids, ' ');
    } else {
      assert Split("", ' ') == [""];
    }
  }

  /**
   * The loop both builders share, over `ids` in order and the documents of
   * `documents`: a node exactly for the ids other than `Recent` that have a
   * document, holding that document's title and links.
   */
  method Build<D>(ids: seq<string>, documents: map<string, D>, title: D -> string, links: D -> string)
    returns (nodes: map<string, SitegraphNode>)
    ensures nodes.Keys == set id | id in ids && id != Skipped && id in documents
    ensures forall id :: id in nodes ==>
      id in documents && nodes[id] == SitegraphNode(title(documents[id]), LinksOf(links(documents[id])))
  {
    nodes := map[];
    for i := 0 to |ids|
      invariant nodes.Keys == set id | id in ids[..i] && id != Skipped && id in documents
      invariant forall id :: id in nodes ==>
        id in documents && nodes[id] == SitegraphNode(title(documents[id]), LinksOf(links(documents[id])))
    {
      PrefixStep(ids, i);
      var id := ids[i];
      if id == Skipped {
        continue;
      }
      if id !in documents {
        continue;
      }
      var document := documents[id];
      nodes := nodes[id := SitegraphNode(title(document), LinksOf(links(document)))];
    }
    PrefixWhole(ids);
  }

  /**
   * `generateSitegraph(db, publicTree)`: a node for each key of the tree,
   * other than `Recent`, that has a note in `db`, with the note's title and
   * links.
   */
  method GenerateSitegraph(db: NotesDatabase, tree: Tree) returns (graph: Sitegraph)
    ensures graph.nodes.Keys == set id | id in tree.ids && id != Skipped && id in db.documentMap
    ensures forall id :: id in graph.nodes ==>
      id in db.documentMap
      && graph.nodes[id] == SitegraphNode(db.documentMap[id].title, LinksOf(db.documentMap[id].links))
  {
    var nodes := Build(tree.ids, db.documentMap, (n: Note) => n.title, (n: Note) => n.links);
    graph := Sitegraph(nodes);
  }

  /**
   * `generateSitegraph({ publicIndex, repo })`: the same over the given ids
   * and the documents `repo` finds.
   */
  method GenerateSitegraphOf(ids: seq<string>, repo: map<string, Page>) returns (graph: Sitegraph)
    ensures graph.nodes.Keys == set id | id in ids && id != Skipped && id in repo
    ensures forall id :: id in graph.nodes ==>
      id in repo && graph.nodes[id] == SitegraphNode(repo[id].title, LinksOf(repo[id].links))
  {
    var nodes := Build(ids, repo, (p: Page) => p.title, (p: Page) => p.links);
    graph := Sitegraph(nodes);
  }
}
