/**
 * `generatePublicIndex(repo)` of lib/generatePublicIndex.ts: the fringe
 * crawl from `HomePage` over the documents a repository hands out, each
 * visit looked up once, returning the `HomePage` node of the tree it builds.
 */
module PublicIndex {
  import opened Options
  import opened Seqs
  import opened StableSort
  import opened Fringe

  /** The start `HomePage`, the expensive `Recent`, and targets cut at `#`. */
  const IndexConfig := Config("HomePage", "Recent", true)

  /**
   * What the crawl returns: the `HomePage` node, and the node map the
   * children ids of the nodes are resolved in.
   */
  datatype PublicIndex = PublicIndex(indexNode: Option<DocNode>, nodes: map<string, DocNode>)

  /**
   * One turn of the crawl loop: sort the fringe by cost and take the first
   * entry; skip it when its id is visited; otherwise mark it visited, look
   * it up, and for a document make its node and push its targets. The loop
   * invariant is kept, and either an id is newly visited or the fringe
   * shrinks with nothing else changed.
   */
  method CrawlTurn(repo: map<string, Page>, c: Config, fringe: seq<Item>, visited: set<string>,
                   nodes: map<string, DocNode>, ghost order: seq<string>, ghost parent: map<string, string>,
                   ghost cost: map<string, nat>, ghost lookups: seq<string>)
    returns (fringe': seq<Item>, visited': set<string>, nodes': map<string, DocNode>,
             ghost order': seq<string>, ghost parent': map<string, string>, ghost cost': map<string, nat>,
             ghost lookups': seq<string>)
    requires fringe != []
    requires Crawling(repo, c, fringe, visited, nodes, order, parent, cost)
    requires NoDuplicates(lookups) && Elements(lookups) == visited
    ensures Crawling(repo, c, fringe', visited', nodes', order', parent', cost')
    ensures NoDuplicates(lookups') && Elements(lookups') == visited'
    ensures || (visited' == visited && |fringe'| < |fringe|)
            || |Universe(repo, c) - visited'| < |Universe(repo, c) - visited|
  {
    var sorted := SortBy(fringe, CostKey);
    var item := sorted[0];
    fringe' := sorted[1..];
    var id := item.id;
    nodes', order', parent', cost' := nodes, order, parent, cost;
    if id in visited {
      TurnSkip(repo, c, fringe, visited, nodes, order, parent, cost);
      visited', lookups' := visited, lookups;
      return;
    }
    visited' := visited + {id};
    ElementsAppend(lookups, id);
    assert AddLast(lookups, id) == lookups + [id];
    lookups' := lookups + [id];
    var document := if id in repo then Some(repo[id]) else None;
    if document.None? {
      TurnMissing(repo, c, fringe, visited, nodes, order, parent, cost);
      return;
    }
    var page := document.value;
    TurnEmit(repo, c, fringe, visited, nodes, order, parent, cost, page);
    PushedForPage(repo, c, visited, item, page);
    nodes' := Attached(nodes, id, CleanTitle(page.title), item.parentId);
    order', parent', cost' := order + [id], ParentAfter(parent, item), cost[id := item.cost];
    fringe' := PushTargets(fringe', Targets(page.links, c), visited', id, item.cost + SelfCost(page), c);
  }

  /**
   * The crawl over `repo`, which maps each id `getDocument` finds a
   * document for to the fields of it the crawl reads. The nodes
   * form the tree `IndexShaped` describes, rooted at `HomePage`; the result
   * holds the `HomePage` node exactly when `HomePage` has a document; and
   * no id is looked up twice, while every node's id is.
   */
  method GeneratePublicIndex(repo: map<string, Page>)
    returns (index: PublicIndex, ghost order: seq<string>, ghost parent: map<string, string>,
             ghost cost: map<string, nat>, ghost lookups: seq<string>)
    ensures IndexShaped(repo, IndexConfig, index.nodes, order, parent, cost)
    ensures index.indexNode == if "HomePage" in index.nodes then Some(index.nodes["HomePage"]) else None
    ensures index.indexNode.Some? <==> "HomePage" in repo
    ensures NoDuplicates(lookups) && index.nodes.Keys <= Elements(lookups)
  {
    var c := IndexConfig;
    var fringe := [Item(c.root, None, 0)];
    var visited: set<string> := {};
    var nodes: map<string, DocNode> := map[];
    order, parent, cost, lookups := [], map[], map[], [];
    CrawlInit(repo, c);
    while fringe != []
      invariant Crawling(repo, c, fringe, visited, nodes, order, parent, cost)
      invariant NoDuplicates(lookups) && Elements(lookups) == visited
      decreases |Universe(repo, c) - visited|, |fringe|
    {
      fringe, visited, nodes, order, parent, cost, lookups :=
        CrawlTurn(repo, c, fringe, visited, nodes, order, parent, cost, lookups);
    }
    CrawlDone(repo, c, visited, nodes, order, parent, cost);
    index := PublicIndex(if c.root in nodes then Some(nodes[c.root]) else None, nodes);
  }
}
