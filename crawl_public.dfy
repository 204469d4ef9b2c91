/**
 * The top-level crawl of scripts/crawl-public.mjs: the fringe crawl of
 * lib/generatePublicIndex.ts from the home note's timestamp id, over
 * documents fetched through a memoised `getDocument`, with link targets
 * not cut at `#` and a recent-notes page as the expensive target.
 */
module CrawlPublic {
  import opened Options
  import opened Seqs
  import opened StableSort
  import opened Fringe

  /** `indexId`, the expensive `20220130T173123Z7835`, and targets kept whole. */
  const PublicConfig := Config("20201003T154758Z3667", "20220130T173123Z7835", false)

  /**
   * The search engine as `getDocument` uses it: `files` holds the ids whose
   * `<id>.md` exists at `HEAD`, `store` is what indexing an id with
   * `publicOnly` leaves in the document map (the ids of public notes, with
   * the fields the crawl reads), `indexedSet` the ids handed to the indexer
   * so far, and `indexed` those ids in the order they were handed over.
   */
  class DocumentCache {
    const files: set<string>
    const store: map<string, Page>
    var indexedSet: set<string>
    var documentMap: map<string, Page>
    ghost var indexed: seq<string>

    /**
     * The map holds the stored document of every indexed id that has one,
     * each id was indexed once, and each had a file to read.
     */
    ghost predicate Valid()
      reads this
    {
      && documentMap.Keys == indexedSet * store.Keys
      && (forall id :: id in documentMap ==> id in store && documentMap[id] == store[id])
      && NoDuplicates(indexed) && Elements(indexed) == indexedSet
      && indexedSet <= files
    }

    constructor (files: set<string>, store: map<string, Page>)
      ensures this.files == files && this.store == store
      ensures indexedSet == {} && documentMap == map[] && indexed == []
      ensures Valid()
    {
      this.files := files;
      this.store := store;
      indexedSet := {};
      documentMap := map[];
      indexed := [];
    }

    /**
     * `getDocument(id)`: the document of `id`, if indexing it keeps one. An id
     * seen before is answered from the map; a new one is marked indexed and
     * then read with `git show`, so the indexer sees each id at most once.
     * The read throws (`threw`) when the new id has no file at `HEAD`; by
     * then the id is marked, and nothing was indexed.
     */
    method GetDocument(id: string) returns (d: Option<Page>, threw: bool)
      requires Valid()
      modifies this
      ensures threw <==> id !in old(indexedSet) && id !in files
      ensures indexedSet == old(indexedSet) + {id}
      ensures indexed == if id in old(indexedSet) then old(indexed) else old(indexed) + [id]
      ensures threw ==> d == None && documentMap == old(documentMap)
      ensures !threw ==> Valid()
      ensures !threw ==> d == if id in store then Some(store[id]) else None
      ensures !threw ==> documentMap == if id in store then old(documentMap)[id := store[id]] else old(documentMap)
    {
      if id in indexedSet {
        d := if id in documentMap then Some(documentMap[id]) else None;
        threw := false;
        assert id in store ==> id in documentMap && documentMap == documentMap[id := store[id]];
        return;
      }
      indexedSet := indexedSet + {id};
      ElementsAppend(indexed, id);
      assert AddLast(indexed, id) == indexed + [id];
      indexed := indexed + [id];
      if id !in files {
        d, threw := None, true;
        return;
      }
      threw := false;
      if id in store {
        documentMap := documentMap[id := store[id]];
      }
      d := if id in documentMap then Some(documentMap[id]) else None;
    }
  }

  /**
   * How the script ends: it writes the tree with the home note's node; or
   * the home note has no document, so the node is `undefined`, whose
   * `JSON.stringify` is `undefined` as well, which `writeFileSync` refuses
   * with a throw and nothing is written; or `git show` throws on `missing`
   * and the script stops with nothing written.
   */
  datatype Outcome = Written(indexNode: DocNode) | Unwritable | Aborted(missing: string)

  /** The id the next turn takes off is the start or a link target of a stored page. */
  lemma TurnFrontInUniverse(repo: map<string, Page>, c: Config, fringe: seq<Item>, visited: set<string>,
                            nodes: map<string, DocNode>, order: seq<string>, parent: map<string, string>,
                            cost: map<string, nat>)
    requires Crawling(repo, c, fringe, visited, nodes, order, parent, cost) && fringe != []
    ensures SortBy(fringe, CostKey)[0].id in Universe(repo, c)
  {
    SortStep(repo, c, fringe, visited, nodes, order, parent, cost);
    FrontInUniverse(repo, c, SortBy(fringe, CostKey), visited, nodes, order, parent, cost);
  }

  /** `TurnEmit` in the terms `Visit` computes with: the page looked up, and its targets pushed. */
  lemma VisitEmit(repo: map<string, Page>, c: Config, fringe: seq<Item>, visited: set<string>,
                  nodes: map<string, DocNode>, order: seq<string>, parent: map<string, string>,
                  cost: map<string, nat>, page: Page)
    requires Crawling(repo, c, fringe, visited, nodes, order, parent, cost)
    requires fringe != [] && SortBy(fringe, CostKey)[0].id !in visited
    requires SortBy(fringe, CostKey)[0].id in repo && repo[SortBy(fringe, CostKey)[0].id] == page
    ensures var sorted := SortBy(fringe, CostKey);
      var it := sorted[0];
      && Crawling(repo, c, sorted[1..] + ChildItems(Targets(page.links, c), visited + {it.id}, it.id, it.cost + SelfCost(page), c),
                  visited + {it.id}, Attached(nodes, it.id, CleanTitle(page.title), it.parentId),
                  order + [it.id], ParentAfter(parent, it), cost[it.id := it.cost])
      && |Universe(repo, c) - (visited + {it.id})| < |Universe(repo, c) - visited|
  {
    TurnEmit(repo, c, fringe, visited, nodes, order, parent, cost, page);
    PushedForPage(repo, c, visited, SortBy(fringe, CostKey)[0], page);
  }

  /**
   * The rest of a turn once the front id, not visited before, has been
   * looked up: mark it visited, and when it has a document emit its node
   * and push its targets.
   */
  method Visit(ghost repo: map<string, Page>, c: Config, fringe: seq<Item>, visited: set<string>,
               nodes: map<string, DocNode>, ghost order: seq<string>, ghost parent: map<string, string>,
               ghost cost: map<string, nat>, document: Option<Page>)
    returns (fringe': seq<Item>, visited': set<string>, nodes': map<string, DocNode>,
             ghost order': seq<string>, ghost parent': map<string, string>, ghost cost': map<string, nat>)
    requires fringe != [] && SortBy(fringe, CostKey)[0].id !in visited
    requires Crawling(repo, c, fringe, visited, nodes, order, parent, cost)
    requires document == if SortBy(fringe, CostKey)[0].id in repo then Some(repo[SortBy(fringe, CostKey)[0].id]) else None
    ensures visited' == visited + {SortBy(fringe, CostKey)[0].id}
    ensures Crawling(repo, c, fringe', visited', nodes', order', parent', cost')
    ensures |Universe(repo, c) - visited'| < |Universe(repo, c) - visited|
  {
    var sorted := SortBy(fringe, CostKey);
    var item := sorted[0];
    var id := item.id;
    visited' := visited + {id};
    fringe', nodes', order', parent', cost' := sorted[1..], nodes, order, parent, cost;
    if document.None? {
      TurnMissing(repo, c, fringe, visited, nodes, order, parent, cost);
      return;
    }
    var page := document.value;
    VisitEmit(repo, c, fringe, visited, nodes, order, parent, cost, page);
    nodes' := Attached(nodes, id, CleanTitle(page.title), item.parentId);
    order', parent', cost' := order + [id], ParentAfter(parent, item), cost[id := item.cost];
    fringe' := PushTargets(fringe', Targets(page.links, c), visited', id, item.cost + SelfCost(page), c);
  }

  /** The ids read before the one that threw, then that one: still none twice. */
  lemma IndexedLast(before: seq<string>, id: string, files: set<string>)
    requires NoDuplicates(before) && Elements(before) <= files && id !in files
    ensures var indexed := before + [id];
      && NoDuplicates(indexed) && indexed[..|indexed| - 1] == before && Elements(before) <= files
  {
    ElementsAppend(before, id);
    assert AddLast(before, id) == before + [id];
  }

  /**
   * One turn of the loop: as in `PublicIndex.CrawlTurn`, with the lookup
   * going through the cache, whose indexed ids are the visited ones. When
   * the lookup throws, the turn ends with the id it could not read.
   */
  method CrawlTurn(cache: DocumentCache, c: Config, fringe: seq<Item>, visited: set<string>,
                   nodes: map<string, DocNode>, ghost order: seq<string>, ghost parent: map<string, string>,
                   ghost cost: map<string, nat>)
    returns (fringe': seq<Item>, visited': set<string>, nodes': map<string, DocNode>,
             ghost order': seq<string>, ghost parent': map<string, string>, ghost cost': map<string, nat>,
             missing: Option<string>)
    requires fringe != []
    requires cache.Valid() && cache.indexedSet == visited
    requires Crawling(cache.store, c, fringe, visited, nodes, order, parent, cost)
    modifies cache
    ensures missing.Some? ==>
      && missing.value !in visited && missing.value !in cache.files
      && missing.value in Universe(cache.store, c)
      && cache.indexed == old(cache.indexed) + [missing.value]
    ensures missing.None? ==> cache.Valid() && cache.indexedSet == visited'
    ensures missing.None? ==> Crawling(cache.store, c, fringe', visited', nodes', order', parent', cost')
    ensures missing.None? ==>
      || (visited' == visited && |fringe'| < |fringe|)
      || |Universe(cache.store, c) - visited'| < |Universe(cache.store, c) - visited|
  {
    ghost var repo := cache.store;
    var sorted := SortBy(fringe, CostKey);
    var id := sorted[0].id;
    missing := None;
    if id in visited {
      TurnSkip(repo, c, fringe, visited, nodes, order, parent, cost);
      fringe', visited', nodes', order', parent', cost' := sorted[1..], visited, nodes, order, parent, cost;
      return;
    }
    var document, threw := cache.GetDocument(id);
    if threw {
      TurnFrontInUniverse(repo, c, fringe, visited, nodes, order, parent, cost);
      fringe', visited', nodes', order', parent', cost' := sorted[1..], visited + {id}, nodes, order, parent, cost;
      missing := Some(id);
      return;
    }
    fringe', visited', nodes', order', parent', cost' := Visit(repo, c, fringe, visited, nodes, order, parent, cost, document);
  }

  /**
   * The script's crawl over the notes `store` describes, where `files` are
   * the ids with a file at `HEAD`. When every id it looks up has a file, it
   * builds the tree that `IndexShaped` describes from the home note, every
   * node's id indexed, no id twice; it writes the home note's node when the
   * home note has a document, and otherwise the write throws. When an id it
   * looks up has no file, it stops at the first such id, which is the home
   * id or a link target of a stored page, having read every id before it.
   */
  method Crawl(files: set<string>, store: map<string, Page>)
    returns (outcome: Outcome, nodes: map<string, DocNode>, ghost order: seq<string>,
             ghost parent: map<string, string>, ghost cost: map<string, nat>, ghost indexed: seq<string>)
    ensures NoDuplicates(indexed)
    ensures !outcome.Aborted? ==>
      && IndexShaped(store, PublicConfig, nodes, order, parent, cost)
      && (outcome.Written? <==> PublicConfig.root in store)
      && nodes.Keys <= Elements(indexed) && Elements(indexed) <= files
    ensures outcome.Written? ==> PublicConfig.root in nodes && outcome.indexNode == nodes[PublicConfig.root]
    ensures outcome.Aborted? ==>
      && outcome.missing !in files && outcome.missing in Universe(store, PublicConfig)
      && indexed != [] && indexed[|indexed| - 1] == outcome.missing
      && Elements(indexed[..|indexed| - 1]) <= files
  {
    var c := PublicConfig;
    var cache := new DocumentCache(files, store);
    var fringe := [Item(c.root, None, 0)];
    var visited: set<string> := {};
    nodes := map[];
    order, parent, cost := [], map[], map[];
    CrawlInit(store, c);
    while fringe != []
      invariant cache.Valid() && cache.indexedSet == visited && cache.store == store && cache.files == files
      invariant Crawling(store, c, fringe, visited, nodes, order, parent, cost)
      decreases |Universe(store, c) - visited|, |fringe|
    {
      ghost var before := cache.indexed;
      var missing;
      fringe, visited, nodes, order, parent, cost, missing := CrawlTurn(cache, c, fringe, visited, nodes, order, parent, cost);
      if missing.Some? {
        outcome := Aborted(missing.value);
        indexed := cache.indexed;
        IndexedLast(before, missing.value, files);
        return;
      }
    }
    CrawlDone(store, c, visited, nodes, order, parent, cost);
    outcome := if c.root in nodes then Written(nodes[c.root]) else Unwritable;
    indexed := cache.indexed;
  }
}
