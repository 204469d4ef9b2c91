/**
 * The fringe crawl shared by lib/generatePublicIndex.ts and
 * scripts/crawl-public.mjs: a uniform-cost search over the link graph that
 * marks an id visited before looking it up, turns each found document into
 * one node, and appends it to the children of the node it was reached from.
 * This module holds the pieces both loops use: the entries, the cost rule,
 * the link targets, the title cleanup, and the loop invariant with the
 * lemmas that carry it over one step.
 */
module Fringe {
  import opened Options
  import opened Seqs
  import opened Strs
  import opened NotesDatabase
  import opened StableSort

  /** The fields of a document the crawl reads. */
  datatype Page = Page(title: string, links: string, topic: bool)

  /**
   * What tells the two crawls apart: the id they start from, the id whose
   * links cost extra, and whether link targets are cut at `#`.
   */
  datatype Config = Config(root: string, sink: string, cutFragments: bool)

  /** A fringe entry `{ id, parentId, cost }`; `parentId` is absent only for the start. */
  datatype Item = Item(id: string, parentId: Option<string>, cost: nat)

  /**
   * A `DocumentNode`. Its children are named by id, in the order they were
   * pushed; an empty list stands for an absent `children` field.
   */
  datatype DocNode = DocNode(id: string, title: string, children: seq<string>)

  /** `document.topic ? 0 : 100`. */
  function SelfCost(page: Page): (n: nat)
    ensures n == if page.topic then 0 else 100
  {
    if page.topic then 0 else 100
  }

  /** `linkId === sink ? 10000 : 1`. */
  function LinkCost(c: Config, id: string): (n: nat)
    ensures n == if id == c.sink then 10000 else 1
  {
    if id == c.sink then 10000 else 1
  }

  /** The sort key: `(a, b) => a.cost - b.cost`. */
  function CostKey(it: Item): int {
    it.cost
  }

  // ---------------------------------------------------------------------
  // Link targets and titles
  // ---------------------------------------------------------------------

  /** `x.split('#')[0]`: what comes before the first `#`. */
  function BeforeHash(x: string): (r: string)
    ensures r <= x && '#' !in r
    ensures '#' in x ==> x[|r|] == '#'
    ensures '#' !in x ==> r == x
  {
    if x == [] then []
    else if x[0] == '#' then []
    else
      var r := [x[0]] + BeforeHash(x[1..]);
      assert x == [x[0]] + x[1..];
      r
  }

  /** One piece of `links.split(' ')` as a target: cut at `#` when the crawl does so. */
  function Piece(c: Config, part: string): (r: string)
    ensures r <= part
    ensures c.cutFragments ==> r == BeforeHash(part)
    ensures !c.cutFragments ==> r == part
  {
    if c.cutFragments then BeforeHash(part) else part
  }

  /**
   * The link targets of a document: its `links` split on spaces, each
   * piece cut at `#` when the crawl does so, empty entries dropped; order
   * and duplicates are kept.
   */
  function Targets(links: string, c: Config): (ts: seq<string>)
    ensures forall k :: 0 <= k < |ts| ==> ts[k] != ""
    ensures c.cutFragments ==> forall k :: 0 <= k < |ts| ==> '#' !in ts[k]
    ensures forall k :: 0 <= k < |ts| ==> ' ' !in ts[k]
  {
    var parts := Split(links, ' ');
    var cut := Map(parts, (part: string) => Piece(c, part));
    assert forall k :: 0 <= k < |cut| ==> ' ' !in cut[k] by {
      forall k | 0 <= k < |cut| ensures ' ' !in cut[k] {
        assert cut[k] <= parts[k];
      }
    }
    var ts := NonEmpty(cut);
    assert forall k :: 0 <= k < |ts| ==> ts[k] in cut;
    ts
  }

  /** Every target is a non-empty piece of `links`. */
  lemma TargetIsPiece(links: string, c: Config, t: string)
    requires t in Targets(links, c)
    ensures t != "" && exists part :: part in Split(links, ' ') && t == Piece(c, part)
  {
    var parts := Split(links, ' ');
    var cut := Map(parts, (part: string) => Piece(c, part));
    assert t in cut;
    var k :| 0 <= k < |cut| && cut[k] == t;
    assert parts[k] in parts && t == Piece(c, parts[k]);
  }

  /** Every non-empty piece of `links` is a target. */
  lemma PieceIsTarget(links: string, c: Config, part: string)
    requires part in Split(links, ' ') && Piece(c, part) != ""
    ensures Piece(c, part) in Targets(links, c)
  {
    var parts := Split(links, ' ');
    var cut := Map(parts, (part: string) => Piece(c, part));
    var k :| 0 <= k < |parts| && parts[k] == part;
    assert cut[k] == Piece(c, part);
  }

  /** `/^#\s+/`: a leading `#` and the run of white space after it, when the run is not empty. */
  function DropHeading(t: string): (r: string)
    ensures |t| >= 2 && t[0] == '#' && IsJsWhitespace(t[1]) ==>
      exists n :: 2 <= n <= |t| && r == t[n..] && (forall k :: 1 <= k < n ==> IsJsWhitespace(t[k]))
               && (n < |t| ==> !IsJsWhitespace(t[n]))
    ensures !(|t| >= 2 && t[0] == '#' && IsJsWhitespace(t[1])) ==> r == t
  {
    if |t| >= 2 && t[0] == '#' && IsJsWhitespace(t[1]) then
      var n := 1 + LeadingSpace(t[1..]);
      assert forall k :: 1 <= k < n ==> t[k] == t[1..][k - 1];
      t[n..]
    else t
  }

  /** Not one of the characters `/[*\[\]]/g` removes. */
  predicate Unmarked(ch: char) {
    ch != '*' && ch != '[' && ch != ']'
  }

  /**
   * `document.title.replace(/^#\s+/, '').replace(/[*\[\]]/g, '')`: no `*`,
   * `[` or `]` is left, and the title does not grow.
   */
  function CleanTitle(title: string): (r: string)
    ensures forall ch :: ch in r ==> Unmarked(ch)
    ensures |r| <= |title|
  {
    Filter(DropHeading(title), Unmarked)
  }

  /**
   * A cleaned title holds no `*`, `[` or `]`, and every character it holds
   * comes from the title; a title with neither a leading `#` and white
   * space nor any of those marks is left as it is.
   */
  lemma CleanTitleShape(title: string)
    ensures forall ch :: ch in CleanTitle(title) ==> Unmarked(ch) && ch in title
    ensures (!(|title| >= 2 && title[0] == '#' && IsJsWhitespace(title[1]))
             && forall k :: 0 <= k < |title| ==> Unmarked(title[k])) ==> CleanTitle(title) == title
  {
    var d := DropHeading(title);
    forall ch | ch in d ensures ch in title {
      var k :| 0 <= k < |d| && d[k] == ch;
      if d != title {
        var n :| 2 <= n <= |title| && d == title[n..];
        assert title[n + k] == ch;
      }
    }
    if !(|title| >= 2 && title[0] == '#' && IsJsWhitespace(title[1]))
       && (forall k :: 0 <= k < |title| ==> Unmarked(title[k])) {
      FilterAllKept(title, Unmarked);
    }
  }

  // ---------------------------------------------------------------------
  // One step of the crawl
  // ---------------------------------------------------------------------

  /**
   * The entries pushed for a document reached at `base` (its cost plus its
   * own cost): one per target not yet visited, in order, each with the
   * document as parent and the target's link cost added.
   */
  function ChildItems(targets: seq<string>, visited: set<string>, id: string, base: nat, c: Config)
    : (items: seq<Item>)
    ensures forall it :: it in items ==>
      it.id in targets && it.id !in visited && it.parentId == Some(id) && it.cost == base + LinkCost(c, it.id)
    ensures forall t :: t in targets && t !in visited ==> Item(t, Some(id), base + LinkCost(c, t)) in items
    decreases |targets|
  {
    if targets == [] then []
    else
      var front := targets[..|targets| - 1];
      var last := targets[|targets| - 1];
      assert forall t :: t in targets <==> t in front || t == last;
      ChildItems(front, visited, id, base, c)
        + (if last in visited then [] else [Item(last, Some(id), base + LinkCost(c, last))])
  }

  /** `for (const linkId of links) { if (visited) continue; fringe.push(...) }`. */
  method PushTargets(fringe: seq<Item>, targets: seq<string>, visited: set<string>, id: string, base: nat, c: Config)
    returns (fringe': seq<Item>)
    ensures fringe' == fringe + ChildItems(targets, visited, id, base, c)
  {
    fringe' := fringe;
    for i := 0 to |targets|
      invariant fringe' == fringe + ChildItems(targets[..i], visited, id, base, c)
    {
      PrefixStep(targets, i);
      var linkId := targets[i];
      if linkId in visited {
        continue;
      }
      fringe' := fringe' + [Item(linkId, Some(id), base + LinkCost(c, linkId))];
    }
    PrefixWhole(targets);
  }

  /**
   * `nodeMap.set(id, node)` for a new node with no children, then, when the
   * entry has a (truthy) parent that has a node, the new node appended to
   * that node's children.
   */
  function Attached(nodes: map<string, DocNode>, id: string, title: string, parentId: Option<string>)
    : (r: map<string, DocNode>)
    ensures r.Keys == nodes.Keys + {id}
  {
    var added := nodes[id := DocNode(id, title, [])];
    if parentId.Some? && parentId.value != "" && parentId.value in added then
      var p := parentId.value;
      added[p := added[p].(children := added[p].children + [id])]
    else added
  }

  // ---------------------------------------------------------------------
  // The invariant
  // ---------------------------------------------------------------------

  /** Every id the crawl can ever hold: the start and each target of a document. */
  ghost function Universe(repo: map<string, Page>, c: Config): set<string> {
    {c.root} + set id, t | id in repo && t in Targets(repo[id].links, c) :: t
  }

  /** The children of `p`: the nodes whose parent is `p`, in the order they were made. */
  ghost function ChildrenIn(order: seq<string>, parent: map<string, string>, p: string): seq<string>
    decreases |order|
  {
    if order == [] then []
    else
      var last := order[|order| - 1];
      ChildrenIn(order[..|order| - 1], parent, p) + (if last in parent && parent[last] == p then [last] else [])
  }

  lemma ChildrenInAppend(order: seq<string>, x: string, parent: map<string, string>, p: string)
    ensures ChildrenIn(order + [x], parent, p)
         == ChildrenIn(order, parent, p) + (if x in parent && parent[x] == p then [x] else [])
  {
    assert (order + [x])[..|order|] == order;
  }

  /** Recording a parent for an id not yet in the order changes no children list. */
  lemma {:induction false} ChildrenInOther(order: seq<string>, parent: map<string, string>, x: string, q: string, p: string)
    requires x !in order
    ensures ChildrenIn(order, parent[x := q], p) == ChildrenIn(order, parent, p)
    decreases |order|
  {
    if order != [] {
      ChildrenInOther(order[..|order| - 1], parent, x, q, p);
    }
  }

  /** No node of the order has parent `p`: `p` has no children. */
  lemma {:induction false} ChildrenInNone(order: seq<string>, parent: map<string, string>, p: string)
    requires forall y :: y in order && y in parent ==> parent[y] != p
    ensures ChildrenIn(order, parent, p) == []
    decreases |order|
  {
    if order != [] {
      ChildrenInNone(order[..|order| - 1], parent, p);
    }
  }

  /**
   * A fringe entry: its id can be crawled; without a parent it is the start
   * at cost 0; otherwise its parent has a node, links to it, and the cost
   * is the parent's plus the parent's own cost plus the link cost.
   */
  ghost predicate ItemOk(repo: map<string, Page>, c: Config, nodes: map<string, DocNode>,
                         cost: map<string, nat>, it: Item)
  {
    && it.id in Universe(repo, c)
    && (it.parentId.None? ==> it.id == c.root && it.cost == 0)
    && (it.parentId.Some? ==>
          var p := it.parentId.value;
          && p in nodes && p in repo && p in cost
          && it.id in Targets(repo[p].links, c)
          && it.cost == cost[p] + SelfCost(repo[p]) + LinkCost(c, it.id))
  }

  /** Some entry of the fringe is for `t`. */
  ghost predicate Queued(fringe: seq<Item>, t: string) {
    exists k :: 0 <= k < |fringe| && fringe[k].id == t
  }

  /** An entry behind the front stays queued when the front is taken off. */
  lemma QueuedBehind(fringe: seq<Item>, t: string)
    requires Queued(fringe, t) && fringe != [] && fringe[0].id != t
    ensures Queued(fringe[1..], t)
  {
    var k :| 0 <= k < |fringe| && fringe[k].id == t;
    assert fringe[1..][k - 1] == fringe[k];
  }

  /** Pushing entries keeps every queued id queued, and queues the pushed ones. */
  lemma QueuedPushed(fringe: seq<Item>, pushed: seq<Item>, t: string)
    requires Queued(fringe, t) || Queued(pushed, t)
    ensures Queued(fringe + pushed, t)
  {
    if Queued(fringe, t) {
      var k :| 0 <= k < |fringe| && fringe[k].id == t;
      assert (fringe + pushed)[k] == fringe[k];
    } else {
      var k :| 0 <= k < |pushed| && pushed[k].id == t;
      assert (fringe + pushed)[|fringe| + k] == pushed[k];
    }
  }

  /**
   * The nodes made so far form a tree in the order they were made: each is
   * of a document, with its cleaned title and, as children, the later
   * nodes that have it as parent, in order; the first is the start; every
   * other node has a parent made before it that links to it, and was
   * reached at the parent's cost plus the parent's own cost plus the link
   * cost.
   */
  ghost predicate NodesOk(repo: map<string, Page>, c: Config, nodes: map<string, DocNode>,
                          order: seq<string>, parent: map<string, string>, cost: map<string, nat>)
  {
    && NoDuplicates(order) && Elements(order) == nodes.Keys
    && nodes.Keys <= repo.Keys
    && (forall x {:trigger nodes[x]} :: x in nodes ==>
          && nodes[x].id == x && nodes[x].title == CleanTitle(repo[x].title)
          && nodes[x].children == ChildrenIn(order, parent, x))
    && (order != [] ==> order[0] == c.root)
    && parent.Keys == nodes.Keys - {c.root}
    && (forall i :: 0 < i < |order| ==> order[i] in parent && parent[order[i]] in order[..i])
    && cost.Keys == nodes.Keys
    && (c.root in cost ==> cost[c.root] == 0)
    && (forall x {:trigger parent[x]} :: x in parent ==>
          && parent[x] in nodes && parent[x] in repo && x in Targets(repo[parent[x]].links, c)
          && cost[x] == cost[parent[x]] + SelfCost(repo[parent[x]]) + LinkCost(c, x))
  }

  /**
   * The fringe and the visited set: the visited ids and the entries can be
   * crawled; the nodes are the visited ids that have a document; before the
   * start is visited nothing is and the fringe is the start's entry, and
   * after it every entry has a parent; every target of a node is visited
   * or has an entry.
   */
  ghost predicate FringeOk(repo: map<string, Page>, c: Config, fringe: seq<Item>, visited: set<string>,
                           nodes: map<string, DocNode>, cost: map<string, nat>)
  {
    && visited <= Universe(repo, c)
    && nodes.Keys == visited * repo.Keys
    && (forall it :: it in fringe ==> ItemOk(repo, c, nodes, cost, it))
    && (c.root !in visited ==> visited == {} && fringe == [Item(c.root, None, 0)])
    && (c.root in visited ==> forall it :: it in fringe ==> it.parentId.Some?)
    && (forall x, t :: x in nodes && x in repo && t in Targets(repo[x].links, c) ==> t in visited || Queued(fringe, t))
  }

  /** The loop invariant of both crawls. */
  ghost predicate Crawling(repo: map<string, Page>, c: Config, fringe: seq<Item>, visited: set<string>,
                           nodes: map<string, DocNode>, order: seq<string>, parent: map<string, string>,
                           cost: map<string, nat>)
  {
    && c.root != ""
    && NodesOk(repo, c, nodes, order, parent, cost)
    && FringeOk(repo, c, fringe, visited, nodes, cost)
  }

  /**
   * What a finished crawl promises: the tree of `NodesOk`; the start has a
   * node exactly when it has a document; and every document a node links
   * to has a node too.
   */
  ghost predicate IndexShaped(repo: map<string, Page>, c: Config, nodes: map<string, DocNode>,
                              order: seq<string>, parent: map<string, string>, cost: map<string, nat>)
  {
    && NodesOk(repo, c, nodes, order, parent, cost)
    && (c.root in nodes <==> c.root in repo)
    && (forall x, t :: x in nodes && x in repo && t in Targets(repo[x].links, c) && t in repo ==> t in nodes)
  }

  lemma CrawlInit(repo: map<string, Page>, c: Config)
    requires c.root != ""
    ensures Crawling(repo, c, [Item(c.root, None, 0)], {}, map[], [], map[], map[])
  {
  }

  /** When the fringe is empty the crawl has its result. */
  lemma CrawlDone(repo: map<string, Page>, c: Config, visited: set<string>, nodes: map<string, DocNode>,
                  order: seq<string>, parent: map<string, string>, cost: map<string, nat>)
    requires Crawling(repo, c, [], visited, nodes, order, parent, cost)
    ensures IndexShaped(repo, c, nodes, order, parent, cost)
  {
    forall x, t | x in nodes && x in repo && t in Targets(repo[x].links, c) && t in repo
      ensures t in nodes
    {
      assert t in visited || Queued([], t);
      assert t in visited * repo.Keys;
    }
  }

  /** Sorting the fringe keeps its entries. */
  lemma SortStep(repo: map<string, Page>, c: Config, fringe: seq<Item>, visited: set<string>,
                 nodes: map<string, DocNode>, order: seq<string>, parent: map<string, string>,
                 cost: map<string, nat>)
    requires Crawling(repo, c, fringe, visited, nodes, order, parent, cost)
    ensures Crawling(repo, c, SortBy(fringe, CostKey), visited, nodes, order, parent, cost)
  {
    var sorted := SortBy(fringe, CostKey);
    assert forall it :: it in sorted <==> it in fringe by {
      forall it ensures it in sorted <==> it in fringe {
        assert it in sorted <==> it in multiset(sorted);
        assert it in fringe <==> it in multiset(fringe);
      }
    }
    forall t | Queued(fringe, t) ensures Queued(sorted, t) {
      var k :| 0 <= k < |fringe| && fringe[k].id == t;
      assert fringe[k] in sorted;
    }
    if c.root !in visited {
      assert |sorted| == 1 && sorted[0] in fringe;
    }
  }

  /** Taking off an entry for a visited id changes nothing else. */
  lemma SkipVisited(repo: map<string, Page>, c: Config, fringe: seq<Item>, visited: set<string>,
                    nodes: map<string, DocNode>, order: seq<string>, parent: map<string, string>,
                    cost: map<string, nat>)
    requires Crawling(repo, c, fringe, visited, nodes, order, parent, cost)
    requires fringe != [] && fringe[0].id in visited
    ensures Crawling(repo, c, fringe[1..], visited, nodes, order, parent, cost)
  {
    forall t | Queued(fringe, t) && t !in visited ensures Queued(fringe[1..], t) {
      QueuedBehind(fringe, t);
    }
    assert forall it :: it in fringe[1..] ==> it in fringe;
  }

  /** Adding a member of a set to a subset keeps it a subset. */
  lemma WithinGrows<T>(u: set<T>, visited: set<T>, id: T)
    requires visited <= u && id in u
    ensures visited + {id} <= u
  {
  }

  /** Adding an id outside `r` to `visited` leaves `visited * r` as it is. */
  lemma MeetOutside<T>(k: set<T>, visited: set<T>, r: set<T>, id: T)
    requires k == visited * r && id !in r
    ensures k == (visited + {id}) * r
  {
  }

  /** Adding an id of `r` to `visited` adds it to `visited * r`. */
  lemma MeetInside<T>(k: set<T>, visited: set<T>, r: set<T>, id: T)
    requires k == visited * r && id in r
    ensures k + {id} == (visited + {id}) * r
  {
  }

  /** An id not visited before is one the crawl can hold: visiting it brings the measure down. */
  lemma VisitedGrows(repo: map<string, Page>, c: Config, visited: set<string>, id: string)
    requires visited <= Universe(repo, c) && id in Universe(repo, c) && id !in visited
    ensures |Universe(repo, c) - (visited + {id})| < |Universe(repo, c) - visited|
  {
    assert Universe(repo, c) - (visited + {id}) < Universe(repo, c) - visited;
  }

  /** Visiting an id that has no document makes no node: it is a dead end. */
  lemma SkipMissing(repo: map<string, Page>, c: Config, fringe: seq<Item>, visited: set<string>,
                    nodes: map<string, DocNode>, order: seq<string>, parent: map<string, string>,
                    cost: map<string, nat>)
    requires Crawling(repo, c, fringe, visited, nodes, order, parent, cost)
    requires fringe != [] && fringe[0].id !in visited && fringe[0].id !in repo
    ensures Crawling(repo, c, fringe[1..], visited + {fringe[0].id}, nodes, order, parent, cost)
  {
    var id := fringe[0].id;
    assert fringe[0] in fringe;
    forall t | Queued(fringe, t) && t !in visited + {id} ensures Queued(fringe[1..], t) {
      QueuedBehind(fringe, t);
    }
    forall it | it in fringe[1..] ensures ItemOk(repo, c, nodes, cost, it) {
      assert it in fringe;
    }
    if c.root !in visited {
      assert fringe[1..] == [];
    }
    WithinGrows(Universe(repo, c), visited, id);
    MeetOutside(nodes.Keys, visited, repo.Keys, id);
  }

  /** The parent recorded for the node made from the entry `it`. */
  function ParentAfter(parent: map<string, string>, it: Item): map<string, string> {
    if it.parentId.Some? then parent[it.id := it.parentId.value] else parent
  }

  /** The targets of a page, entered at its cost plus its own cost. */
  function PushedFor(repo: map<string, Page>, c: Config, visited: set<string>, it: Item): seq<Item>
    requires it.id in repo
  {
    ChildItems(Targets(repo[it.id].links, c), visited + {it.id}, it.id, it.cost + SelfCost(repo[it.id]), c)
  }

  /** `PushedFor` in terms of the page the crawl looked up. */
  lemma PushedForPage(repo: map<string, Page>, c: Config, visited: set<string>, it: Item, page: Page)
    requires it.id in repo && repo[it.id] == page
    ensures PushedFor(repo, c, visited, it)
         == ChildItems(Targets(page.links, c), visited + {it.id}, it.id, it.cost + SelfCost(page), c)
  {
    assert Targets(repo[it.id].links, c) == Targets(page.links, c);
  }

  /** Every target of the page not visited yet is queued by its push. */
  lemma PushedQueues(repo: map<string, Page>, c: Config, visited: set<string>, it: Item, t: string)
    requires it.id in repo && t in Targets(repo[it.id].links, c) && t !in visited + {it.id}
    ensures Queued(PushedFor(repo, c, visited, it), t)
  {
    ChildQueued(Targets(repo[it.id].links, c), visited + {it.id}, it.id, it.cost + SelfCost(repo[it.id]), c, t);
  }

  /** A target not visited is queued among the child entries. */
  lemma ChildQueued(targets: seq<string>, visited: set<string>, id: string, base: nat, c: Config, t: string)
    requires t in targets && t !in visited
    ensures Queued(ChildItems(targets, visited, id, base, c), t)
  {
    var pushed := ChildItems(targets, visited, id, base, c);
    var pit := Item(t, Some(id), base + LinkCost(c, t));
    assert pit in pushed;
    var k :| 0 <= k < |pushed| && pushed[k] == pit;
  }

  /**
   * What making a node for `it` needs: it is an entry of the fringe whose
   * id has a document and no node yet; no node has the empty id; the start
   * comes first; any other entry is not for the start.
   */
  ghost predicate Attachable(repo: map<string, Page>, c: Config, nodes: map<string, DocNode>,
                             order: seq<string>, cost: map<string, nat>, it: Item)
  {
    && ItemOk(repo, c, nodes, cost, it)
    && it.id in repo && it.id !in nodes && "" !in nodes
    && (it.parentId.None? ==> order == [])
    && (it.parentId.Some? ==> it.id != c.root)
  }

  /** The entry at the front of a running crawl, for an id not yet visited that has a document, is attachable. */
  lemma FrontAttachable(repo: map<string, Page>, c: Config, fringe: seq<Item>, visited: set<string>,
                        nodes: map<string, DocNode>, order: seq<string>, parent: map<string, string>,
                        cost: map<string, nat>)
    requires Crawling(repo, c, fringe, visited, nodes, order, parent, cost)
    requires fringe != [] && fringe[0].id !in visited && fringe[0].id in repo
    ensures Attachable(repo, c, nodes, order, cost, fringe[0])
  {
    var it := fringe[0];
    assert it in fringe;
    assert it.id !in nodes;
    NoEmptyNode(repo, c, nodes, order, parent, cost);
    if order != [] {
      assert order[0] in Elements(order);
    }
  }

  /** Every node other than the start is a link target, so none has the empty id. */
  lemma NoEmptyNode(repo: map<string, Page>, c: Config, nodes: map<string, DocNode>,
                    order: seq<string>, parent: map<string, string>, cost: map<string, nat>)
    requires c.root != "" && NodesOk(repo, c, nodes, order, parent, cost)
    ensures "" !in nodes
  {
    forall x | x in parent ensures x != "" {
      assert x in Targets(repo[parent[x]].links, c);
    }
  }

  /** The node `Attached` leaves at `x`: the new one, the parent with the new id appended, or the old one. */
  lemma AttachedAt(nodes: map<string, DocNode>, id: string, title: string, parentId: Option<string>, x: string)
    requires x in nodes || x == id
    requires id !in nodes && "" !in nodes && parentId != Some(id)
    ensures var r := Attached(nodes, id, title, parentId);
      r[x] == if x == id then DocNode(id, title, [])
              else if parentId == Some(x) then nodes[x].(children := nodes[x].children + [id])
              else nodes[x]
  {
  }

  /** The children of `x` after the new id is appended to the order with its parent recorded. */
  lemma ChildrenStep(order: seq<string>, parent: map<string, string>, it: Item, x: string)
    requires it.id !in order && it.id !in parent
    ensures ChildrenIn(order + [it.id], ParentAfter(parent, it), x)
         == ChildrenIn(order, parent, x) + (if it.parentId == Some(x) then [it.id] else [])
  {
    ChildrenInAppend(order, it.id, ParentAfter(parent, it), x);
    if it.parentId.Some? {
      ChildrenInOther(order, parent, it.id, it.parentId.value, x);
    }
  }

  /** The new node's children and the other nodes' children after `Attached`, as `ChildrenIn` says. */
  lemma EmitChildren(repo: map<string, Page>, c: Config, nodes: map<string, DocNode>,
                     order: seq<string>, parent: map<string, string>, cost: map<string, nat>, it: Item)
    requires NodesOk(repo, c, nodes, order, parent, cost) && Attachable(repo, c, nodes, order, cost, it)
    ensures var nodes' := Attached(nodes, it.id, CleanTitle(repo[it.id].title), it.parentId);
      forall x :: x in nodes' ==>
        && x in repo && nodes'[x].id == x && nodes'[x].title == CleanTitle(repo[x].title)
        && nodes'[x].children == ChildrenIn(order + [it.id], ParentAfter(parent, it), x)
  {
    var id := it.id;
    var title := CleanTitle(repo[id].title);
    var nodes' := Attached(nodes, id, title, it.parentId);
    var parent' := ParentAfter(parent, it);
    assert id !in order && id !in parent;
    assert it.parentId != Some(id);
    forall x | x in nodes'
      ensures && x in repo && nodes'[x].id == x && nodes'[x].title == CleanTitle(repo[x].title)
              && nodes'[x].children == ChildrenIn(order + [id], parent', x)
    {
      AttachedAt(nodes, id, title, it.parentId, x);
      ChildrenStep(order, parent, it, x);
      if x == id {
        ChildrenInNone(order, parent, id);
      } else {
        assert x in nodes && nodes'[x].title == nodes[x].title && nodes'[x].id == nodes[x].id;
      }
    }
  }

  /** Each id after the first has its parent before it, and keeps it so when one more id is appended. */
  lemma PrecededStep(order: seq<string>, parent: map<string, string>, parent': map<string, string>, id: string)
    requires forall i :: 0 < i < |order| ==> order[i] in parent && parent[order[i]] in order[..i]
    requires forall y :: y in parent ==> y in parent' && parent'[y] == parent[y]
    requires order != [] ==> id in parent' && parent'[id] in order
    ensures var order' := order + [id];
      forall i :: 0 < i < |order'| ==> order'[i] in parent' && parent'[order'[i]] in order'[..i]
  {
    var order' := order + [id];
    forall i | 0 < i < |order'| ensures order'[i] in parent' && parent'[order'[i]] in order'[..i] {
      if i < |order| {
        assert order'[i] == order[i] && order'[..i] == order[..i];
      } else {
        assert order'[..i] == order;
      }
    }
  }

  /** Appending the new id keeps the order free of duplicates, each id after its parent. */
  lemma EmitOrder(repo: map<string, Page>, c: Config, nodes: map<string, DocNode>,
                  order: seq<string>, parent: map<string, string>, cost: map<string, nat>, it: Item)
    requires NodesOk(repo, c, nodes, order, parent, cost) && Attachable(repo, c, nodes, order, cost, it)
    ensures var order' := order + [it.id];
      var parent' := ParentAfter(parent, it);
      && NoDuplicates(order')
      && (forall i :: 0 < i < |order'| ==> order'[i] in parent' && parent'[order'[i]] in order'[..i])
  {
    var id := it.id;
    var parent' := ParentAfter(parent, it);
    assert id !in order && id !in parent;
    assert AddLast(order, id) == order + [id];
    if order != [] {
      assert it.parentId.value in Elements(order);
    }
    PrecededStep(order, parent, parent', id);
  }

  /** Making the node for an attachable entry keeps the tree as `NodesOk` says. */
  lemma EmitNodes(repo: map<string, Page>, c: Config, nodes: map<string, DocNode>,
                  order: seq<string>, parent: map<string, string>, cost: map<string, nat>, it: Item)
    requires NodesOk(repo, c, nodes, order, parent, cost) && Attachable(repo, c, nodes, order, cost, it)
    ensures NodesOk(repo, c, Attached(nodes, it.id, CleanTitle(repo[it.id].title), it.parentId),
                    order + [it.id], ParentAfter(parent, it), cost[it.id := it.cost])
  {
    var id := it.id;
    var nodes' := Attached(nodes, id, CleanTitle(repo[id].title), it.parentId);
    var parent' := ParentAfter(parent, it);
    var cost' := cost[id := it.cost];
    EmitChildren(repo, c, nodes, order, parent, cost, it);
    EmitOrder(repo, c, nodes, order, parent, cost, it);
    EmitLinks(repo, c, nodes, order, parent, cost, it);
    ElementsAppend(order, id);
    if order == [] {
      assert it.parentId.None?;
    } else {
      assert (order + [id])[0] == order[0];
    }
    if it.parentId.Some? {
      UpdateKeys(parent, id, it.parentId.value);
    }
    MinusStep(parent.Keys, nodes.Keys, c.root, id);
    UpdateKeys(cost, id, it.cost);
  }

  /** `m.set(k, v)` has the keys of `m` and `k`. */
  lemma UpdateKeys<K, V>(m: map<K, V>, k: K, v: V)
    ensures m[k := v].Keys == m.Keys + {k}
  {
  }

  /** The keys other than the start grow with the new id unless it is the start. */
  lemma MinusStep<T>(pk: set<T>, nk: set<T>, root: T, id: T)
    requires pk == nk - {root}
    ensures (if id == root then pk else pk + {id}) == (nk + {id}) - {root}
  {
  }

  /** The recorded parent of each node links to it, at the cost `NodesOk` says. */
  lemma EmitLinks(repo: map<string, Page>, c: Config, nodes: map<string, DocNode>,
                  order: seq<string>, parent: map<string, string>, cost: map<string, nat>, it: Item)
    requires NodesOk(repo, c, nodes, order, parent, cost) && Attachable(repo, c, nodes, order, cost, it)
    ensures var nodes' := Attached(nodes, it.id, CleanTitle(repo[it.id].title), it.parentId);
      var parent' := ParentAfter(parent, it);
      var cost' := cost[it.id := it.cost];
      forall x {:trigger parent'[x]} :: x in parent' ==>
        && parent'[x] in nodes' && parent'[x] in repo && x in Targets(repo[parent'[x]].links, c)
        && cost'[x] == cost'[parent'[x]] + SelfCost(repo[parent'[x]]) + LinkCost(c, x)
  {
    var id := it.id;
    var nodes' := Attached(nodes, id, CleanTitle(repo[id].title), it.parentId);
    var parent' := ParentAfter(parent, it);
    var cost' := cost[id := it.cost];
    forall x | x in parent'
      ensures && parent'[x] in nodes' && parent'[x] in repo && x in Targets(repo[parent'[x]].links, c)
              && cost'[x] == cost'[parent'[x]] + SelfCost(repo[parent'[x]]) + LinkCost(c, x)
    {
      if x == id {
        assert parent'[x] == it.parentId.value;
      } else {
        assert x in parent && parent'[x] == parent[x] && parent[x] != id;
      }
    }
  }

  /** A target of a document is an id the crawl can hold. */
  lemma TargetInUniverse(repo: map<string, Page>, c: Config, x: string, t: string)
    requires x in repo && t in Targets(repo[x].links, c)
    ensures t in Universe(repo, c)
  {
  }

  /** The entries left behind and the pushed ones are as `ItemOk` says for the nodes and costs after the step. */
  lemma EmitItems(repo: map<string, Page>, c: Config, rest: seq<Item>, visited: set<string>,
                  nodes: map<string, DocNode>, cost: map<string, nat>, it: Item)
    requires forall x :: x in rest ==> ItemOk(repo, c, nodes, cost, x)
    requires it.id in repo && it.id !in nodes && cost.Keys == nodes.Keys
    ensures var nodes' := Attached(nodes, it.id, CleanTitle(repo[it.id].title), it.parentId);
      var cost' := cost[it.id := it.cost];
      forall x :: x in rest + PushedFor(repo, c, visited, it) ==> ItemOk(repo, c, nodes', cost', x)
  {
    var id := it.id;
    var nodes' := Attached(nodes, id, CleanTitle(repo[id].title), it.parentId);
    var cost' := cost[id := it.cost];
    var pushed := PushedFor(repo, c, visited, it);
    forall x | x in rest + pushed ensures ItemOk(repo, c, nodes', cost', x) {
      if x in pushed {
        assert x.id in Targets(repo[id].links, c);
        TargetInUniverse(repo, c, id, x.id);
      } else {
        assert x in rest;
        assert x.parentId.Some? ==> x.parentId.value != id;
      }
    }
  }

  /** After the step every target of a node is visited or queued. */
  lemma EmitClosure(repo: map<string, Page>, c: Config, fringe: seq<Item>, visited: set<string>,
                    nodes: map<string, DocNode>)
    requires fringe != [] && fringe[0].id in repo
    requires forall x, t :: x in nodes && x in repo && t in Targets(repo[x].links, c) ==> t in visited || Queued(fringe, t)
    ensures var it := fringe[0];
      var nodes' := Attached(nodes, it.id, CleanTitle(repo[it.id].title), it.parentId);
      forall x, t :: x in nodes' && x in repo && t in Targets(repo[x].links, c) ==>
        t in visited + {it.id} || Queued(fringe[1..] + PushedFor(repo, c, visited, it), t)
  {
    var it := fringe[0];
    var id := it.id;
    var nodes' := Attached(nodes, id, CleanTitle(repo[id].title), it.parentId);
    var pushed := PushedFor(repo, c, visited, it);
    forall x, t | x in nodes' && x in repo && t in Targets(repo[x].links, c)
      ensures t in visited + {id} || Queued(fringe[1..] + pushed, t)
    {
      if t !in visited + {id} {
        if x == id {
          PushedQueues(repo, c, visited, it, t);
        } else {
          assert x in nodes;
          QueuedBehind(fringe, t);
        }
        QueuedPushed(fringe[1..], pushed, t);
      }
    }
  }

  /** Taking the entry at the front, making its node and pushing its targets keeps the fringe as `FringeOk` says. */
  lemma EmitFringe(repo: map<string, Page>, c: Config, fringe: seq<Item>, visited: set<string>,
                   nodes: map<string, DocNode>, order: seq<string>, parent: map<string, string>,
                   cost: map<string, nat>)
    requires FringeOk(repo, c, fringe, visited, nodes, cost) && cost.Keys == nodes.Keys
    requires fringe != [] && fringe[0].id !in visited && fringe[0].id in repo
    ensures var it := fringe[0];
      FringeOk(repo, c, fringe[1..] + PushedFor(repo, c, visited, it), visited + {it.id},
               Attached(nodes, it.id, CleanTitle(repo[it.id].title), it.parentId), cost[it.id := it.cost])
  {
    var it := fringe[0];
    var id := it.id;
    assert it in fringe;
    var pushed := PushedFor(repo, c, visited, it);
    var fringe' := fringe[1..] + pushed;
    assert forall x :: x in fringe[1..] ==> x in fringe;
    EmitItems(repo, c, fringe[1..], visited, nodes, cost, it);
    EmitClosure(repo, c, fringe, visited, nodes);
    if c.root !in visited {
      assert fringe[1..] == [];
    }
    WithinGrows(Universe(repo, c), visited, id);
    MeetInside(nodes.Keys, visited, repo.Keys, id);
    assert forall x :: x in fringe' ==> x in fringe[1..] || x in pushed;
  }

  /** Visiting the entry at the front, for an id with a document, keeps the loop invariant. */
  lemma EmitStep(repo: map<string, Page>, c: Config, fringe: seq<Item>, visited: set<string>,
                 nodes: map<string, DocNode>, order: seq<string>, parent: map<string, string>,
                 cost: map<string, nat>)
    requires Crawling(repo, c, fringe, visited, nodes, order, parent, cost)
    requires fringe != [] && fringe[0].id !in visited && fringe[0].id in repo
    ensures var it := fringe[0];
      Crawling(repo, c, fringe[1..] + PushedFor(repo, c, visited, it), visited + {it.id},
               Attached(nodes, it.id, CleanTitle(repo[it.id].title), it.parentId),
               order + [it.id], ParentAfter(parent, it), cost[it.id := it.cost])
  {
    FrontAttachable(repo, c, fringe, visited, nodes, order, parent, cost);
    EmitNodes(repo, c, nodes, order, parent, cost, fringe[0]);
    EmitFringe(repo, c, fringe, visited, nodes, order, parent, cost);
  }

  /** The entry at the front is for an id the crawl can hold. */
  lemma FrontInUniverse(repo: map<string, Page>, c: Config, fringe: seq<Item>, visited: set<string>,
                        nodes: map<string, DocNode>, order: seq<string>, parent: map<string, string>,
                        cost: map<string, nat>)
    requires Crawling(repo, c, fringe, visited, nodes, order, parent, cost) && fringe != []
    ensures fringe[0].id in Universe(repo, c)
  {
    assert fringe[0] in fringe;
  }

  // ---------------------------------------------------------------------
  // One turn of the loop, from the fringe before it is sorted
  // ---------------------------------------------------------------------

  /** The entry taken off first after sorting is for a visited id: the rest of the sorted fringe is left. */
  lemma TurnSkip(repo: map<string, Page>, c: Config, fringe: seq<Item>, visited: set<string>,
                 nodes: map<string, DocNode>, order: seq<string>, parent: map<string, string>,
                 cost: map<string, nat>)
    requires Crawling(repo, c, fringe, visited, nodes, order, parent, cost)
    requires fringe != [] && SortBy(fringe, CostKey)[0].id in visited
    ensures Crawling(repo, c, SortBy(fringe, CostKey)[1..], visited, nodes, order, parent, cost)
    ensures |SortBy(fringe, CostKey)[1..]| < |fringe|
  {
    SortStep(repo, c, fringe, visited, nodes, order, parent, cost);
    SkipVisited(repo, c, SortBy(fringe, CostKey), visited, nodes, order, parent, cost);
  }

  /** The entry taken off first is for an id not visited that has no document: it is only marked visited. */
  lemma TurnMissing(repo: map<string, Page>, c: Config, fringe: seq<Item>, visited: set<string>,
                    nodes: map<string, DocNode>, order: seq<string>, parent: map<string, string>,
                    cost: map<string, nat>)
    requires Crawling(repo, c, fringe, visited, nodes, order, parent, cost)
    requires fringe != [] && SortBy(fringe, CostKey)[0].id !in visited && SortBy(fringe, CostKey)[0].id !in repo
    ensures var id := SortBy(fringe, CostKey)[0].id;
      && Crawling(repo, c, SortBy(fringe, CostKey)[1..], visited + {id}, nodes, order, parent, cost)
      && |Universe(repo, c) - (visited + {id})| < |Universe(repo, c) - visited|
  {
    var sorted := SortBy(fringe, CostKey);
    SortStep(repo, c, fringe, visited, nodes, order, parent, cost);
    FrontInUniverse(repo, c, sorted, visited, nodes, order, parent, cost);
    VisitedGrows(repo, c, visited, sorted[0].id);
    SkipMissing(repo, c, sorted, visited, nodes, order, parent, cost);
  }

  /**
   * The entry taken off first is for an id not visited whose document is
   * `page`: its node is made and its targets pushed.
   */
  lemma TurnEmit(repo: map<string, Page>, c: Config, fringe: seq<Item>, visited: set<string>,
                 nodes: map<string, DocNode>, order: seq<string>, parent: map<string, string>,
                 cost: map<string, nat>, page: Page)
    requires Crawling(repo, c, fringe, visited, nodes, order, parent, cost)
    requires fringe != [] && SortBy(fringe, CostKey)[0].id !in visited
    requires SortBy(fringe, CostKey)[0].id in repo && repo[SortBy(fringe, CostKey)[0].id] == page
    ensures var sorted := SortBy(fringe, CostKey);
      var it := sorted[0];
      Crawling(repo, c, sorted[1..] + PushedFor(repo, c, visited, it), visited + {it.id},
               Attached(nodes, it.id, CleanTitle(repo[it.id].title), it.parentId),
               order + [it.id], ParentAfter(parent, it), cost[it.id := it.cost])
    ensures |Universe(repo, c) - (visited + {SortBy(fringe, CostKey)[0].id})| < |Universe(repo, c) - visited|
  {
    var sorted := SortBy(fringe, CostKey);
    SortStep(repo, c, fringe, visited, nodes, order, parent, cost);
    FrontInUniverse(repo, c, sorted, visited, nodes, order, parent, cost);
    VisitedGrows(repo, c, visited, sorted[0].id);
    EmitStep(repo, c, sorted, visited, nodes, order, parent, cost);
  }
}
