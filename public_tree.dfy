/**
 * The public tree of the service (service/src/generatePublicTree.ts): a
 * uniform-cost walk of the link graph from `HomePage` through public notes.
 * The walk itself is shared with the graph table of
 * service/scripts/test_create_index.ts, which differs only in its weights.
 */
module PublicTree {
  import opened Options
  import opened Seqs
  import opened Strs
  import opened StableSort
  import opened StringOrder
  import opened NotesDatabase

  /** Where every walk starts. */
  const Root := "HomePage"

  /**
   * The cost of one link entry of a topic note and of any other note,
   * scaled to integers so that the walk's sums are exact.
   */
  datatype Weights = Weights(topic: nat, plain: nat)

  /** `0.001` for a topic note and `1` otherwise, times 1000. */
  const TreeWeights := Weights(1, 1000)

  /**
   * What a note adds to the cost of each of its links: one weight per
   * space-separated entry of `links`, empty entries included.
   */
  function Step(note: Note, w: Weights): nat {
    |Split(note.links, ' ')| * (if note.topic then w.topic else w.plain)
  }

  /** A `costMap` entry: the best cost found so far and the note it was found through. */
  datatype Entry = Entry(cost: nat, via: Option<string>)

  /** A note the walk emits, with the cost and the parent recorded for it at that moment. */
  datatype Visit = Visit(slug: string, title: string, cost: nat, parent: Option<string>)

  /** A note with this id exists and is public. */
  predicate PublicNote(documents: map<string, Note>, id: string) {
    id in documents && documents[id].public
  }

  /**
   * `l` is a link of the note `v` that the walk pushes when it emits `v`:
   * a non-empty space-separated entry of its `links`.
   */
  predicate LinkOf(documents: map<string, Note>, v: string, l: string) {
    v in documents && l != "" && l in Split(documents[v].links, ' ')
  }

  /** The ids of the public notes. */
  function PublicIds(documents: map<string, Note>): (ids: set<string>)
    ensures forall id :: id in ids <==> PublicNote(documents, id)
  {
    set id | id in documents && documents[id].public
  }

  // ---------------------------------------------------------------------
  // Relaxing the links of one note
  // ---------------------------------------------------------------------

  /**
   * One link of the note `slug`: an empty entry is skipped; otherwise the
   * link is recorded at `childCost` through `slug` when it has no entry or
   * a strictly higher cost.
   */
  function Relax(costMap: map<string, Entry>, link: string, childCost: nat, slug: string): map<string, Entry> {
    if link == "" then costMap
    else if link !in costMap || childCost < costMap[link].cost then costMap[link := Entry(childCost, Some(slug))]
    else costMap
  }

  /** The links of the note `slug`, relaxed in order. */
  function RelaxAll(costMap: map<string, Entry>, links: seq<string>, childCost: nat, slug: string): map<string, Entry>
    decreases |links|
  {
    if links == [] then costMap
    else Relax(RelaxAll(costMap, links[..|links| - 1], childCost, slug), links[|links| - 1], childCost, slug)
  }

  /**
   * The effect of relaxing all links does not depend on their order or
   * repetition: a non-empty link gets `childCost` through `slug` exactly
   * when it had no entry or a strictly higher cost, so a tie keeps the
   * first discoverer; every other entry is unchanged.
   */
  lemma {:induction false} RelaxAllEntry(costMap: map<string, Entry>, links: seq<string>, childCost: nat,
                                         slug: string, k: string)
    ensures var r := RelaxAll(costMap, links, childCost, slug);
      && (k in r <==> k in costMap || (k in links && k != ""))
      && (k in r ==> r[k] == if k in links && k != "" && (k !in costMap || childCost < costMap[k].cost)
                             then Entry(childCost, Some(slug)) else costMap[k])
    decreases |links|
  {
    if links != [] {
      var init := links[..|links| - 1];
      assert links == init + [links[|links| - 1]];
      RelaxAllEntry(costMap, init, childCost, slug, k);
    }
  }

  /**
   * The inner `for (const link of links)` loop: every non-empty link is
   * pushed onto the queue, and relaxed.
   */
  method PushLinks(queue: seq<string>, costMap: map<string, Entry>, links: seq<string>, childCost: nat, slug: string)
    returns (queue': seq<string>, costMap': map<string, Entry>)
    ensures queue' == queue + NonEmpty(links)
    ensures costMap' == RelaxAll(costMap, links, childCost, slug)
  {
    queue', costMap' := queue, costMap;
    for i := 0 to |links|
      invariant queue' == queue + NonEmpty(links[..i])
      invariant costMap' == RelaxAll(costMap, links[..i], childCost, slug)
    {
      var link := links[i];
      PrefixStep(links, i);
      NonEmptyAppend(links[..i], link);
      if link != "" {
        queue' := queue' + [link];
        if link !in costMap' || childCost < costMap'[link].cost {
          costMap' := costMap'[link := Entry(childCost, Some(slug))];
        }
      }
    }
    PrefixWhole(links);
  }

  /** The sort key of the queue: the recorded cost (every queued id has one). */
  function KeyOf(costMap: map<string, Entry>): string -> int {
    (q: string) => if q in costMap then costMap[q].cost else 0
  }

  // ---------------------------------------------------------------------
  // The walk
  // ---------------------------------------------------------------------

  /** The note `p` was emitted among the first `i` visits. */
  ghost predicate EmittedBefore(visits: seq<Visit>, p: string, i: nat)
    requires i <= |visits|
  {
    exists j :: 0 <= j < i && visits[j].slug == p
  }

  /** The cost recorded for the last visit of `p` (0 when there is none). */
  function CostOf(visits: seq<Visit>, p: string): nat
    decreases |visits|
  {
    if visits == [] then 0
    else if visits[|visits| - 1].slug == p then visits[|visits| - 1].cost
    else CostOf(visits[..|visits| - 1], p)
  }

  lemma CostOfAppend(visits: seq<Visit>, v: Visit, p: string)
    ensures CostOf(visits + [v], p) == if v.slug == p then v.cost else CostOf(visits, p)
  {
    assert (visits + [v])[..|visits|] == visits;
  }

  /** Among visits to distinct notes, the cost of a note is the one of its visit. */
  lemma {:induction false} CostOfAt(visits: seq<Visit>, j: nat)
    requires j < |visits|
    requires forall a, b :: 0 <= a < b < |visits| ==> visits[a].slug != visits[b].slug
    ensures CostOf(visits, visits[j].slug) == visits[j].cost
    decreases |visits|
  {
    if j < |visits| - 1 {
      var init := visits[..|visits| - 1];
      assert init[j] == visits[j];
      CostOfAt(init, j);
    }
  }

  /**
   * The `i`-th visit is of a public note, with its title; it has no parent
   * exactly when it is the root, whose cost is 0; otherwise its parent was
   * emitted earlier, links to it, and its cost is the parent's plus the
   * parent's step.
   */
  ghost predicate VisitOk(documents: map<string, Note>, w: Weights, visits: seq<Visit>, i: nat)
    requires i < |visits|
  {
    var v := visits[i];
    && PublicNote(documents, v.slug) && v.title == documents[v.slug].title
    && (v.parent.None? <==> v.slug == Root)
    && (v.slug == Root ==> v.cost == 0)
    && (v.parent.Some? ==>
          && LinkOf(documents, v.parent.value, v.slug)
          && exists j :: 0 <= j < i && visits[j].slug == v.parent.value
                         && v.cost == visits[j].cost + Step(documents[v.parent.value], w))
  }

  /** What the walk promises of its visits: distinct notes, each emitted as `VisitOk` says. */
  ghost predicate VisitsShaped(documents: map<string, Note>, w: Weights, visits: seq<Visit>) {
    && (forall a, b :: 0 <= a < b < |visits| ==> visits[a].slug != visits[b].slug)
    && (forall i :: 0 <= i < |visits| ==> VisitOk(documents, w, visits, i))
  }

  /**
   * A `costMap` entry: only the root has no `via`; any other entry was
   * recorded through an emitted note that links to it, at that note's cost
   * plus its step.
   */
  ghost predicate EntryOk(documents: map<string, Note>, w: Weights, k: string, e: Entry,
                          visited: set<string>, visits: seq<Visit>)
  {
    && (e.via.None? ==> k == Root)
    && (e.via.Some? ==>
          && e.via.value in visited && LinkOf(documents, e.via.value, k)
          && e.cost == CostOf(visits, e.via.value) + Step(documents[e.via.value], w))
  }

  /**
   * How the walk starts: the root is the first emitted note; before it is
   * emitted the queue holds only the root, or nothing once a missing or
   * non-public root has been taken off.
   */
  ghost predicate RootCases(documents: map<string, Note>, queue: seq<string>, visits: seq<Visit>) {
    && (visits != [] ==> visits[0].slug == Root)
    && (visits == [] ==> queue == [Root] || (queue == [] && !PublicNote(documents, Root)))
    && (!PublicNote(documents, Root) ==> visits == [])
  }

  /** The loop invariant of the walk. */
  ghost predicate Walking(documents: map<string, Note>, w: Weights, queue: seq<string>,
                          costMap: map<string, Entry>, visited: set<string>, visits: seq<Visit>)
  {
    && visited <= PublicIds(documents)
    && (forall x :: x in visited <==> EmittedBefore(visits, x, |visits|))
    && VisitsShaped(documents, w, visits)
    && (forall k :: 0 <= k < |queue| ==> queue[k] in costMap)
    && Root in costMap && costMap[Root] == Entry(0, None)
    && (forall k :: k in costMap ==> EntryOk(documents, w, k, costMap[k], visited, visits))
    && RootCases(documents, queue, visits)
  }

  lemma WalkingInit(documents: map<string, Note>, w: Weights)
    ensures Walking(documents, w, [Root], map[Root := Entry(0, None)], {}, [])
  {
  }

  /** Taking off a missing, non-public or already visited note changes nothing else. */
  lemma SkipStep(documents: map<string, Note>, w: Weights, queue: seq<string>,
                 costMap: map<string, Entry>, visited: set<string>, visits: seq<Visit>)
    requires Walking(documents, w, queue, costMap, visited, visits) && queue != []
    requires !PublicNote(documents, queue[0]) || queue[0] in visited
    ensures Walking(documents, w, queue[1..], costMap, visited, visits)
  {
    assert forall k :: 0 <= k < |queue[1..]| ==> queue[1..][k] == queue[k + 1];
  }

  /** The visit `EmitStep` appends for the note at the front of the queue. */
  function Emitted(documents: map<string, Note>, costMap: map<string, Entry>, slug: string): Visit
    requires slug in documents && slug in costMap
  {
    Visit(slug, documents[slug].title, costMap[slug].cost, costMap[slug].via)
  }

  /** The map after the links of the emitted note `slug` are relaxed. */
  function Relaxed(documents: map<string, Note>, w: Weights, costMap: map<string, Entry>, slug: string): map<string, Entry>
    requires slug in documents && slug in costMap
  {
    RelaxAll(costMap, Split(documents[slug].links, ' '), costMap[slug].cost + Step(documents[slug], w), slug)
  }

  /** Emitting the note at the front adds a visit that is as `VisitOk` says. */
  lemma EmitVisits(documents: map<string, Note>, w: Weights, queue: seq<string>,
                   costMap: map<string, Entry>, visited: set<string>, visits: seq<Visit>)
    requires Walking(documents, w, queue, costMap, visited, visits) && queue != []
    requires PublicNote(documents, queue[0]) && queue[0] !in visited
    ensures var visits' := visits + [Emitted(documents, costMap, queue[0])];
      && VisitsShaped(documents, w, visits')
      && (forall x :: x in visited + {queue[0]} <==> EmittedBefore(visits', x, |visits'|))
      && RootCases(documents, [], visits')
  {
    var slug := queue[0];
    var v := Emitted(documents, costMap, slug);
    var visits' := visits + [v];
    assert visits == [] ==> slug == Root;
    forall i | 0 <= i < |visits'| ensures VisitOk(documents, w, visits', i) {
      if i < |visits| {
        VisitStaysOk(documents, w, visits, v, i);
      } else {
        assert EntryOk(documents, w, slug, costMap[slug], visited, visits);
        if v.parent.Some? {
          var p := v.parent.value;
          assert EmittedBefore(visits, p, |visits|);
          var j :| 0 <= j < |visits| && visits[j].slug == p;
          CostOfAt(visits, j);
          assert visits'[j] == visits[j];
        } else {
          assert slug == Root;
        }
      }
    }
    forall x ensures x in visited + {slug} <==> EmittedBefore(visits', x, |visits'|) {
      if EmittedBefore(visits', x, |visits'|) && x != slug {
        var j :| 0 <= j < |visits'| && visits'[j].slug == x;
        assert j < |visits| && visits[j].slug == x;
      }
      if x in visited {
        var j :| 0 <= j < |visits| && visits[j].slug == x;
        assert visits'[j].slug == x;
      }
      assert visits'[|visits|].slug == slug;
    }
    forall a, b | 0 <= a < b < |visits'| ensures visits'[a].slug != visits'[b].slug {
      if b == |visits| {
        assert visits'[a] == visits[a];
        assert EmittedBefore(visits, visits[a].slug, |visits|);
      }
    }
  }

  /** A visit that was as `VisitOk` says stays so when another visit is appended. */
  lemma VisitStaysOk(documents: map<string, Note>, w: Weights, visits: seq<Visit>, v: Visit, i: nat)
    requires i < |visits| && VisitOk(documents, w, visits, i)
    ensures VisitOk(documents, w, visits + [v], i)
  {
    var visits' := visits + [v];
    assert visits'[i] == visits[i];
    if visits[i].parent.Some? {
      var j :| 0 <= j < i && visits[j].slug == visits[i].parent.value
               && visits[i].cost == visits[j].cost + Step(documents[visits[i].parent.value], w);
      assert visits'[j] == visits[j];
    }
  }

  /** Relaxing the links of the emitted note keeps every entry as `EntryOk` says, and the root's entry. */
  lemma EmitCosts(documents: map<string, Note>, w: Weights, queue: seq<string>,
                  costMap: map<string, Entry>, visited: set<string>, visits: seq<Visit>)
    requires Walking(documents, w, queue, costMap, visited, visits) && queue != []
    requires PublicNote(documents, queue[0]) && queue[0] !in visited
    ensures var slug := queue[0];
      var costMap' := Relaxed(documents, w, costMap, slug);
      var visits' := visits + [Emitted(documents, costMap, slug)];
      && Root in costMap' && costMap'[Root] == Entry(0, None)
      && (forall k :: k in costMap ==> k in costMap')
      && (forall k :: k in NonEmpty(Split(documents[slug].links, ' ')) ==> k in costMap')
      && (forall k :: k in costMap' ==> EntryOk(documents, w, k, costMap'[k], visited + {slug}, visits'))
  {
    var slug := queue[0];
    var links := Split(documents[slug].links, ' ');
    var childCost := costMap[slug].cost + Step(documents[slug], w);
    var costMap' := Relaxed(documents, w, costMap, slug);
    var v := Emitted(documents, costMap, slug);
    var visits' := visits + [v];
    CostOfAppend(visits, v, slug);
    RelaxAllEntry(costMap, links, childCost, slug, Root);
    forall k | k in costMap' ensures EntryOk(documents, w, k, costMap'[k], visited + {slug}, visits') {
      RelaxAllEntry(costMap, links, childCost, slug, k);
      if k in links && k != "" && (k !in costMap || childCost < costMap[k].cost) {
      } else {
        assert EntryOk(documents, w, k, costMap[k], visited, visits);
        if costMap[k].via.Some? {
          CostOfAppend(visits, v, costMap[k].via.value);
        }
      }
    }
    forall k | k in costMap ensures k in costMap' {
      RelaxAllEntry(costMap, links, childCost, slug, k);
    }
    forall k | k in NonEmpty(links) ensures k in costMap' {
      RelaxAllEntry(costMap, links, childCost, slug, k);
    }
  }

  /**
   * Emitting the note at the front, relaxing its links, pushing them and
   * sorting the queue by the new costs keeps the walk's invariant.
   */
  lemma EmitStep(documents: map<string, Note>, w: Weights, queue: seq<string>,
                 costMap: map<string, Entry>, visited: set<string>, visits: seq<Visit>)
    requires Walking(documents, w, queue, costMap, visited, visits) && queue != []
    requires PublicNote(documents, queue[0]) && queue[0] !in visited
    ensures var slug := queue[0];
      var costMap' := Relaxed(documents, w, costMap, slug);
      Walking(documents, w,
              SortBy(queue[1..] + NonEmpty(Split(documents[slug].links, ' ')), KeyOf(costMap')),
              costMap', visited + {slug}, visits + [Emitted(documents, costMap, slug)])
  {
    var slug := queue[0];
    var links := NonEmpty(Split(documents[slug].links, ' '));
    var costMap' := Relaxed(documents, w, costMap, slug);
    var pushed := queue[1..] + links;
    var queue' := SortBy(pushed, KeyOf(costMap'));
    EmitVisits(documents, w, queue, costMap, visited, visits);
    EmitCosts(documents, w, queue, costMap, visited, visits);
    QueueCovered(queue, links, costMap, costMap', KeyOf(costMap'));
    var visits' := visits + [Emitted(documents, costMap, slug)];
    assert RootCases(documents, queue', visits') by {
      assert RootCases(documents, [], visits');
      assert visits' != [];
    }
  }

  /** Every id of the sorted queue after a push has an entry, when the old ones and the pushed ones do. */
  lemma QueueCovered(queue: seq<string>, links: seq<string>, costMap: map<string, Entry>,
                     costMap': map<string, Entry>, key: string -> int)
    requires queue != [] && forall k :: 0 <= k < |queue| ==> queue[k] in costMap
    requires forall k :: k in costMap ==> k in costMap'
    requires forall k :: k in links ==> k in costMap'
    ensures var queue' := SortBy(queue[1..] + links, key);
      forall k :: 0 <= k < |queue'| ==> queue'[k] in costMap'
  {
    var pushed := queue[1..] + links;
    var queue' := SortBy(pushed, key);
    forall k | 0 <= k < |queue'| ensures queue'[k] in costMap' {
      assert queue'[k] in multiset(pushed);
      assert queue'[k] in pushed;
      if queue'[k] !in links {
        var j :| 0 <= j < |queue[1..]| && queue[1..][j] == queue'[k];
        assert queue[j + 1] == queue'[k];
      }
    }
  }

  /** A note emitted now is one more public note visited: the walk's measure goes down. */
  lemma VisitedGrows(documents: map<string, Note>, visited: set<string>, slug: string)
    requires visited <= PublicIds(documents) && PublicNote(documents, slug) && slug !in visited
    ensures |PublicIds(documents) - (visited + {slug})| < |PublicIds(documents) - visited|
  {
    assert PublicIds(documents) - (visited + {slug}) < PublicIds(documents) - visited;
  }

  /**
   * The closure half of the walk's invariant: every public note that a
   * visited note links to is visited or still queued.
   */
  ghost predicate LinksCovered(documents: map<string, Note>, queue: seq<string>, visited: set<string>) {
    forall v, l :: v in visited && LinkOf(documents, v, l) && PublicNote(documents, l) ==>
      l in visited || l in queue
  }

  /** Taking off a note that is not public or already visited keeps the closure. */
  lemma CoveredSkip(documents: map<string, Note>, queue: seq<string>, visited: set<string>)
    requires LinksCovered(documents, queue, visited) && queue != []
    requires !PublicNote(documents, queue[0]) || queue[0] in visited
    ensures LinksCovered(documents, queue[1..], visited)
  {
    forall v, l | v in visited && LinkOf(documents, v, l) && PublicNote(documents, l) && l !in visited
      ensures l in queue[1..]
    {
      assert queue == [queue[0]] + queue[1..];
    }
  }

  /**
   * Emitting the front note and queueing its links in any order keeps the
   * closure: the emitted note's links are all queued.
   */
  lemma CoveredEmit(documents: map<string, Note>, queue: seq<string>, visited: set<string>, queue': seq<string>)
    requires LinksCovered(documents, queue, visited) && queue != [] && queue[0] in documents
    requires multiset(queue') == multiset(queue[1..] + NonEmpty(Split(documents[queue[0]].links, ' ')))
    ensures LinksCovered(documents, queue', visited + {queue[0]})
  {
    var slug := queue[0];
    var pushed := queue[1..] + NonEmpty(Split(documents[slug].links, ' '));
    forall v, l | v in visited + {slug} && LinkOf(documents, v, l) && PublicNote(documents, l) && l !in visited + {slug}
      ensures l in queue'
    {
      if v == slug {
        assert l in pushed;
      } else {
        assert queue == [slug] + queue[1..];
        assert l in pushed;
      }
      assert l in multiset(pushed);
    }
  }

  /** When the queue is empty the visits are closed under public links. */
  ghost predicate VisitsClosed(documents: map<string, Note>, visits: seq<Visit>) {
    forall i, l :: 0 <= i < |visits| && LinkOf(documents, visits[i].slug, l) && PublicNote(documents, l) ==>
      EmittedBefore(visits, l, |visits|)
  }

  lemma CoveredDone(documents: map<string, Note>, visited: set<string>, visits: seq<Visit>)
    requires LinksCovered(documents, [], visited)
    requires forall x :: x in visited <==> EmittedBefore(visits, x, |visits|)
    ensures VisitsClosed(documents, visits)
  {
    forall i, l | 0 <= i < |visits| && LinkOf(documents, visits[i].slug, l) && PublicNote(documents, l)
      ensures EmittedBefore(visits, l, |visits|)
    {
      assert EmittedBefore(visits, visits[i].slug, |visits|);
    }
  }

  /**
   * The `while (queue.length > 0)` loop of `generatePublicTree`, with the
   * weights left open: take off the front of the queue; skip it when it is
   * missing, not public or visited; otherwise emit it with its recorded
   * cost and parent, push its non-empty links with the cost `thisCost`
   * plus its step, recording a link only on a strictly lower cost, and
   * sort the queue stably by recorded cost. It ends on every graph, cycles
   * included.
   */
  method Walk(documents: map<string, Note>, w: Weights) returns (visits: seq<Visit>)
    ensures VisitsShaped(documents, w, visits)
    ensures visits == [] <==> !PublicNote(documents, Root)
    ensures visits != [] ==> visits[0].slug == Root
    ensures VisitsClosed(documents, visits)
  {
    var visited: set<string> := {};
    var queue := [Root];
    var costMap := map[Root := Entry(0, None)];
    visits := [];
    WalkingInit(documents, w);
    while queue != []
      invariant Walking(documents, w, queue, costMap, visited, visits)
      invariant LinksCovered(documents, queue, visited)
      decreases |PublicIds(documents) - visited|, |queue|
    {
      var slug := queue[0];
      if !(slug in documents && documents[slug].public) || slug in visited {
        SkipStep(documents, w, queue, costMap, visited, visits);
        CoveredSkip(documents, queue, visited);
        queue := queue[1..];
        continue;
      }
      VisitedGrows(documents, visited, slug);
      queue, costMap, visited, visits := Emit(documents, w, queue, costMap, visited, visits);
    }
    CoveredDone(documents, visited, visits);
  }

  /**
   * The body of the loop for a public note not yet visited: emit it, push
   * and relax its links, and sort the queue.
   */
  method Emit(documents: map<string, Note>, w: Weights, queue: seq<string>,
              costMap: map<string, Entry>, visited: set<string>, visits: seq<Visit>)
    returns (queue': seq<string>, costMap': map<string, Entry>, visited': set<string>, visits': seq<Visit>)
    requires Walking(documents, w, queue, costMap, visited, visits) && queue != []
    requires PublicNote(documents, queue[0]) && queue[0] !in visited
    requires LinksCovered(documents, queue, visited)
    ensures Walking(documents, w, queue', costMap', visited', visits')
    ensures LinksCovered(documents, queue', visited')
    ensures visited' == visited + {queue[0]}
  {
    var slug := queue[0];
    var links := Split(documents[slug].links, ' ');
    var childCost := costMap[slug].cost + Step(documents[slug], w);
    var pushed;
    pushed, costMap' := PushLinks(queue[1..], costMap, links, childCost, slug);
    queue' := SortBy(pushed, KeyOf(costMap'));
    visited' := visited + {slug};
    visits' := visits + [Emitted(documents, costMap, slug)];
    RelaxedIs(documents, w, costMap, slug, links, childCost, costMap');
    EmitStep(documents, w, queue, costMap, visited, visits);
    CoveredEmit(documents, queue, visited, queue');
  }

  /** What the inner loop leaves in `costMap` is the relaxed map. */
  lemma RelaxedIs(documents: map<string, Note>, w: Weights, costMap: map<string, Entry>, slug: string,
                  links: seq<string>, childCost: nat, costMap': map<string, Entry>)
    requires slug in documents && slug in costMap
    requires links == Split(documents[slug].links, ' ') && childCost == costMap[slug].cost + Step(documents[slug], w)
    requires costMap' == RelaxAll(costMap, links, childCost, slug)
    ensures costMap' == Relaxed(documents, w, costMap, slug)
  {
  }

  // ---------------------------------------------------------------------
  // The output
  // ---------------------------------------------------------------------

  /** A `PublicTreeNode`: the note's title and the note it was reached through (none for the root). */
  datatype TreeNode = TreeNode(title: string, parent: Option<string>)

  /** `{ nodes: sortKeys(output) }`: the ids in key order, and the node of each. */
  datatype Tree = Tree(ids: seq<string>, nodes: map<string, TreeNode>)

  /** The ids of the visits, in visit order: the insertion order of `output`. */
  function Slugs(visits: seq<Visit>): (ids: seq<string>)
    ensures |ids| == |visits| && forall i :: 0 <= i < |visits| ==> ids[i] == visits[i].slug
  {
    Map(visits, (v: Visit) => v.slug)
  }

  /** `output[slug] = { title, parent }` for each visit in turn. */
  function NodesOf(visits: seq<Visit>): map<string, TreeNode>
    decreases |visits|
  {
    if visits == [] then map[]
    else
      var v := visits[|visits| - 1];
      NodesOf(visits[..|visits| - 1])[v.slug := TreeNode(v.title, v.parent)]
  }

  /** Exactly the visited notes have a node. */
  lemma {:induction false} NodesOfKeys(visits: seq<Visit>, x: string)
    ensures x in NodesOf(visits) <==> x in Slugs(visits)
    decreases |visits|
  {
    if visits != [] {
      var init := visits[..|visits| - 1];
      NodesOfKeys(init, x);
      if x in Slugs(init) {
        var j :| 0 <= j < |init| && Slugs(init)[j] == x;
        assert Slugs(visits)[j] == x;
      }
      if x in Slugs(visits) {
        var j :| 0 <= j < |visits| && Slugs(visits)[j] == x;
        if j < |init| {
          assert Slugs(init)[j] == x;
        }
      }
    }
  }

  /** Among visits to distinct notes, each visited note has the node of its visit. */
  lemma {:induction false} NodesOfAt(visits: seq<Visit>, i: nat)
    requires i < |visits|
    requires forall a, b :: 0 <= a < b < |visits| ==> visits[a].slug != visits[b].slug
    ensures visits[i].slug in NodesOf(visits)
    ensures NodesOf(visits)[visits[i].slug] == TreeNode(visits[i].title, visits[i].parent)
    decreases |visits|
  {
    if i < |visits| - 1 {
      var init := visits[..|visits| - 1];
      assert init[i] == visits[i];
      NodesOfAt(init, i);
    }
  }

  /**
   * `order` lists each node once, and every node's parent comes before it;
   * only the root has none.
   */
  ghost predicate RootedAt(nodes: map<string, TreeNode>, order: seq<string>) {
    && NoDuplicates(order)
    && (forall x :: x in nodes <==> x in order)
    && forall i :: 0 <= i < |order| ==> order[i] in nodes && ParentEarlier(nodes, order, i)
  }

  ghost predicate ParentEarlier(nodes: map<string, TreeNode>, order: seq<string>, i: nat)
    requires i < |order| && order[i] in nodes
  {
    match nodes[order[i]].parent
    case None => order[i] == Root
    case Some(p) => p in order[..i]
  }

  /**
   * `chain` follows parents: each node's parent is the next one, and the
   * last node is the root, which has none.
   */
  ghost predicate IsChain(nodes: map<string, TreeNode>, chain: seq<string>)
    decreases |chain|
  {
    && chain != [] && chain[0] in nodes
    && if |chain| == 1 then chain[0] == Root && nodes[chain[0]].parent == None
       else nodes[chain[0]].parent == Some(chain[1]) && IsChain(nodes, chain[1..])
  }

  /** A chain ends at the root, and each of its nodes' parent is the next node. */
  lemma {:induction false} ChainEndsAtRoot(nodes: map<string, TreeNode>, chain: seq<string>)
    requires IsChain(nodes, chain)
    ensures chain[|chain| - 1] == Root
    ensures forall k :: 0 <= k < |chain| ==> chain[k] in nodes
    ensures forall k :: 0 <= k < |chain| - 1 ==> nodes[chain[k]].parent == Some(chain[k + 1])
    decreases |chain|
  {
    if |chain| > 1 {
      ChainEndsAtRoot(nodes, chain[1..]);
      assert forall k :: 1 <= k < |chain| ==> chain[k] == chain[1..][k - 1];
    }
  }

  /**
   * The parent chain of a node: the node, its parent, its parent's parent
   * and so on. Each step goes to a node earlier in `order`, so the chain is
   * finite, and it ends at the root.
   */
  ghost function ParentChain(nodes: map<string, TreeNode>, order: seq<string>, id: string): (chain: seq<string>)
    requires RootedAt(nodes, order) && id in nodes
    ensures IsChain(nodes, chain) && chain[0] == id
    ensures |chain| <= IndexOf(order, id) + 1
    decreases IndexOf(order, id)
  {
    var i := IndexOf(order, id);
    assert ParentEarlier(nodes, order, i);
    match nodes[id].parent
    case None => [id]
    case Some(p) =>
      assert IndexOf(order, p) < i by {
        var j :| 0 <= j < i && order[..i][j] == p;
        assert order[j] == p;
      }
      var rest := ParentChain(nodes, order, p);
      assert ([id] + rest)[1..] == rest;
      [id] + rest
  }

  /** The nodes of a walk's visits are of public notes, with their titles, and there are none exactly when the root is not public. */
  lemma NodesArePublic(documents: map<string, Note>, w: Weights, visits: seq<Visit>)
    requires VisitsShaped(documents, w, visits)
    requires visits == [] <==> !PublicNote(documents, Root)
    ensures forall id :: id in NodesOf(visits) ==>
      PublicNote(documents, id) && NodesOf(visits)[id].title == documents[id].title
    ensures NodesOf(visits) == map[] <==> !PublicNote(documents, Root)
  {
    forall id | id in NodesOf(visits) ensures PublicNote(documents, id) && NodesOf(visits)[id].title == documents[id].title {
      NodesOfKeys(visits, id);
      var i :| 0 <= i < |visits| && Slugs(visits)[i] == id;
      NodesOfAt(visits, i);
      assert VisitOk(documents, w, visits, i);
    }
    if visits != [] {
      NodesOfAt(visits, 0);
    }
  }

  /** A walk's visit order lists its nodes with every parent first. */
  lemma VisitOrderRooted(documents: map<string, Note>, w: Weights, visits: seq<Visit>)
    requires VisitsShaped(documents, w, visits)
    ensures RootedAt(NodesOf(visits), Slugs(visits))
  {
    var order := Slugs(visits);
    var nodes := NodesOf(visits);
    forall x ensures x in nodes <==> x in order {
      NodesOfKeys(visits, x);
    }
    forall i | 0 <= i < |order| ensures order[i] in nodes && ParentEarlier(nodes, order, i) {
      NodesOfAt(visits, i);
      assert VisitOk(documents, w, visits, i);
      if visits[i].parent.Some? {
        var j :| 0 <= j < i && visits[j].slug == visits[i].parent.value
                 && visits[i].cost == visits[j].cost + Step(documents[visits[i].parent.value], w);
        assert order[..i][j] == order[j];
      }
    }
  }

  /** Every public note that a node's note links to has a node too. */
  ghost predicate NodesClosed(documents: map<string, Note>, nodes: map<string, TreeNode>) {
    forall id, l :: id in nodes && LinkOf(documents, id, l) && PublicNote(documents, l) ==> l in nodes
  }

  /** Every node's parent links to it. */
  ghost predicate ParentsLink(documents: map<string, Note>, nodes: map<string, TreeNode>) {
    forall id :: id in nodes && nodes[id].parent.Some? ==> LinkOf(documents, nodes[id].parent.value, id)
  }

  /** The nodes of a closed walk are closed under public links, and every parent links to its child. */
  lemma NodesOfClosed(documents: map<string, Note>, w: Weights, visits: seq<Visit>)
    requires VisitsShaped(documents, w, visits) && VisitsClosed(documents, visits)
    ensures NodesClosed(documents, NodesOf(visits)) && ParentsLink(documents, NodesOf(visits))
  {
    var nodes := NodesOf(visits);
    forall id, l | id in nodes && LinkOf(documents, id, l) && PublicNote(documents, l) ensures l in nodes {
      NodesOfKeys(visits, id);
      var i :| 0 <= i < |visits| && Slugs(visits)[i] == id;
      assert EmittedBefore(visits, l, |visits|);
      var j :| 0 <= j < |visits| && visits[j].slug == l;
      assert Slugs(visits)[j] == l;
      NodesOfKeys(visits, l);
    }
    forall id | id in nodes && nodes[id].parent.Some? ensures LinkOf(documents, nodes[id].parent.value, id) {
      NodesOfKeys(visits, id);
      var i :| 0 <= i < |visits| && Slugs(visits)[i] == id;
      NodesOfAt(visits, i);
      assert VisitOk(documents, w, visits, i);
    }
  }

  /** `path` starts at `HomePage` and goes through public notes, each linking to the next. */
  ghost predicate PublicPath(documents: map<string, Note>, path: seq<string>) {
    && path != [] && path[0] == Root
    && (forall k :: 0 <= k < |path| ==> PublicNote(documents, path[k]))
    && (forall k :: 0 <= k < |path| - 1 ==> LinkOf(documents, path[k], path[k + 1]))
  }

  /** `id` can be reached from `HomePage` by following links through public notes only. */
  ghost predicate Reachable(documents: map<string, Note>, id: string) {
    exists path :: PublicPath(documents, path) && path[|path| - 1] == id
  }

  /** The end of every public path has a node, when the nodes are closed and hold `HomePage`. */
  lemma {:induction false} PathInTree(documents: map<string, Note>, nodes: map<string, TreeNode>, path: seq<string>)
    requires NodesClosed(documents, nodes) && Root in nodes && PublicPath(documents, path)
    ensures path[|path| - 1] in nodes
    decreases |path|
  {
    if |path| > 1 {
      var init := path[..|path| - 1];
      assert PublicPath(documents, init) by {
        assert forall k :: 0 <= k < |init| ==> init[k] == path[k];
      }
      PathInTree(documents, nodes, init);
      assert LinkOf(documents, path[|path| - 2], path[|path| - 1]);
    }
  }

  /** Every node is reachable, along its parents, when parents come first and link to their children. */
  lemma {:induction false} NodeReachable(documents: map<string, Note>, nodes: map<string, TreeNode>, order: seq<string>, id: string)
    requires RootedAt(nodes, order) && ParentsLink(documents, nodes)
    requires forall x :: x in nodes ==> PublicNote(documents, x)
    requires id in nodes
    ensures Reachable(documents, id)
    decreases IndexOf(order, id)
  {
    var i := IndexOf(order, id);
    assert ParentEarlier(nodes, order, i);
    match nodes[id].parent
    case None =>
      assert PublicPath(documents, [id]);
    case Some(p) =>
      assert IndexOf(order, p) < i by {
        var j :| 0 <= j < i && order[..i][j] == p;
        assert order[j] == p;
      }
      NodeReachable(documents, nodes, order, p);
      var path :| PublicPath(documents, path) && path[|path| - 1] == p;
      PathExtend(documents, path, id);
  }

  /** A public path followed by a public note its last note links to is a public path. */
  lemma PathExtend(documents: map<string, Note>, path: seq<string>, id: string)
    requires PublicPath(documents, path) && LinkOf(documents, path[|path| - 1], id) && PublicNote(documents, id)
    ensures PublicPath(documents, path + [id]) && (path + [id])[|path|] == id
  {
    var path' := path + [id];
    assert forall k :: 0 <= k < |path| ==> path'[k] == path[k];
  }

  /**
   * A tree whose nodes are public, closed under public links, rooted and
   * linked to by their parents holds exactly the notes reachable from
   * `HomePage` through public notes.
   */
  lemma TreeIsReachable(documents: map<string, Note>, nodes: map<string, TreeNode>, order: seq<string>)
    requires RootedAt(nodes, order) && ParentsLink(documents, nodes) && NodesClosed(documents, nodes)
    requires forall x :: x in nodes ==> PublicNote(documents, x)
    requires PublicNote(documents, Root) ==> Root in nodes
    ensures forall id :: id in nodes <==> Reachable(documents, id)
  {
    forall id ensures id in nodes <==> Reachable(documents, id) {
      if id in nodes {
        NodeReachable(documents, nodes, order, id);
      }
      if Reachable(documents, id) {
        var path :| PublicPath(documents, path) && path[|path| - 1] == id;
        PathInTree(documents, nodes, path);
      }
    }
  }

  /** Sorting the insertion order of the keys: sorted, the same keys. */
  lemma SortedKeys(order: seq<string>)
    requires NoDuplicates(order)
    ensures StrictlySorted(SortStrings(order)) && forall x :: x in SortStrings(order) <==> x in order
  {
    assert forall x :: x in SortStrings(order) <==> x in multiset(order);
  }

  /**
   * `generatePublicTree(db)`: the notes the walk emits, each with its title
   * and parent, under their ids in sorted order. Only public notes appear,
   * each once; the tree is empty exactly when `HomePage` is missing or not
   * public; the parents lead back to `HomePage` in the order the notes
   * were emitted, each parent linking to its child; and the nodes are
   * exactly the notes reachable from `HomePage` through public notes.
   */
  method GeneratePublicTree(db: NotesDatabase) returns (tree: Tree)
    ensures StrictlySorted(tree.ids) && forall x :: x in tree.ids <==> x in tree.nodes
    ensures forall id :: id in tree.nodes ==>
      PublicNote(db.documentMap, id) && tree.nodes[id].title == db.documentMap[id].title
    ensures tree.nodes == map[] <==> !PublicNote(db.documentMap, Root)
    ensures exists order :: RootedAt(tree.nodes, order)
    ensures ParentsLink(db.documentMap, tree.nodes) && NodesClosed(db.documentMap, tree.nodes)
    ensures forall id :: id in tree.nodes <==> Reachable(db.documentMap, id)
  {
    var visits := Walk(db.documentMap, TreeWeights);
    var order := Slugs(visits);
    SortedKeys(order);
    NodesArePublic(db.documentMap, TreeWeights, visits);
    VisitOrderRooted(db.documentMap, TreeWeights, visits);
    NodesOfClosed(db.documentMap, TreeWeights, visits);
    tree := Tree(SortStrings(order), NodesOf(visits));
    forall x ensures x in tree.ids <==> x in tree.nodes {
      NodesOfKeys(visits, x);
    }
    if PublicNote(db.documentMap, Root) {
      NodesOfAt(visits, 0);
    }
    TreeIsReachable(db.documentMap, tree.nodes, order);
  }
}
