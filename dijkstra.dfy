/**
 * Single-source shortest paths over a weighted adjacency mapping
 * (task_3_dijkstra.py): the lazy-deletion relaxation loop `dijkstra`,
 * here `Run`, and the backward predecessor walk `restore_path`, here
 * `RestorePath`.
 *
 * Distances are natural numbers with an explicit infinity; the binary
 * heap is an abstract multiset of `(distance, vertex)` entries from which
 * an entry of least distance is popped.
 */
module Dijkstra {
  import opened Options
  import opened Sequences

  type Vertex = string

  /** One entry `(v, w)` of an adjacency list. */
  datatype Edge = Edge(target: Vertex, weight: int)

  type Graph = map<Vertex, seq<Edge>>

  /** A recorded distance: a finite label or infinity. */
  datatype Dist = Fin(d: nat) | Inf

  /** A frontier entry `(distance, vertex)`. */
  datatype Entry = Entry(d: nat, v: Vertex)

  datatype Error = NegativeWeight

  /** The two tables the engine returns. */
  datatype Tables = Tables(dist: map<Vertex, Dist>, prev: map<Vertex, Option<Vertex>>)

  datatype Outcome = Done(tables: Tables) | Failed(error: Error)

  /** `nd < dist[v]`: every number is below infinity. */
  predicate Improves(nd: nat, cur: Dist) {
    cur.Inf? || nd < cur.d
  }

  /** `a <= b` on distances with infinity on top. */
  predicate Le(a: Dist, b: Dist) {
    b.Inf? || (a.Fin? && a.d <= b.d)
  }

  /** Every edge target is a key of the graph (otherwise `dist[v]` and `graph[u]` raise KeyError). */
  predicate Closed(graph: Graph) {
    forall u, e | u in graph && e in graph[u] :: e.target in graph
  }

  // ---------------------------------------------------------------------
  // Walks in the graph: sequences of edges taken one after the other.
  // ---------------------------------------------------------------------

  function End(from: Vertex, es: seq<Edge>): Vertex {
    if es == [] then from else es[|es| - 1].target
  }

  /** `es` is a walk leaving `from`: each edge is in the adjacency list of the vertex reached before it. */
  ghost predicate IsWalk(graph: Graph, from: Vertex, es: seq<Edge>)
    decreases |es|
  {
    es == [] ||
    (var init := es[..|es| - 1];
     IsWalk(graph, from, init) && End(from, init) in graph && es[|es| - 1] in graph[End(from, init)])
  }

  function Weight(es: seq<Edge>): int
    decreases |es|
  {
    if es == [] then 0 else Weight(es[..|es| - 1]) + es[|es| - 1].weight
  }

  /** The vertices a walk visits, `from` first. */
  function Trail(from: Vertex, es: seq<Edge>): (vs: seq<Vertex>)
    ensures |vs| == |es| + 1 && vs[0] == from && vs[|es|] == End(from, es)
    decreases |es|
  {
    if es == [] then [from] else Trail(from, es[..|es| - 1]) + [es[|es| - 1].target]
  }

  ghost predicate Reachable(graph: Graph, from: Vertex, v: Vertex) {
    exists es :: IsWalk(graph, from, es) && End(from, es) == v
  }

  predicate HasNegativeEdge(graph: Graph, u: Vertex) {
    u in graph && exists e | e in graph[u] :: e.weight < 0
  }

  /** Some vertex reachable from `start` has an outgoing edge of negative weight. */
  ghost predicate NegativeReachable(graph: Graph, start: Vertex) {
    exists u :: Reachable(graph, start, u) && HasNegativeEdge(graph, u)
  }

  lemma WalkSnoc(graph: Graph, from: Vertex, es: seq<Edge>, e: Edge)
    requires IsWalk(graph, from, es) && End(from, es) in graph && e in graph[End(from, es)]
    ensures IsWalk(graph, from, es + [e]) && End(from, es + [e]) == e.target
    ensures Weight(es + [e]) == Weight(es) + e.weight
    ensures Trail(from, es + [e]) == Trail(from, es) + [e.target]
  {
    assert (es + [e])[..|es|] == es;
  }

  // ---------------------------------------------------------------------
  // What the returned tables satisfy.
  // ---------------------------------------------------------------------

  /** For every reached `u` and every `(v, w)` in `graph[u]`: `dist[v] <= dist[u] + w`. */
  ghost predicate EdgesRelaxed(graph: Graph, dist: map<Vertex, Dist>) {
    forall u, e | u in graph && u in dist && dist[u].Fin? && e in graph[u] ::
      e.target in dist && dist[e.target].Fin? && dist[e.target].d <= dist[u].d + e.weight
  }

  /** Every edge leaving a reached vertex has been checked for a negative weight. */
  ghost predicate ReachedEdgesNonNegative(graph: Graph, dist: map<Vertex, Dist>) {
    forall u, e | u in graph && u in dist && dist[u].Fin? && e in graph[u] :: e.weight >= 0
  }

  /** `u` is reached and some edge `u -> v` accounts exactly for `dist[v]`. */
  ghost predicate TightEdge(graph: Graph, dist: map<Vertex, Dist>, u: Vertex, v: Vertex) {
    && u in graph && u in dist && v in dist && dist[u].Fin? && dist[v].Fin?
    && exists e | e in graph[u] :: e.target == v && dist[v].d == dist[u].d + e.weight
  }

  ghost predicate PrevTight(graph: Graph, t: Tables) {
    forall v | v in t.prev && t.prev[v].Some? :: TightEdge(graph, t.dist, t.prev[v].value, v)
  }

  /** The predecessor relation is closed and descends along `rank`, so the backward walk ends. */
  ghost predicate Ranked(prev: map<Vertex, Option<Vertex>>, rank: map<Vertex, nat>) {
    forall v | v in prev ::
      v in rank && (prev[v].Some? ==> prev[v].value in prev && prev[v].value in rank && rank[prev[v].value] < rank[v])
  }

  /** The start vertex has distance 0 and no predecessor; every other vertex is unreached exactly when it has no predecessor. */
  ghost predicate StartAndUnreached(start: Vertex, dist: map<Vertex, Dist>, prev: map<Vertex, Option<Vertex>>) {
    && start in dist && start in prev && dist[start] == Fin(0) && prev[start] == None
    && forall v | v in dist && v != start :: v in prev && (dist[v].Inf? <==> prev[v].None?)
  }

  /** Everything `Run` promises about the tables of a normal termination. */
  ghost predicate Solved(graph: Graph, start: Vertex, t: Tables, rank: map<Vertex, nat>) {
    && t.dist.Keys == graph.Keys && t.prev.Keys == graph.Keys
    && StartAndUnreached(start, t.dist, t.prev)
    && EdgesRelaxed(graph, t.dist)
    && ReachedEdgesNonNegative(graph, t.dist)
    && PrevTight(graph, t)
    && Ranked(t.prev, rank)
  }

  // ---------------------------------------------------------------------
  // Loop invariants of Run and the termination measure.
  // ---------------------------------------------------------------------

  /** Each frontier entry names a reached vertex, is no better than its recorded distance and no lower than the last settled one. */
  ghost predicate FrontierOk(dist: map<Vertex, Dist>, heap: multiset<Entry>, floor: nat) {
    forall e | e in heap :: e.v in dist && dist[e.v].Fin? && dist[e.v].d <= e.d && floor <= e.d
  }

  /** A reached vertex has been scanned or still has its current entry in the frontier. */
  ghost predicate Covered(dist: map<Vertex, Dist>, heap: multiset<Entry>, scanned: set<Vertex>) {
    forall v | v in dist && dist[v].Fin? :: v in scanned || Entry(dist[v].d, v) in heap
  }

  /** The first `n` edges of `u` are non-negative and relaxed. */
  ghost predicate RelaxedPrefix(graph: Graph, dist: map<Vertex, Dist>, u: Vertex, n: nat)
    requires u in graph && n <= |graph[u]|
  {
    && u in dist && dist[u].Fin?
    && forall j | 0 <= j < n ::
         graph[u][j].weight >= 0 && graph[u][j].target in dist && dist[graph[u][j].target].Fin? &&
         dist[graph[u][j].target].d <= dist[u].d + graph[u][j].weight
  }

  /** Scanned vertices are final (at most the last settled distance) and have all their edges relaxed. */
  ghost predicate Settled(graph: Graph, dist: map<Vertex, Dist>, scanned: set<Vertex>, floor: nat) {
    forall x | x in scanned ::
      x in graph && x in dist && dist[x].Fin? && dist[x].d <= floor && RelaxedPrefix(graph, dist, x, |graph[x]|)
  }

  /** Predecessors are scanned vertices whose edge is tight, and rank grows along a link into a scanned vertex. */
  ghost predicate PrevOk(graph: Graph, dist: map<Vertex, Dist>, prev: map<Vertex, Option<Vertex>>,
                         scanned: set<Vertex>, rank: map<Vertex, nat>) {
    forall v | v in prev && prev[v].Some? ::
      && prev[v].value in scanned && prev[v].value in rank
      && TightEdge(graph, dist, prev[v].value, v)
      && (v in scanned ==> v in rank && rank[prev[v].value] < rank[v])
  }

  /** Scanned vertices are ranked in the order they were first scanned. */
  ghost predicate RankOk(rank: map<Vertex, nat>, scanned: set<Vertex>) {
    rank.Keys == scanned && forall x | x in rank :: rank[x] < |scanned|
  }

  /** The invariant of the outer `while heap` loop. */
  ghost predicate LoopInv(graph: Graph, start: Vertex, dist: map<Vertex, Dist>, prev: map<Vertex, Option<Vertex>>,
                          heap: multiset<Entry>, scanned: set<Vertex>, rank: map<Vertex, nat>, floor: nat) {
    && dist.Keys == graph.Keys && prev.Keys == graph.Keys
    && StartAndUnreached(start, dist, prev)
    && scanned <= graph.Keys && RankOk(rank, scanned)
    && FrontierOk(dist, heap, floor)
    && Covered(dist, heap, scanned)
    && Settled(graph, dist, scanned, floor)
    && PrevOk(graph, dist, prev, scanned, rank)
  }

  /** The invariant of the scan of `graph[u]`, popped at distance `cur`, after its first `i` edges. */
  ghost predicate ScanInv(graph: Graph, start: Vertex, dist: map<Vertex, Dist>, prev: map<Vertex, Option<Vertex>>,
                          heap: multiset<Entry>, scanned: set<Vertex>, rank: map<Vertex, nat>, floor: nat,
                          u: Vertex, cur: nat, i: nat) {
    && u in graph && i <= |graph[u]|
    && dist.Keys == graph.Keys && prev.Keys == graph.Keys
    && StartAndUnreached(start, dist, prev)
    && scanned <= graph.Keys && RankOk(rank, scanned)
    && u in scanned && dist[u] == Fin(cur) && cur == floor
    && FrontierOk(dist, heap, floor)
    && Covered(dist, heap, scanned)
    && Settled(graph, dist, scanned - {u}, floor)
    && RelaxedPrefix(graph, dist, u, i)
    && PrevOk(graph, dist, prev, scanned, rank)
  }

  lemma InitialInv(graph: Graph, start: Vertex)
    requires start in graph
    ensures LoopInv(graph, start, (map v | v in graph :: Inf)[start := Fin(0)], map v | v in graph :: None,
                    multiset{Entry(0, start)}, {}, map[], 0)
  {
  }

  /** Popping a stale entry keeps the invariant. */
  lemma StaleKeeps(graph: Graph, start: Vertex, dist: map<Vertex, Dist>, prev: map<Vertex, Option<Vertex>>,
                   heap: multiset<Entry>, scanned: set<Vertex>, rank: map<Vertex, nat>, floor: nat, entry: Entry)
    requires LoopInv(graph, start, dist, prev, heap, scanned, rank, floor)
    requires entry in heap && Fin(entry.d) != dist[entry.v]
    ensures LoopInv(graph, start, dist, prev, heap - multiset{entry}, scanned, rank, floor)
  {
    CoveredAfterPop(dist, heap, scanned, entry, scanned);
  }

  lemma CoveredAfterPop(dist: map<Vertex, Dist>, heap: multiset<Entry>, scanned: set<Vertex>, entry: Entry,
                        scanned': set<Vertex>)
    requires Covered(dist, heap, scanned) && scanned <= scanned'
    requires entry.v in dist && (dist[entry.v] == Fin(entry.d) ==> entry.v in scanned')
    ensures Covered(dist, heap - multiset{entry}, scanned')
  {
    forall v | v in dist && dist[v].Fin? && v !in scanned'
      ensures Entry(dist[v].d, v) in heap - multiset{entry}
    {
      assert Entry(dist[v].d, v) != entry;
    }
  }

  lemma FrontierAfterPop(dist: map<Vertex, Dist>, heap: multiset<Entry>, floor: nat, entry: Entry)
    requires FrontierOk(dist, heap, floor) && entry in heap && forall x | x in heap :: entry.d <= x.d
    ensures FrontierOk(dist, heap - multiset{entry}, entry.d) && floor <= entry.d
  {
  }

  lemma PrevAfterScan(graph: Graph, dist: map<Vertex, Dist>, prev: map<Vertex, Option<Vertex>>,
                      scanned: set<Vertex>, rank: map<Vertex, nat>, u: Vertex)
    requires PrevOk(graph, dist, prev, scanned, rank) && RankOk(rank, scanned)
    ensures var rank' := if u in scanned then rank else rank[u := |scanned|];
      PrevOk(graph, dist, prev, scanned + {u}, rank') && RankOk(rank', scanned + {u})
  {
    var scanned' := scanned + {u};
    var rank' := if u in scanned then rank else rank[u := |scanned|];
    if u !in scanned {
      assert |scanned'| == |scanned| + 1;
      forall v | v in prev && prev[v].Some?
        ensures prev[v].value in rank' && rank'[prev[v].value] == rank[prev[v].value]
      {
      }
    }
  }

  lemma SettledAfterScan(graph: Graph, dist: map<Vertex, Dist>, scanned: set<Vertex>, floor: nat, u: Vertex, cur: nat)
    requires Settled(graph, dist, scanned, floor) && floor <= cur
    ensures Settled(graph, dist, (scanned + {u}) - {u}, cur)
  {
  }

  /** Popping a least entry that is current starts the scan of its vertex. */
  lemma PopKeeps(graph: Graph, start: Vertex, dist: map<Vertex, Dist>, prev: map<Vertex, Option<Vertex>>,
                 heap: multiset<Entry>, scanned: set<Vertex>, rank: map<Vertex, nat>, floor: nat, entry: Entry)
    requires LoopInv(graph, start, dist, prev, heap, scanned, rank, floor)
    requires entry in heap && (forall x | x in heap :: entry.d <= x.d) && Fin(entry.d) == dist[entry.v]
    ensures var u := entry.v;
      ScanInv(graph, start, dist, prev, heap - multiset{entry}, scanned + {u},
              if u in scanned then rank else rank[u := |scanned|], entry.d, u, entry.d, 0)
  {
    var u := entry.v;
    CoveredAfterPop(dist, heap, scanned, entry, scanned + {u});
    FrontierAfterPop(dist, heap, floor, entry);
    PrevAfterScan(graph, dist, prev, scanned, rank, u);
    SettledAfterScan(graph, dist, scanned, floor, u, entry.d);
  }

  /**
   * Tables and frontier change only on a strict improvement: the old
   * frontier entries are kept, every new entry is for a vertex whose
   * distance dropped, and a vertex whose distance stayed (a tie included)
   * keeps its predecessor.
   */
  ghost predicate OnlyOnImprovement(dist0: map<Vertex, Dist>, prev0: map<Vertex, Option<Vertex>>, heap0: multiset<Entry>,
                                    dist: map<Vertex, Dist>, prev: map<Vertex, Option<Vertex>>, heap: multiset<Entry>) {
    && heap0 <= heap
    && (forall e | e in heap - heap0 :: e.v in dist0 && e.v in dist && dist[e.v].Fin? && Improves(dist[e.v].d, dist0[e.v]))
    && (forall x | x in dist0 && x in dist && dist[x] == dist0[x] :: x in prev0 && x in prev && prev[x] == prev0[x])
  }

  /** A strict improvement of `v` through `u` keeps `OnlyOnImprovement`. */
  lemma ImproveOnly(dist0: map<Vertex, Dist>, prev0: map<Vertex, Option<Vertex>>, heap0: multiset<Entry>,
                    dist: map<Vertex, Dist>, prev: map<Vertex, Option<Vertex>>, heap: multiset<Entry>,
                    u: Vertex, v: Vertex, nd: nat)
    requires OnlyOnImprovement(dist0, prev0, heap0, dist, prev, heap) && NoWorse(dist, dist0)
    requires v in dist && Improves(nd, dist[v])
    ensures OnlyOnImprovement(dist0, prev0, heap0, dist[v := Fin(nd)], prev[v := Some(u)], heap + multiset{Entry(nd, v)})
  {
    var dist', heap' := dist[v := Fin(nd)], heap + multiset{Entry(nd, v)};
    assert Improves(nd, dist0[v]) by { assert Le(dist[v], dist0[v]); }
    forall e | e in heap' - heap0
      ensures e.v in dist0 && e.v in dist' && dist'[e.v].Fin? && Improves(dist'[e.v].d, dist0[e.v])
    {
      if e != Entry(nd, v) {
        assert e in heap - heap0;
        if e.v == v {
          assert Le(dist[v], dist0[v]);
        }
      }
    }
  }

  /** A distance table no worse anywhere than `dist`. */
  ghost predicate NoWorse(dist': map<Vertex, Dist>, dist: map<Vertex, Dist>) {
    dist'.Keys == dist.Keys && forall x | x in dist :: Le(dist'[x], dist[x])
  }

  lemma PrefixNoWorse(graph: Graph, dist: map<Vertex, Dist>, dist': map<Vertex, Dist>, x: Vertex, n: nat)
    requires x in graph && n <= |graph[x]| && RelaxedPrefix(graph, dist, x, n)
    requires NoWorse(dist', dist) && dist'[x] == dist[x]
    ensures RelaxedPrefix(graph, dist', x, n)
  {
    forall j | 0 <= j < n ensures Le(dist'[graph[x][j].target], dist[graph[x][j].target]) {
    }
  }

  lemma SettledNoWorse(graph: Graph, dist: map<Vertex, Dist>, dist': map<Vertex, Dist>, s: set<Vertex>, floor: nat)
    requires Settled(graph, dist, s, floor) && NoWorse(dist', dist)
    requires forall x | x in s :: dist'[x] == dist[x]
    ensures Settled(graph, dist', s, floor)
  {
    forall x | x in s ensures RelaxedPrefix(graph, dist', x, |graph[x]|) {
      PrefixNoWorse(graph, dist, dist', x, |graph[x]|);
    }
  }

  lemma FrontierPush(dist: map<Vertex, Dist>, heap: multiset<Entry>, floor: nat, v: Vertex, nd: nat)
    requires FrontierOk(dist, heap, floor) && v in dist && Improves(nd, dist[v]) && floor <= nd
    ensures FrontierOk(dist[v := Fin(nd)], heap + multiset{Entry(nd, v)}, floor)
  {
  }

  lemma CoveredPush(dist: map<Vertex, Dist>, heap: multiset<Entry>, scanned: set<Vertex>, v: Vertex, nd: nat)
    requires Covered(dist, heap, scanned) && v in dist
    ensures Covered(dist[v := Fin(nd)], heap + multiset{Entry(nd, v)}, scanned)
  {
  }

  lemma PrevPush(graph: Graph, dist: map<Vertex, Dist>, prev: map<Vertex, Option<Vertex>>,
                 scanned: set<Vertex>, rank: map<Vertex, nat>, u: Vertex, cur: nat, v: Vertex, e: Edge)
    requires PrevOk(graph, dist, prev, scanned, rank) && RankOk(rank, scanned)
    requires u in graph && e in graph[u] && e.target == v && e.weight >= 0
    requires u in scanned && u in dist && dist[u] == Fin(cur) && v in dist && v !in scanned
    ensures PrevOk(graph, dist[v := Fin(cur + e.weight)], prev[v := Some(u)], scanned, rank)
  {
    var dist' := dist[v := Fin(cur + e.weight)];
    var prev' := prev[v := Some(u)];
    forall y | y in prev' && prev'[y].Some?
      ensures TightEdge(graph, dist', prev'[y].value, y)
    {
      if y != v {
        var x := prev[y].value;
        var ex :| ex in graph[x] && ex.target == y && dist[y].d == dist[x].d + ex.weight;
        assert dist'[y].d == dist'[x].d + ex.weight;
      } else {
        assert dist'[v].d == dist'[u].d + e.weight;
      }
    }
  }

  lemma StartPush(start: Vertex, dist: map<Vertex, Dist>, prev: map<Vertex, Option<Vertex>>, u: Vertex, v: Vertex, nd: nat)
    requires StartAndUnreached(start, dist, prev) && v in dist && v != start
    ensures StartAndUnreached(start, dist[v := Fin(nd)], prev[v := Some(u)])
  {
  }

  lemma PrefixExtend(graph: Graph, dist: map<Vertex, Dist>, u: Vertex, i: nat)
    requires u in graph && i < |graph[u]| && RelaxedPrefix(graph, dist, u, i)
    requires graph[u][i].weight >= 0 && graph[u][i].target in dist && dist[graph[u][i].target].Fin?
    requires dist[graph[u][i].target].d <= dist[u].d + graph[u][i].weight
    ensures RelaxedPrefix(graph, dist, u, i + 1)
  {
  }

  /** The target of a strict improvement is neither the start, nor the scanned vertex, nor settled. */
  lemma ImprovedIsOpen(graph: Graph, start: Vertex, dist: map<Vertex, Dist>, prev: map<Vertex, Option<Vertex>>,
                       scanned: set<Vertex>, floor: nat, u: Vertex, v: Vertex, nd: nat)
    requires StartAndUnreached(start, dist, prev) && Settled(graph, dist, scanned - {u}, floor)
    requires u in scanned && u in dist && dist[u] == Fin(floor) && floor <= nd
    requires v in dist && Improves(nd, dist[v])
    ensures v != start && v != u && v !in scanned
  {
  }

  /** The tables after a strict improvement along edge `i`: distances, frontier and relaxed edges. */
  lemma ImproveDistances(graph: Graph, start: Vertex, dist: map<Vertex, Dist>, prev: map<Vertex, Option<Vertex>>,
                         heap: multiset<Entry>, scanned: set<Vertex>, rank: map<Vertex, nat>, floor: nat,
                         u: Vertex, cur: nat, i: nat, v: Vertex, nd: nat)
    requires Closed(graph)
    requires ScanInv(graph, start, dist, prev, heap, scanned, rank, floor, u, cur, i)
    requires i < |graph[u]| && graph[u][i].weight >= 0
    requires v == graph[u][i].target && nd == cur + graph[u][i].weight && Improves(nd, dist[v])
    ensures v != start && v != u && v !in scanned
    ensures FrontierOk(dist[v := Fin(nd)], heap + multiset{Entry(nd, v)}, floor)
    ensures Covered(dist[v := Fin(nd)], heap + multiset{Entry(nd, v)}, scanned)
    ensures Settled(graph, dist[v := Fin(nd)], scanned - {u}, floor)
    ensures RelaxedPrefix(graph, dist[v := Fin(nd)], u, i + 1)
  {
    assert graph[u][i] in graph[u];
    var dist' := dist[v := Fin(nd)];
    ImprovedIsOpen(graph, start, dist, prev, scanned, floor, u, v, nd);
    assert NoWorse(dist', dist);
    SettledNoWorse(graph, dist, dist', scanned - {u}, floor);
    PrefixNoWorse(graph, dist, dist', u, i);
    PrefixExtend(graph, dist', u, i);
    FrontierPush(dist, heap, floor, v, nd);
    CoveredPush(dist, heap, scanned, v, nd);
  }

  /** A strict improvement along edge `i` of the scanned vertex keeps the scan invariant for `i + 1` edges. */
  lemma ImproveKeeps(graph: Graph, start: Vertex, dist: map<Vertex, Dist>, prev: map<Vertex, Option<Vertex>>,
                     heap: multiset<Entry>, scanned: set<Vertex>, rank: map<Vertex, nat>, floor: nat,
                     u: Vertex, cur: nat, i: nat, v: Vertex, nd: nat)
    requires Closed(graph)
    requires ScanInv(graph, start, dist, prev, heap, scanned, rank, floor, u, cur, i)
    requires i < |graph[u]| && graph[u][i].weight >= 0
    requires v == graph[u][i].target && nd == cur + graph[u][i].weight && Improves(nd, dist[v])
    ensures ScanInv(graph, start, dist[v := Fin(nd)], prev[v := Some(u)], heap + multiset{Entry(nd, v)},
                    scanned, rank, floor, u, cur, i + 1)
  {
    ImproveDistances(graph, start, dist, prev, heap, scanned, rank, floor, u, cur, i, v, nd);
    assert graph[u][i] in graph[u];
    PrevPush(graph, dist, prev, scanned, rank, u, cur, v, graph[u][i]);
    StartPush(start, dist, prev, u, v, nd);
  }

  /** Edge `i` of the scanned vertex that brings no improvement is already relaxed. */
  lemma SkipKeeps(graph: Graph, start: Vertex, dist: map<Vertex, Dist>, prev: map<Vertex, Option<Vertex>>,
                  heap: multiset<Entry>, scanned: set<Vertex>, rank: map<Vertex, nat>, floor: nat,
                  u: Vertex, cur: nat, i: nat)
    requires Closed(graph)
    requires ScanInv(graph, start, dist, prev, heap, scanned, rank, floor, u, cur, i)
    requires i < |graph[u]| && graph[u][i].weight >= 0
    requires !Improves(cur + graph[u][i].weight, dist[graph[u][i].target])
    ensures ScanInv(graph, start, dist, prev, heap, scanned, rank, floor, u, cur, i + 1)
  {
    assert graph[u][i] in graph[u];
  }

  /** Once every edge of the scanned vertex is relaxed, the outer invariant holds again. */
  lemma ScanDone(graph: Graph, start: Vertex, dist: map<Vertex, Dist>, prev: map<Vertex, Option<Vertex>>,
                 heap: multiset<Entry>, scanned: set<Vertex>, rank: map<Vertex, nat>, floor: nat, u: Vertex, cur: nat)
    requires u in graph && ScanInv(graph, start, dist, prev, heap, scanned, rank, floor, u, cur, |graph[u]|)
    ensures LoopInv(graph, start, dist, prev, heap, scanned, rank, floor)
  {
  }

  ghost function Val(dist: map<Vertex, Dist>, k: Vertex): nat {
    if k in dist && dist[k].Fin? then dist[k].d else 0
  }

  ghost function Unreached(dist: map<Vertex, Dist>, k: Vertex): nat {
    if k in dist && dist[k].Inf? then 1 else 0
  }

  /** The keys of a set, in some fixed order. */
  ghost function SeqOf(s: set<Vertex>): (ks: seq<Vertex>)
    ensures forall k :: k in ks <==> k in s
    decreases s
  {
    if s == {} then [] else var k :| k in s; [k] + SeqOf(s - {k})
  }

  /** The sum of the finite distances of the keys `ks`. */
  ghost function FinSum(dist: map<Vertex, Dist>, ks: seq<Vertex>): nat
    decreases |ks|
  {
    if ks == [] then 0 else Val(dist, ks[0]) + FinSum(dist, ks[1..])
  }

  lemma {:induction false} FinSumDrop(d1: map<Vertex, Dist>, d2: map<Vertex, Dist>, ks: seq<Vertex>, x: Vertex)
    requires Val(d2, x) <= Val(d1, x)
    requires forall k | k in ks && k != x :: Val(d1, k) == Val(d2, k)
    ensures FinSum(d2, ks) <= FinSum(d1, ks)
    ensures x in ks && Val(d2, x) < Val(d1, x) ==> FinSum(d2, ks) < FinSum(d1, ks)
    decreases |ks|
  {
    if ks != [] {
      FinSumDrop(d1, d2, ks[1..], x);
    }
  }

  /** The number of keys `ks` not yet reached. */
  ghost function InfCount(dist: map<Vertex, Dist>, ks: seq<Vertex>): nat
    decreases |ks|
  {
    if ks == [] then 0 else Unreached(dist, ks[0]) + InfCount(dist, ks[1..])
  }

  lemma {:induction false} InfCountDrop(d1: map<Vertex, Dist>, d2: map<Vertex, Dist>, ks: seq<Vertex>, x: Vertex)
    requires Unreached(d2, x) <= Unreached(d1, x)
    requires forall k | k in ks && k != x :: Unreached(d1, k) == Unreached(d2, k)
    ensures InfCount(d2, ks) <= InfCount(d1, ks)
    ensures x in ks && Unreached(d2, x) < Unreached(d1, x) ==> InfCount(d2, ks) < InfCount(d1, ks)
    decreases |ks|
  {
    if ks != [] {
      InfCountDrop(d1, d2, ks[1..], x);
    }
  }

  /** The termination measure of the main loop, lexicographic: unreached keys first, then the sum of distances. */
  ghost predicate Below(d: map<Vertex, Dist>, d0: map<Vertex, Dist>, ks: seq<Vertex>) {
    || InfCount(d, ks) < InfCount(d0, ks)
    || (InfCount(d, ks) == InfCount(d0, ks) && FinSum(d, ks) < FinSum(d0, ks))
  }

  /** A strict improvement lowers the measure. */
  lemma ImprovementProgress(dist: map<Vertex, Dist>, v: Vertex, nd: nat, ks: seq<Vertex>)
    requires v in dist && v in ks && Improves(nd, dist[v])
    ensures Below(dist[v := Fin(nd)], dist, ks)
  {
    var d2 := dist[v := Fin(nd)];
    InfCountDrop(dist, d2, ks, v);
    if dist[v].Fin? {
      FinSumDrop(dist, d2, ks, v);
    }
  }

  /** The scan so far has lowered the measure, or changed neither it nor the frontier. */
  ghost predicate Progress(dist0: map<Vertex, Dist>, heap0: multiset<Entry>,
                           dist: map<Vertex, Dist>, heap: multiset<Entry>, ks: seq<Vertex>) {
    || Below(dist, dist0, ks)
    || (InfCount(dist, ks) == InfCount(dist0, ks) && FinSum(dist, ks) == FinSum(dist0, ks) && heap == heap0)
  }

  lemma ProgressStep(dist0: map<Vertex, Dist>, heap0: multiset<Entry>, dist: map<Vertex, Dist>,
                     heap: multiset<Entry>, ks: seq<Vertex>, v: Vertex, nd: nat)
    requires Progress(dist0, heap0, dist, heap, ks) && v in dist && v in ks && Improves(nd, dist[v])
    requires NoWorse(dist, dist0)
    ensures Progress(dist0, heap0, dist[v := Fin(nd)], heap + multiset{Entry(nd, v)}, ks)
    ensures NoWorse(dist[v := Fin(nd)], dist0)
  {
    ImprovementProgress(dist, v, nd, ks);
  }

  lemma MinEntry(heap: multiset<Entry>) returns (m: Entry)
    requires heap != multiset{}
    ensures m in heap && forall x | x in heap :: m.d <= x.d
    decreases |heap|
  {
    var y :| y in heap;
    var rest := heap - multiset{y};
    m := y;
    if rest != multiset{} {
      var mr := MinEntry(rest);
      if mr.d < y.d {
        m := mr;
      }
    }
    forall x | x in heap ensures m.d <= x.d {
      if x != y {
        assert x in rest;
      }
    }
  }

  /** A scanned vertex is reachable along the predecessor links, by a walk as long as its distance. */
  lemma ScannedReachable(graph: Graph, start: Vertex, dist: map<Vertex, Dist>, prev: map<Vertex, Option<Vertex>>,
                         scanned: set<Vertex>, rank: map<Vertex, nat>, u: Vertex) returns (es: seq<Edge>)
    requires u in scanned && RankOk(rank, scanned)
    requires StartAndUnreached(start, dist, prev)
    requires forall x | x in scanned :: x in dist && dist[x].Fin?
    requires PrevOk(graph, dist, prev, scanned, rank)
    ensures IsWalk(graph, start, es) && End(start, es) == u && Weight(es) == dist[u].d
    decreases rank[u]
  {
    if u == start {
      es := [];
    } else {
      var x := prev[u].value;
      var es0 := ScannedReachable(graph, start, dist, prev, scanned, rank, x);
      var e :| e in graph[x] && e.target == u && dist[u].d == dist[x].d + e.weight;
      WalkSnoc(graph, start, es0, e);
      es := es0 + [e];
    }
  }

  // ---------------------------------------------------------------------
  // dijkstra
  // ---------------------------------------------------------------------

  /**
   * `dijkstra(graph, start)`. Fails exactly when a vertex reachable from
   * `start` has an edge of negative weight; otherwise returns tables that
   * are `Solved` (the lemmas below say what that implies).
   */
  method Run(graph: Graph, start: Vertex) returns (r: Outcome, ghost rank: map<Vertex, nat>)
    requires start in graph && Closed(graph)
    ensures r.Failed? <==> NegativeReachable(graph, start)
    ensures r.Done? ==> Solved(graph, start, r.tables, rank)
  {
    var dist: map<Vertex, Dist> := map v | v in graph :: Inf;
    var prev: map<Vertex, Option<Vertex>> := map v | v in graph :: None;
    dist := dist[start := Fin(0)];
    var heap: multiset<Entry> := multiset{Entry(0, start)};
    ghost var scanned: set<Vertex> := {};
    ghost var floor: nat := 0;
    ghost var ks := SeqOf(graph.Keys);
    rank := map[];
    InitialInv(graph, start);

    while heap != multiset{}
      invariant LoopInv(graph, start, dist, prev, heap, scanned, rank, floor)
      decreases InfCount(dist, ks), FinSum(dist, ks), |heap|
    {
      var entry, negative;
      entry, negative, dist, prev, heap, scanned, rank, floor := Turn(graph, start, dist, prev, heap, scanned, rank, floor, ks);
      if negative {
        return Failed(NegativeWeight), rank;
      }
    }

    ghost var fullRank := map v | v in graph :: if v in rank then rank[v] else 0;
    FinalTables(graph, start, dist, prev, scanned, rank, floor, fullRank);
    r, rank := Done(Tables(dist, prev)), fullRank;
    SolvedNoNegativeReachable(graph, start, r.tables, rank);
  }

  /**
   * One turn of the main loop of `dijkstra`: pops an entry of least
   * distance and skips it when a better one was pushed after it; otherwise
   * scans the edges of its vertex. `negative` tells that the scan met an
   * edge of negative weight, which is then reachable from `start`. A
   * stale entry changes nothing but the heap.
   */
  method Turn(graph: Graph, start: Vertex, dist0: map<Vertex, Dist>, prev0: map<Vertex, Option<Vertex>>,
              heap0: multiset<Entry>, ghost scanned0: set<Vertex>, ghost rank0: map<Vertex, nat>,
              ghost floor0: nat, ghost ks: seq<Vertex>)
    returns (entry: Entry, negative: bool, dist: map<Vertex, Dist>, prev: map<Vertex, Option<Vertex>>,
             heap: multiset<Entry>, ghost scanned: set<Vertex>, ghost rank: map<Vertex, nat>, ghost floor: nat)
    requires Closed(graph) && forall k | k in graph :: k in ks
    requires LoopInv(graph, start, dist0, prev0, heap0, scanned0, rank0, floor0) && heap0 != multiset{}
    ensures entry in heap0 && (forall x | x in heap0 :: entry.d <= x.d) && entry.v in dist0
    ensures Fin(entry.d) != dist0[entry.v] ==> !negative && dist == dist0 && prev == prev0 && heap == heap0 - multiset{entry}
    ensures negative <==> Fin(entry.d) == dist0[entry.v] && HasNegativeEdge(graph, entry.v)
    ensures !negative ==> NoWorse(dist, dist0)
    ensures !negative ==> OnlyOnImprovement(dist0, prev0, heap0 - multiset{entry}, dist, prev, heap)
    ensures negative ==> NegativeReachable(graph, start)
    ensures !negative ==> LoopInv(graph, start, dist, prev, heap, scanned, rank, floor)
    ensures !negative ==> Lower(dist0, heap0, dist, heap, ks)
  {
    ghost var least := MinEntry(heap0);
    entry :| entry in heap0 && forall x | x in heap0 :: entry.d <= x.d;
    heap := heap0 - multiset{entry};
    var cur, u := entry.d, entry.v;

    // A stale entry: a better one was pushed after it.
    if Fin(cur) != dist0[u] {
      StaleKeeps(graph, start, dist0, prev0, heap0, scanned0, rank0, floor0, entry);
      return entry, false, dist0, prev0, heap, scanned0, rank0, floor0;
    }

    PopKeeps(graph, start, dist0, prev0, heap0, scanned0, rank0, floor0, entry);
    rank := if u in scanned0 then rank0 else rank0[u := |scanned0|];
    scanned := scanned0 + {u};
    floor := cur;
    negative, dist, prev, heap := ScanEdges(graph, start, u, cur, dist0, prev0, heap, scanned, rank, ks);
    if negative {
      ghost var es := ScannedReachable(graph, start, dist0, prev0, scanned, rank, u);
      assert Reachable(graph, start, u);
      return;
    }
    ScanDone(graph, start, dist, prev, heap, scanned, rank, floor, u, cur);
  }

  /** The measure of the main loop went down: a lower `Below` measure, or the same one and a smaller heap. */
  ghost predicate Lower(dist0: map<Vertex, Dist>, heap0: multiset<Entry>,
                        dist: map<Vertex, Dist>, heap: multiset<Entry>, ks: seq<Vertex>) {
    || Below(dist, dist0, ks)
    || (InfCount(dist, ks) == InfCount(dist0, ks) && FinSum(dist, ks) == FinSum(dist0, ks) && |heap| < |heap0|)
  }

  /**
   * The `for v, w in graph[u]` loop of `dijkstra`: stops at the first
   * negative weight, otherwise relaxes every edge of `u` in order.
   */
  method ScanEdges(graph: Graph, start: Vertex, u: Vertex, cur: nat,
                   dist0: map<Vertex, Dist>, prev0: map<Vertex, Option<Vertex>>, heap0: multiset<Entry>,
                   ghost scanned: set<Vertex>, ghost rank: map<Vertex, nat>, ghost ks: seq<Vertex>)
    returns (negative: bool, dist: map<Vertex, Dist>, prev: map<Vertex, Option<Vertex>>, heap: multiset<Entry>)
    requires Closed(graph) && forall k | k in graph :: k in ks
    requires ScanInv(graph, start, dist0, prev0, heap0, scanned, rank, cur, u, cur, 0)
    ensures negative <==> HasNegativeEdge(graph, u)
    ensures !negative ==> ScanInv(graph, start, dist, prev, heap, scanned, rank, cur, u, cur, |graph[u]|)
    ensures !negative ==> Progress(dist0, heap0, dist, heap, ks)
    ensures !negative ==> NoWorse(dist, dist0)
    ensures !negative ==> OnlyOnImprovement(dist0, prev0, heap0, dist, prev, heap)
  {
    dist, prev, heap := dist0, prev0, heap0;
    var edges := graph[u];
    var i := 0;
    while i < |edges|
      invariant 0 <= i <= |edges| && edges == graph[u]
      invariant ScanInv(graph, start, dist, prev, heap, scanned, rank, cur, u, cur, i)
      invariant Progress(dist0, heap0, dist, heap, ks)
      invariant NoWorse(dist, dist0)
      invariant OnlyOnImprovement(dist0, prev0, heap0, dist, prev, heap)
      decreases |edges| - i
    {
      var v, w := edges[i].target, edges[i].weight;
      if w < 0 {
        assert edges[i] in graph[u];
        return true, dist, prev, heap;
      }
      var nd := cur + w;
      assert edges[i] in graph[u];
      if Improves(nd, dist[v]) {
        ProgressStep(dist0, heap0, dist, heap, ks, v, nd);
        ImproveKeeps(graph, start, dist, prev, heap, scanned, rank, cur, u, cur, i, v, nd);
        ImproveOnly(dist0, prev0, heap0, dist, prev, heap, u, v, nd);
        dist := dist[v := Fin(nd)];
        prev := prev[v := Some(u)];
        heap := heap + multiset{Entry(nd, v)};
        assert ScanInv(graph, start, dist, prev, heap, scanned, rank, cur, u, cur, i + 1);
      } else {
        SkipKeeps(graph, start, dist, prev, heap, scanned, rank, cur, u, cur, i);
        assert ScanInv(graph, start, dist, prev, heap, scanned, rank, cur, u, cur, i + 1);
      }
      i := i + 1;
    }
    negative := false;
  }

  /** With the frontier exhausted, the loop invariant gives the promised tables. */
  lemma FinalTables(graph: Graph, start: Vertex, dist: map<Vertex, Dist>, prev: map<Vertex, Option<Vertex>>,
                    scanned: set<Vertex>, rank: map<Vertex, nat>, floor: nat, fullRank: map<Vertex, nat>)
    requires LoopInv(graph, start, dist, prev, multiset{}, scanned, rank, floor)
    requires fullRank == map v | v in graph :: if v in rank then rank[v] else 0
    ensures Solved(graph, start, Tables(dist, prev), fullRank)
  {
    assert forall v | v in dist && dist[v].Fin? :: v in scanned;
    forall u, e | u in graph && u in dist && dist[u].Fin? && e in graph[u]
      ensures e.target in dist && dist[e.target].Fin? && dist[e.target].d <= dist[u].d + e.weight
      ensures e.weight >= 0
    {
      assert u in scanned;
      var j :| 0 <= j < |graph[u]| && graph[u][j] == e;
    }
  }

  // ---------------------------------------------------------------------
  // What Solved tables mean.
  // ---------------------------------------------------------------------

  /** With edges relaxed and the start at 0, no walk from the start is shorter than the recorded distance at its end. */
  lemma {:induction false} WalkBound(graph: Graph, start: Vertex, dist: map<Vertex, Dist>, es: seq<Edge>)
    requires start in dist && dist[start] == Fin(0)
    requires EdgesRelaxed(graph, dist) && IsWalk(graph, start, es)
    ensures End(start, es) in dist && dist[End(start, es)].Fin? && dist[End(start, es)].d <= Weight(es)
    decreases |es|
  {
    if es != [] {
      var init := es[..|es| - 1];
      WalkBound(graph, start, dist, init);
    }
  }

  lemma SolvedNoNegativeReachable(graph: Graph, start: Vertex, t: Tables, rank: map<Vertex, nat>)
    requires Solved(graph, start, t, rank)
    ensures !NegativeReachable(graph, start)
  {
    forall u | Reachable(graph, start, u) ensures !HasNegativeEdge(graph, u) {
      var es :| IsWalk(graph, start, es) && End(start, es) == u;
      WalkBound(graph, start, t.dist, es);
    }
  }

  /**
   * Shortest distances: in `Solved` tables a vertex has a finite distance
   * exactly when it is reachable, some walk realises that distance, and no
   * walk from the start to it is lighter.
   */
  lemma ShortestDistances(graph: Graph, start: Vertex, t: Tables, rank: map<Vertex, nat>, v: Vertex)
    requires Solved(graph, start, t, rank) && v in graph
    ensures t.dist[v].Fin? <==> Reachable(graph, start, v)
    ensures t.dist[v].Fin? ==> exists es :: IsWalk(graph, start, es) && End(start, es) == v && Weight(es) == t.dist[v].d
    ensures forall es | IsWalk(graph, start, es) && End(start, es) == v :: t.dist[v].Fin? && t.dist[v].d <= Weight(es)
  {
    forall es | IsWalk(graph, start, es) && End(start, es) == v
      ensures t.dist[v].Fin? && t.dist[v].d <= Weight(es)
    {
      WalkBound(graph, start, t.dist, es);
    }
    if t.dist[v].Fin? {
      var es := ChainWalk(graph, start, t, rank, v);
    }
  }

  // ---------------------------------------------------------------------
  // restore_path
  // ---------------------------------------------------------------------

  /** The vertices met following `prev` back from `v`, `v` first; `rank` only bounds the walk. */
  ghost function Chain(prev: map<Vertex, Option<Vertex>>, rank: map<Vertex, nat>, v: Vertex): (c: seq<Vertex>)
    requires v in prev && Ranked(prev, rank)
    ensures c != [] && c[0] == v
    decreases rank[v]
  {
    match prev[v]
    case None => [v]
    case Some(x) => [v] + Chain(prev, rank, x)
  }

  /** Along a chain each vertex's predecessor is the next one, and the last has none. */
  lemma {:induction false} ChainLinks(prev: map<Vertex, Option<Vertex>>, rank: map<Vertex, nat>, v: Vertex)
    requires v in prev && Ranked(prev, rank)
    ensures var c := Chain(prev, rank, v);
      && (forall k | 0 <= k < |c| - 1 :: c[k] in prev && prev[c[k]] == Some(c[k + 1]))
      && c[|c| - 1] in prev && prev[c[|c| - 1]] == None
    decreases rank[v]
  {
    if prev[v].Some? {
      var x := prev[v].value;
      ChainLinks(prev, rank, x);
      var c, cx := Chain(prev, rank, v), Chain(prev, rank, x);
      assert c == [v] + cx;
      forall k | 0 <= k < |c| - 1 ensures c[k] in prev && prev[c[k]] == Some(c[k + 1]) {
        if k > 0 {
          assert c[k] == cx[k - 1] && c[k + 1] == cx[k];
        }
      }
    }
  }

  /** What `restore_path` returns: `[start]` when the two coincide, else the reversed chain when it begins at `start`, else `[]`. */
  ghost function Restore(prev: map<Vertex, Option<Vertex>>, rank: map<Vertex, nat>, start: Vertex, target: Vertex): seq<Vertex>
    requires start == target || (target in prev && Ranked(prev, rank))
  {
    if start == target then [start]
    else
      var p := Reversed(Chain(prev, rank, target));
      if p[0] != start then [] else p
  }

  /** A restored path is empty or runs from `start` to `target`, each vertex the predecessor of the next. */
  lemma RestoreShape(prev: map<Vertex, Option<Vertex>>, rank: map<Vertex, nat>, start: Vertex, target: Vertex)
    requires start == target || (target in prev && Ranked(prev, rank))
    ensures var p := Restore(prev, rank, start, target);
      && (p == [] || (p[0] == start && p[|p| - 1] == target))
      && (forall k | 1 <= k < |p| :: p[k] in prev && prev[p[k]] == Some(p[k - 1]))
      && (start != target && p != [] ==> p[0] in prev && prev[p[0]] == None)
      && (start == target <==> p == [start])
  {
    if start != target {
      var c := Chain(prev, rank, target);
      ChainLinks(prev, rank, target);
      var p := Reversed(c);
      forall k | 1 <= k < |p| ensures p[k] in prev && prev[p[k]] == Some(p[k - 1]) {
        assert p[k] == c[|c| - 1 - k] && p[k - 1] == c[|c| - k];
      }
      assert p[|p| - 1] == target;
    }
  }

  /** `restore_path(prev, start, target)`: follow `prev` back from `target`, reverse, and keep the result only if it starts at `start`. */
  method RestorePath(prev: map<Vertex, Option<Vertex>>, start: Vertex, target: Vertex, ghost rank: map<Vertex, nat>)
    returns (path: seq<Vertex>)
    requires start == target || (target in prev && Ranked(prev, rank))
    ensures path == Restore(prev, rank, start, target)
  {
    if start == target {
      return [start];
    }
    path := [];
    var cur: Option<Vertex> := Some(target);
    while cur.Some?
      invariant cur.Some? ==> cur.value in prev && path + Chain(prev, rank, cur.value) == Chain(prev, rank, target)
      invariant cur.None? ==> path == Chain(prev, rank, target)
      decreases if cur.Some? && cur.value in rank then rank[cur.value] + 1 else 0
    {
      path := path + [cur.value];
      cur := prev[cur.value];
    }
    path := Reversed(path);
    if path == [] || path[0] != start {
      return [];
    }
  }

  /** A reached vertex's predecessor chain, reversed, is the trail of a walk from the start as heavy as its distance. */
  lemma ChainWalk(graph: Graph, start: Vertex, t: Tables, rank: map<Vertex, nat>, v: Vertex) returns (es: seq<Edge>)
    requires StartAndUnreached(start, t.dist, t.prev) && PrevTight(graph, t) && Ranked(t.prev, rank)
    requires v in t.dist && v in t.prev && t.dist[v].Fin?
    ensures IsWalk(graph, start, es) && End(start, es) == v && Weight(es) == t.dist[v].d
    ensures Trail(start, es) == Reversed(Chain(t.prev, rank, v))
    decreases rank[v]
  {
    if v == start {
      es := [];
      assert Chain(t.prev, rank, start) == [start];
      assert Reversed([start]) == [start];
    } else {
      assert t.prev[v].Some?;
      var x := t.prev[v].value;
      assert TightEdge(graph, t.dist, x, v);
      var es0 := ChainWalk(graph, start, t, rank, x);
      es := ChainStep(graph, start, t, rank, x, v, es0);
    }
  }

  /** One link of `ChainWalk`: extend the walk to the predecessor `x` of `v` by the tight edge `x -> v`. */
  lemma ChainStep(graph: Graph, start: Vertex, t: Tables, rank: map<Vertex, nat>, x: Vertex, v: Vertex, es0: seq<Edge>)
    returns (es: seq<Edge>)
    requires Ranked(t.prev, rank) && v in t.prev && t.prev[v] == Some(x) && TightEdge(graph, t.dist, x, v)
    requires IsWalk(graph, start, es0) && End(start, es0) == x && Weight(es0) == t.dist[x].d
    requires Trail(start, es0) == Reversed(Chain(t.prev, rank, x))
    ensures IsWalk(graph, start, es) && End(start, es) == v && Weight(es) == t.dist[v].d
    ensures Trail(start, es) == Reversed(Chain(t.prev, rank, v))
  {
    var e :| e in graph[x] && e.target == v && t.dist[v].d == t.dist[x].d + e.weight;
    WalkSnoc(graph, start, es0, e);
    es := es0 + [e];
    assert Chain(t.prev, rank, v) == [v] + Chain(t.prev, rank, x);
    ReversedCons(v, Chain(t.prev, rank, x));
  }

  /**
   * Over `Solved` tables `restore_path` gives the trail of a shortest walk
   * to every reached target and `[]` for every unreached one.
   */
  lemma RestoreSolved(graph: Graph, start: Vertex, t: Tables, rank: map<Vertex, nat>, target: Vertex) returns (es: seq<Edge>)
    requires Solved(graph, start, t, rank) && target in graph
    ensures t.dist[target].Fin? ==>
      && IsWalk(graph, start, es) && End(start, es) == target
      && Trail(start, es) == Restore(t.prev, rank, start, target)
      && Weight(es) == t.dist[target].d
    ensures t.dist[target].Inf? ==> Restore(t.prev, rank, start, target) == []
  {
    es := [];
    if t.dist[target].Fin? {
      es := ChainWalk(graph, start, t, rank, target);
      if start == target {
        assert Chain(t.prev, rank, start) == [start];
      } else {
        assert Trail(start, es)[0] == start;
      }
    } else {
      assert Chain(t.prev, rank, target) == [target];
    }
  }

  // ---------------------------------------------------------------------
  // Lower bounds from a feasible potential.
  // ---------------------------------------------------------------------

  /** `pot` never drops by more than an edge's weight along that edge. */
  ghost predicate Feasible(graph: Graph, pot: map<Vertex, int>) {
    forall u, e | u in graph && e in graph[u] :: u in pot && e.target in pot && pot[e.target] <= pot[u] + e.weight
  }

  lemma {:induction false} WalkPotential(graph: Graph, pot: map<Vertex, int>, from: Vertex, es: seq<Edge>)
    requires Feasible(graph, pot) && from in pot && IsWalk(graph, from, es)
    ensures End(from, es) in pot && pot[End(from, es)] - pot[from] <= Weight(es)
    decreases |es|
  {
    if es != [] {
      WalkPotential(graph, pot, from, es[..|es| - 1]);
    }
  }

  /** A feasible potential that is 0 at the start bounds every recorded distance from below. */
  lemma PotentialBound(graph: Graph, start: Vertex, t: Tables, rank: map<Vertex, nat>, pot: map<Vertex, int>)
    requires Solved(graph, start, t, rank) && Feasible(graph, pot) && start in pot && pot[start] == 0
    ensures forall v | v in graph && t.dist[v].Fin? :: v in pot && pot[v] <= t.dist[v].d
  {
    forall v | v in graph && t.dist[v].Fin? ensures v in pot && pot[v] <= t.dist[v].d {
      var es := ChainWalk(graph, start, t, rank, v);
      WalkPotential(graph, pot, start, es);
    }
  }

  // ---------------------------------------------------------------------
  // The sample graph of `main`.
  // ---------------------------------------------------------------------

  function SampleGraph(): Graph {
    map[
      "A" := [Edge("B", 4), Edge("C", 2)],
      "B" := [Edge("A", 4), Edge("C", 1), Edge("D", 5)],
      "C" := [Edge("A", 2), Edge("B", 1), Edge("D", 8), Edge("E", 10)],
      "D" := [Edge("B", 5), Edge("C", 8), Edge("E", 2)],
      "E" := [Edge("C", 10), Edge("D", 2)]
    ]
  }

  /** The sample graph described key by key, so that proofs about it need not unfold the map display. */
  ghost predicate IsSample(g: Graph) {
    && g.Keys == {"A", "B", "C", "D", "E"}
    && g["A"] == [Edge("B", 4), Edge("C", 2)]
    && g["B"] == [Edge("A", 4), Edge("C", 1), Edge("D", 5)]
    && g["C"] == [Edge("A", 2), Edge("B", 1), Edge("D", 8), Edge("E", 10)]
    && g["D"] == [Edge("B", 5), Edge("C", 8), Edge("E", 2)]
    && g["E"] == [Edge("C", 10), Edge("D", 2)]
  }

  lemma SampleNames()
    ensures "A" != "B" && "A" != "C" && "A" != "D" && "A" != "E" && "B" != "C"
    ensures "B" != "D" && "B" != "E" && "C" != "D" && "C" != "E" && "D" != "E"
  {
    assert "A"[0] != "B"[0];
  }

  lemma SampleGraphIsSample()
    ensures IsSample(SampleGraph())
  {
    SampleNames();
  }

  /** The distances of `main`'s printout, as a potential. */
  function SamplePotential(): map<Vertex, int> {
    map["A" := 0, "B" := 3, "C" := 2, "D" := 8, "E" := 10]
  }

  /** The sample potential described key by key. */
  ghost predicate IsSamplePotential(pot: map<Vertex, int>) {
    && pot.Keys == {"A", "B", "C", "D", "E"}
    && pot["A"] == 0 && pot["B"] == 3 && pot["C"] == 2 && pot["D"] == 8 && pot["E"] == 10
  }

  lemma SamplePotentialIs()
    ensures IsSamplePotential(SamplePotential())
  {
    SampleNames();
  }

  /** The distances of `main`'s printout. */
  function SampleResult(): map<Vertex, Dist> {
    map["A" := Fin(0), "B" := Fin(3), "C" := Fin(2), "D" := Fin(8), "E" := Fin(10)]
  }

  /** The sample distances described key by key. */
  ghost predicate IsSampleResult(dist: map<Vertex, Dist>) {
    && dist.Keys == {"A", "B", "C", "D", "E"}
    && dist["A"] == Fin(0) && dist["B"] == Fin(3) && dist["C"] == Fin(2) && dist["D"] == Fin(8) && dist["E"] == Fin(10)
  }

  lemma SampleResultIs()
    ensures IsSampleResult(SampleResult())
  {
    SampleNames();
  }

  lemma SampleFacts(g: Graph)
    requires IsSample(g)
    ensures Closed(g) && Feasible(g, SamplePotential()) && !NegativeReachable(g, "A")
  {
    SamplePotentialIs();
    var pot := SamplePotential();
    forall u: Vertex, e: Edge | u in g && e in g[u]
      ensures e.target in g && u in pot && e.target in pot && pot[e.target] <= pot[u] + e.weight && e.weight >= 0
    {
      SampleEdge(g, pot, u, e);
    }
  }

  lemma SampleEdge(g: Graph, pot: map<Vertex, int>, u: Vertex, e: Edge)
    requires IsSample(g) && IsSamplePotential(pot) && u in g && e in g[u]
    ensures e.target in g && u in pot && e.target in pot && pot[e.target] <= pot[u] + e.weight && e.weight >= 0
  {
    SampleNames();
    if u == "A" {
      assert e == Edge("B", 4) || e == Edge("C", 2);
    } else if u == "B" {
      assert e == Edge("A", 4) || e == Edge("C", 1) || e == Edge("D", 5);
    } else if u == "C" {
      assert e == Edge("A", 2) || e == Edge("B", 1) || e == Edge("D", 8) || e == Edge("E", 10);
    } else if u == "D" {
      assert e == Edge("B", 5) || e == Edge("C", 8) || e == Edge("E", 2);
    } else {
      assert u == "E";
      assert e == Edge("C", 10) || e == Edge("D", 2);
    }
  }

  lemma SampleUpper(g: Graph, dist: map<Vertex, Dist>)
    requires IsSample(g) && EdgesRelaxed(g, dist) && "A" in dist && dist["A"] == Fin(0)
    ensures "B" in dist && dist["B"].Fin? && dist["B"].d <= 3
    ensures "C" in dist && dist["C"].Fin? && dist["C"].d <= 2
    ensures "D" in dist && dist["D"].Fin? && dist["D"].d <= 8
    ensures "E" in dist && dist["E"].Fin? && dist["E"].d <= 10
  {
    assert Edge("C", 2) in g["A"];
    assert Edge("B", 1) in g["C"];
    assert Edge("D", 5) in g["B"];
    assert Edge("E", 2) in g["D"];
  }

  /** Every `Solved` table for the sample graph from "A" holds exactly the sample distances. */
  lemma SampleDist(g: Graph, t: Tables, rank: map<Vertex, nat>)
    requires IsSample(g) && Solved(g, "A", t, rank)
    ensures t.dist == SampleResult()
  {
    SampleFacts(g);
    SamplePotentialIs();
    PotentialBound(g, "A", t, rank, SamplePotential());
    SampleUpper(g, t.dist);
    SampleBounds(t.dist, SamplePotential());
    SampleTable(t.dist);
  }

  /** Upper bounds from relaxed edges and lower bounds from the potential pin the sample distances down. */
  lemma SampleBounds(dist: map<Vertex, Dist>, pot: map<Vertex, int>)
    requires IsSamplePotential(pot) && dist.Keys == {"A", "B", "C", "D", "E"} && dist["A"] == Fin(0)
    requires dist["B"].Fin? && dist["B"].d <= 3 && dist["C"].Fin? && dist["C"].d <= 2
    requires dist["D"].Fin? && dist["D"].d <= 8 && dist["E"].Fin? && dist["E"].d <= 10
    requires forall v | v in dist && dist[v].Fin? :: v in pot && pot[v] <= dist[v].d
    ensures IsSampleResult(dist)
  {
    assert "B" in dist && "C" in dist && "D" in dist && "E" in dist;
  }

  lemma SampleTable(dist: map<Vertex, Dist>)
    requires IsSampleResult(dist)
    ensures dist == SampleResult()
  {
    SampleNames();
  }

  /** In `Solved` tables a reached vertex other than the start has a predecessor joined to it by a tight edge. */
  lemma PredecessorTight(graph: Graph, start: Vertex, t: Tables, rank: map<Vertex, nat>, v: Vertex)
    requires Solved(graph, start, t, rank) && v in graph && v != start && t.dist[v].Fin?
    ensures t.prev[v].Some? && TightEdge(graph, t.dist, t.prev[v].value, v)
  {
  }

  /** On the sample distances, the only tight edges into C, B, D and E come from A, C, B and D. */
  lemma SampleTight(g: Graph, dist: map<Vertex, Dist>, x: Vertex, v: Vertex)
    requires IsSample(g) && IsSampleResult(dist) && TightEdge(g, dist, x, v)
    ensures v == "C" ==> x == "A"
    ensures v == "B" ==> x == "C"
    ensures v == "D" ==> x == "B"
    ensures v == "E" ==> x == "D"
  {
    SampleNames();
    var e :| e in g[x] && e.target == v && dist[v].d == dist[x].d + e.weight;
    assert x == "A" || x == "B" || x == "C" || x == "D" || x == "E";
  }

  lemma SampleChain(prev: map<Vertex, Option<Vertex>>, rank: map<Vertex, nat>)
    requires Ranked(prev, rank) && "A" in prev && "B" in prev && "C" in prev && "D" in prev && "E" in prev
    requires prev["A"] == None && prev["C"] == Some("A") && prev["B"] == Some("C")
    requires prev["D"] == Some("B") && prev["E"] == Some("D")
    ensures Restore(prev, rank, "A", "E") == ["A", "C", "B", "D", "E"]
  {
    SampleNames();
    assert Chain(prev, rank, "A") == ["A"];
    assert Chain(prev, rank, "C") == ["C", "A"];
    assert Chain(prev, rank, "B") == ["B", "C", "A"];
    assert Chain(prev, rank, "D") == ["D", "B", "C", "A"];
    assert Chain(prev, rank, "E") == ["E", "D", "B", "C", "A"];
  }

  /** Whatever least entry the frontier yields on ties, the sample run gives `main`'s distances and path. */
  lemma SamplePath(g: Graph, t: Tables, rank: map<Vertex, nat>)
    requires IsSample(g) && Solved(g, "A", t, rank) && t.dist == SampleResult()
    ensures Restore(t.prev, rank, "A", "E") == ["A", "C", "B", "D", "E"]
  {
    SampleNames();
    SampleResultIs();
    PredecessorTight(g, "A", t, rank, "C");
    SampleTight(g, t.dist, t.prev["C"].value, "C");
    PredecessorTight(g, "A", t, rank, "B");
    SampleTight(g, t.dist, t.prev["B"].value, "B");
    PredecessorTight(g, "A", t, rank, "D");
    SampleTight(g, t.dist, t.prev["D"].value, "D");
    PredecessorTight(g, "A", t, rank, "E");
    SampleTight(g, t.dist, t.prev["E"].value, "E");
    SampleChain(t.prev, rank);
  }

  /** `main`: run from "A" on the sample graph and restore the path to "E". */
  method Sample() returns (r: Outcome, path: seq<Vertex>)
    ensures r.Done? && r.tables.dist == SampleResult()
    ensures path == ["A", "C", "B", "D", "E"]
  {
    var graph := SampleGraph();
    SampleGraphIsSample();
    SampleFacts(graph);
    ghost var rank;
    r, rank := Run(graph, "A");
    SampleDist(graph, r.tables, rank);
    SamplePath(graph, r.tables, rank);
    path := RestorePath(r.tables.prev, "A", "E", rank);
  }
}
