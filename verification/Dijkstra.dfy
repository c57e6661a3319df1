/**
 Dijkstra's algorithm with lazy deletion: an improved node is queued again, and the entry it had
 before is skipped when it comes up.

 The heap is a multiset from which a least entry is taken.  Weights are reals.
 */
module Dijkstra {
  datatype Node = Node(name: string)

  datatype Edge = Edge(to: Node, weight: real)

  type Graph = map<Node, seq<Edge>>

  datatype Distance = Infinite | Finite(d: real)

  type Entry = (real, Node)

  /** The edges out of a node; none when it is not a key of the graph. */
  function Adjacent(graph: Graph, u: Node): seq<Edge> {
    if u in graph then graph[u] else []
  }

  ghost predicate NonNegative(graph: Graph) {
    forall u, e :: u in graph && e in graph[u] ==> e.weight >= 0.0
  }

  // ---------------------------------------------------------------- walks

  ghost function End(start: Node, walk: seq<Edge>): Node {
    if walk == [] then start else walk[|walk| - 1].to
  }

  ghost predicate IsWalk(graph: Graph, start: Node, walk: seq<Edge>) {
    walk == [] ||
    (IsWalk(graph, start, walk[..|walk| - 1]) &&
     End(start, walk[..|walk| - 1]) in graph &&
     walk[|walk| - 1] in graph[End(start, walk[..|walk| - 1])])
  }

  ghost function Length(walk: seq<Edge>): real {
    if walk == [] then 0.0 else Length(walk[..|walk| - 1]) + walk[|walk| - 1].weight
  }

  ghost predicate Leads(graph: Graph, start: Node, walk: seq<Edge>, v: Node) {
    IsWalk(graph, start, walk) && End(start, walk) == v
  }

  /** The table of least walk lengths: infinite, or absent for a node that is no key, without a walk. */
  ghost predicate IsShortest(graph: Graph, start: Node, distances: map<Node, Distance>) {
    && (forall v :: v in graph ==> v in distances)
    && (forall v :: v in distances && v !in graph ==> distances[v].Finite?)
    && (forall v, walk :: Leads(graph, start, walk, v) ==>
          v in distances && distances[v].Finite? && distances[v].d <= Length(walk))
    && (forall v :: v in distances && distances[v].Finite? ==>
          exists walk :: Leads(graph, start, walk, v) && Length(walk) == distances[v].d)
  }

  // ---------------------------------------------------------------- what the loop keeps

  ghost predicate HasFinite(distances: map<Node, Distance>, v: Node) {
    v in distances && distances[v].Finite?
  }

  /** The edge does not shorten the way to its target. */
  ghost predicate Relaxed(distances: map<Node, Distance>, d: real, e: Edge) {
    HasFinite(distances, e.to) && distances[e.to].d <= d + e.weight
  }

  ghost predicate EachRelaxed(distances: map<Node, Distance>, d: real, edges: seq<Edge>) {
    forall e :: e in edges ==> Relaxed(distances, d, e)
  }

  ghost predicate AllRelaxed(graph: Graph, distances: map<Node, Distance>, u: Node) {
    HasFinite(distances, u) && EachRelaxed(distances, distances[u].d, Adjacent(graph, u))
  }

  /** Every finite distance is the length of a walk, kept in `via`. */
  ghost predicate Witnessed(graph: Graph, start: Node, distances: map<Node, Distance>, via: map<Node, seq<Edge>>) {
    forall v :: HasFinite(distances, v) ==>
      v in via && Leads(graph, start, via[v], v) && Length(via[v]) == distances[v].d
  }

  /** An entry is current or stale, and there is one copy of it. */
  ghost predicate QueueSound(distances: map<Node, Distance>, pq: multiset<Entry>) {
    forall d: real, v :: (d, v) in pq ==>
      HasFinite(distances, v) && distances[v].d <= d && pq[(d, v)] == 1
  }

  /** What is settled is no further than anything queued; what is not settled is queued. */
  ghost predicate Split(distances: map<Node, Distance>, pq: multiset<Entry>, settled: set<Node>) {
    && (forall v :: v in settled ==> HasFinite(distances, v) && (distances[v].d, v) !in pq)
    && (forall v :: HasFinite(distances, v) && v !in settled ==> (distances[v].d, v) in pq)
    && (forall v, d: real, u :: v in settled && (d, u) in pq ==> distances[v].d <= d)
  }

  ghost predicate Keys(graph: Graph, start: Node, distances: map<Node, Distance>) {
    && (forall v :: v in graph ==> v in distances)
    && (forall v :: v in distances && v !in graph ==> distances[v].Finite?)
    && HasFinite(distances, start) && distances[start].d <= 0.0
    && distances.Keys <= Universe(graph, start)
  }

  ghost function Universe(graph: Graph, start: Node): set<Node> {
    graph.Keys + {start} + set u, k | u in graph && 0 <= k < |graph[u]| :: graph[u][k].to
  }

  ghost predicate Sound(graph: Graph, start: Node, distances: map<Node, Distance>, via: map<Node, seq<Edge>>,
                        pq: multiset<Entry>, settled: set<Node>) {
    && Keys(graph, start, distances)
    && Witnessed(graph, start, distances, via)
    && QueueSound(distances, pq)
    && Split(distances, pq, settled)
  }

  /** Between two edges of `node`, just settled at distance `current`: the rest of the settled are done. */
  ghost predicate Expanding(graph: Graph, start: Node, distances: map<Node, Distance>, via: map<Node, seq<Edge>>,
                            pq: multiset<Entry>, settled: set<Node>, node: Node, current: real) {
    && Sound(graph, start, distances, via, pq, settled)
    && node in settled && distances[node] == Finite(current)
    && (forall d: real, v :: (d, v) in pq ==> current <= d)
    && (forall v :: v in settled ==> distances[v].d <= current)
    && (forall v :: v in settled && v != node ==> AllRelaxed(graph, distances, v))
  }

  /** Between two entries. */
  ghost predicate Waiting(graph: Graph, start: Node, distances: map<Node, Distance>, via: map<Node, seq<Edge>>,
                          pq: multiset<Entry>, settled: set<Node>, expanded: seq<Node>) {
    && Sound(graph, start, distances, via, pq, settled)
    && (forall v :: v in settled ==> AllRelaxed(graph, distances, v))
    && (forall v :: v in expanded <==> v in settled)
    && Distinct(expanded)
  }

  ghost predicate Distinct(nodes: seq<Node>) {
    forall i, j :: 0 <= i < j < |nodes| ==> nodes[i] != nodes[j]
  }

  /** `entry` is a least entry of the queue. */
  ghost predicate IsLeast(pq: multiset<Entry>, entry: Entry) {
    entry in pq && forall d: real, v :: (d, v) in pq ==> entry.0 <= d
  }

  method Dijkstra(graph: Graph, start: Node)
    returns (distances: map<Node, Distance>, ghost expanded: seq<Node>)
    requires NonNegative(graph)
    ensures IsShortest(graph, start, distances)
    ensures Distinct(expanded) && forall v :: v in expanded <==> HasFinite(distances, v)
  {
    distances := map node | node in graph :: Infinite;
    distances := distances[start := Finite(0.0)];
    var pq: multiset<Entry> := multiset{(0.0, start)};
    ghost var via: map<Node, seq<Edge>> := map[start := []];
    ghost var settled: set<Node> := {};
    expanded := [];
    Start(graph, start, distances, via, pq);
    while pq != multiset{}
      invariant Waiting(graph, start, distances, via, pq, settled, expanded)
      decreases Universe(graph, start) - settled, |pq|
    {
      var entry := ExtractMin(pq);
      var (current, node) := entry;
      ghost var before := pq;
      pq := pq - multiset{entry};
      assert node in distances;
      if distances[node].Finite? && current > distances[node].d {
        Skip(graph, start, distances, via, before, pq, settled, entry);
      } else {
        Settle(graph, start, distances, via, before, pq, settled, entry);
        ghost var settled0 := settled;
        settled := settled + {node};
        distances, pq, via := Expand(graph, start, distances, pq, via, settled, node, current);
        Settled(graph, start, distances, via, pq, settled0, settled, expanded, node);
        expanded := expanded + [node];
      }
    }
    AllSettled(graph, start, distances, via, settled);
    EachExpanded(graph, start, distances, via, settled, expanded);
  }

  /** heappop, up to the order of equal distances. */
  method ExtractMin(pq: multiset<Entry>) returns (entry: Entry)
    requires pq != multiset{}
    ensures IsLeast(pq, entry)
  {
    ghost var least := LeastExists(pq);
    entry :| entry in pq && forall other :: other in pq ==> entry.0 <= other.0;
  }

  /** The loop over the neighbours of a node just settled. */
  method Expand(graph: Graph, start: Node, distances0: map<Node, Distance>, pq0: multiset<Entry>,
                ghost via0: map<Node, seq<Edge>>, ghost settled: set<Node>, node: Node, current: real)
    returns (distances: map<Node, Distance>, pq: multiset<Entry>, ghost via: map<Node, seq<Edge>>)
    requires NonNegative(graph)
    requires Expanding(graph, start, distances0, via0, pq0, settled, node, current)
    ensures Expanding(graph, start, distances, via, pq, settled, node, current)
    ensures AllRelaxed(graph, distances, node)
  {
    distances, pq, via := distances0, pq0, via0;
    var edges := Adjacent(graph, node);
    ghost var relaxed: seq<Edge> := [];
    for k := 0 to |edges|
      invariant Expanding(graph, start, distances, via, pq, settled, node, current)
      invariant relaxed == edges[..k] && EachRelaxed(distances, current, relaxed)
    {
      var edge := edges[k];
      Taken(edges, k);
      distances, pq, via, relaxed := Relax(graph, start, distances, pq, via, settled, node, current, edge, relaxed);
    }
    assert relaxed == edges;
  }

  lemma Taken(edges: seq<Edge>, k: nat)
    requires k < |edges|
    ensures edges[k] in edges && edges[..k + 1] == edges[..k] + [edges[k]]
  {
  }

  /** One neighbour: a shorter way to it is recorded and queued. */
  method Relax(graph: Graph, start: Node, distances0: map<Node, Distance>, pq0: multiset<Entry>,
               ghost via0: map<Node, seq<Edge>>, ghost settled: set<Node>, node: Node, current: real, edge: Edge,
               ghost relaxed: seq<Edge>)
    returns (distances: map<Node, Distance>, pq: multiset<Entry>, ghost via: map<Node, seq<Edge>>,
             ghost longer: seq<Edge>)
    requires NonNegative(graph) && edge in Adjacent(graph, node)
    requires Expanding(graph, start, distances0, via0, pq0, settled, node, current)
    requires EachRelaxed(distances0, current, relaxed)
    ensures Expanding(graph, start, distances, via, pq, settled, node, current)
    ensures longer == relaxed + [edge] && EachRelaxed(distances, current, longer)
    ensures Relaxed(distances, current, edge)
  {
    distances, pq, via, longer := distances0, pq0, via0, relaxed + [edge];
    var distance := current + edge.weight;
    if edge.to !in distances || distances[edge.to].Infinite? || distance < distances[edge.to].d {
      distances := distances[edge.to := Finite(distance)];
      pq := pq + multiset{(distance, edge.to)};
      via := via[edge.to := via[node] + [edge]];
      Improve(graph, start, distances0, via0, pq0, settled, node, current, edge, distance, distances, via, pq);
      StillRelaxed(distances0, edge.to, distance, distances, current, relaxed);
    }
    OneMoreRelaxed(distances, current, relaxed, edge);
  }

  lemma LeastExists(pq: multiset<Entry>) returns (least: Entry)
    requires pq != multiset{}
    ensures IsLeast(pq, least)
    decreases |pq|
  {
    var entry :| entry in pq;
    var rest := pq - multiset{entry};
    least := entry;
    if rest != multiset{} {
      var other := LeastExists(rest);
      if other.0 < entry.0 {
        least := other;
      }
    }
  }

  // ---------------------------------------------------------------- each step keeps it

  lemma Start(graph: Graph, start: Node, distances: map<Node, Distance>, via: map<Node, seq<Edge>>, pq: multiset<Entry>)
    requires distances == (map node | node in graph :: Infinite)[start := Finite(0.0)]
    requires via == map[start := []] && pq == multiset{(0.0, start)}
    ensures Waiting(graph, start, distances, via, pq, {}, [])
  {
  }

  /** A stale entry goes away and nothing else changes. */
  lemma Skip(graph: Graph, start: Node, distances: map<Node, Distance>, via: map<Node, seq<Edge>>,
             before: multiset<Entry>, pq: multiset<Entry>, settled: set<Node>, entry: Entry)
    requires Sound(graph, start, distances, via, before, settled)
    requires entry in before && pq == before - multiset{entry}
    requires HasFinite(distances, entry.1) && distances[entry.1].d < entry.0
    ensures Sound(graph, start, distances, via, pq, settled)
  {
  }

  /** A current least entry settles its node, which was not settled before. */
  lemma Settle(graph: Graph, start: Node, distances: map<Node, Distance>, via: map<Node, seq<Edge>>,
               before: multiset<Entry>, pq: multiset<Entry>, settled: set<Node>, entry: Entry)
    requires Sound(graph, start, distances, via, before, settled)
    requires forall v :: v in settled ==> AllRelaxed(graph, distances, v)
    requires IsLeast(before, entry) && pq == before - multiset{entry}
    requires HasFinite(distances, entry.1) ==> distances[entry.1].d >= entry.0
    ensures entry.1 !in settled
    ensures Expanding(graph, start, distances, via, pq, settled + {entry.1}, entry.1, entry.0)
  {
    SettleSplit(distances, before, pq, settled, entry);
  }

  lemma SettleSplit(distances: map<Node, Distance>, before: multiset<Entry>, pq: multiset<Entry>,
                    settled: set<Node>, entry: Entry)
    requires QueueSound(distances, before) && Split(distances, before, settled)
    requires IsLeast(before, entry) && pq == before - multiset{entry}
    requires HasFinite(distances, entry.1) ==> distances[entry.1].d >= entry.0
    ensures entry.1 !in settled && HasFinite(distances, entry.1) && distances[entry.1].d == entry.0
    ensures QueueSound(distances, pq) && Split(distances, pq, settled + {entry.1})
  {
    assert (entry.0, entry.1) in before && entry !in pq;
    forall d: real, v | (d, v) in pq ensures (d, v) in before && pq[(d, v)] == before[(d, v)] {}
  }

  lemma Settled(graph: Graph, start: Node, distances: map<Node, Distance>, via: map<Node, seq<Edge>>,
                pq: multiset<Entry>, before: set<Node>, settled: set<Node>, expanded: seq<Node>, node: Node)
    requires Sound(graph, start, distances, via, pq, settled)
    requires settled == before + {node} && node !in before
    requires forall v :: v in settled && v != node ==> AllRelaxed(graph, distances, v)
    requires AllRelaxed(graph, distances, node)
    requires Distinct(expanded) && forall v :: v in expanded <==> v in before
    ensures Waiting(graph, start, distances, via, pq, settled, expanded + [node])
  {
  }

  /** `distances'` is `distances` with a shorter way to one node. */
  ghost predicate Shortens(distances: map<Node, Distance>, to: Node, distance: real, distances': map<Node, Distance>) {
    && distances' == distances[to := Finite(distance)]
    && (HasFinite(distances, to) ==> distance < distances[to].d)
  }

  /** Improving a target touches no settled node, because weights are not negative. */
  lemma Improve(graph: Graph, start: Node, distances: map<Node, Distance>, via: map<Node, seq<Edge>>,
                pq: multiset<Entry>, settled: set<Node>, node: Node, current: real, edge: Edge, distance: real,
                distances': map<Node, Distance>, via': map<Node, seq<Edge>>, pq': multiset<Entry>)
    requires Expanding(graph, start, distances, via, pq, settled, node, current)
    requires NonNegative(graph) && edge in Adjacent(graph, node) && distance == current + edge.weight
    requires Shortens(distances, edge.to, distance, distances')
    requires pq' == pq + multiset{(distance, edge.to)}
    requires via' == via[edge.to := via[node] + [edge]]
    ensures Expanding(graph, start, distances', via', pq', settled, node, current)
    ensures Relaxed(distances', current, edge)
  {
    assert edge.weight >= 0.0;
    assert edge.to !in settled;
    ImproveKeys(graph, start, distances, node, edge, distance, distances');
    ImproveWitness(graph, start, distances, via, node, edge, distance, distances', via');
    ImproveQueue(distances, pq, edge.to, distance, distances', pq');
    ImproveSplit(distances, pq, settled, edge.to, current, distance, distances', pq');
    forall v | v in settled && v != node ensures AllRelaxed(graph, distances', v) {
      ImproveRelaxed(graph, distances, edge.to, distance, distances', v);
    }
  }

  lemma ImproveRelaxed(graph: Graph, distances: map<Node, Distance>, to: Node, distance: real,
                       distances': map<Node, Distance>, v: Node)
    requires AllRelaxed(graph, distances, v) && v != to && Shortens(distances, to, distance, distances')
    ensures AllRelaxed(graph, distances', v)
  {
    assert distances'[v] == distances[v];
    StillRelaxed(distances, to, distance, distances', distances[v].d, Adjacent(graph, v));
  }

  lemma StillRelaxed(distances: map<Node, Distance>, to: Node, distance: real, distances': map<Node, Distance>,
                     d: real, edges: seq<Edge>)
    requires Shortens(distances, to, distance, distances') && EachRelaxed(distances, d, edges)
    ensures EachRelaxed(distances', d, edges)
  {
    forall e | e in edges ensures Relaxed(distances', d, e) {
      assert Relaxed(distances, d, e);
    }
  }

  lemma OneMoreRelaxed(distances: map<Node, Distance>, d: real, edges: seq<Edge>, edge: Edge)
    requires EachRelaxed(distances, d, edges) && Relaxed(distances, d, edge)
    ensures EachRelaxed(distances, d, edges + [edge])
  {
  }

  lemma ImproveKeys(graph: Graph, start: Node, distances: map<Node, Distance>, node: Node, edge: Edge, distance: real,
                    distances': map<Node, Distance>)
    requires Keys(graph, start, distances) && edge in Adjacent(graph, node)
    requires Shortens(distances, edge.to, distance, distances')
    ensures Keys(graph, start, distances')
  {
    var k :| 0 <= k < |graph[node]| && graph[node][k] == edge;
    assert edge.to in Universe(graph, start);
  }

  lemma ImproveWitness(graph: Graph, start: Node, distances: map<Node, Distance>, via: map<Node, seq<Edge>>,
                       node: Node, edge: Edge, distance: real,
                       distances': map<Node, Distance>, via': map<Node, seq<Edge>>)
    requires Witnessed(graph, start, distances, via) && HasFinite(distances, node)
    requires edge in Adjacent(graph, node) && distance == distances[node].d + edge.weight
    requires Shortens(distances, edge.to, distance, distances')
    requires via' == via[edge.to := via[node] + [edge]]
    ensures Witnessed(graph, start, distances', via')
  {
    var longer := via[node] + [edge];
    assert longer[..|longer| - 1] == via[node];
    assert Leads(graph, start, longer, edge.to) && Length(longer) == distance;
  }

  lemma ImproveQueue(distances: map<Node, Distance>, pq: multiset<Entry>, to: Node, distance: real,
                     distances': map<Node, Distance>, pq': multiset<Entry>)
    requires QueueSound(distances, pq) && Shortens(distances, to, distance, distances')
    requires pq' == pq + multiset{(distance, to)}
    ensures QueueSound(distances', pq')
  {
    assert (distance, to) !in pq;
  }

  lemma ImproveSplit(distances: map<Node, Distance>, pq: multiset<Entry>, settled: set<Node>,
                     to: Node, current: real, distance: real,
                     distances': map<Node, Distance>, pq': multiset<Entry>)
    requires Split(distances, pq, settled) && Shortens(distances, to, distance, distances')
    requires to !in settled && current <= distance
    requires forall v :: v in settled ==> distances[v].d <= current
    requires pq' == pq + multiset{(distance, to)}
    ensures Split(distances', pq', settled)
  {
  }

  /** With the queue empty the nodes expanded are exactly those that were reached. */
  lemma EachExpanded(graph: Graph, start: Node, distances: map<Node, Distance>, via: map<Node, seq<Edge>>,
                     settled: set<Node>, expanded: seq<Node>)
    requires Waiting(graph, start, distances, via, multiset{}, settled, expanded)
    ensures Distinct(expanded) && forall v :: v in expanded <==> HasFinite(distances, v)
  {
    forall v ensures v in settled <==> HasFinite(distances, v) {
      assert Split(distances, multiset{}, settled);
    }
  }

  /** With the queue empty every reached node is settled, and no walk is shorter than its entry. */
  lemma AllSettled(graph: Graph, start: Node, distances: map<Node, Distance>, via: map<Node, seq<Edge>>,
                   settled: set<Node>)
    requires Sound(graph, start, distances, via, multiset{}, settled)
    requires forall u :: u in settled ==> AllRelaxed(graph, distances, u)
    ensures IsShortest(graph, start, distances)
  {
    forall v, walk | Leads(graph, start, walk, v)
      ensures v in distances && distances[v].Finite? && distances[v].d <= Length(walk)
    {
      NoShorterWalk(graph, start, distances, walk);
    }
  }

  lemma {:induction false} NoShorterWalk(graph: Graph, start: Node, distances: map<Node, Distance>, walk: seq<Edge>)
    requires HasFinite(distances, start) && distances[start].d <= 0.0
    requires forall u :: HasFinite(distances, u) ==> AllRelaxed(graph, distances, u)
    requires IsWalk(graph, start, walk)
    ensures HasFinite(distances, End(start, walk)) && distances[End(start, walk)].d <= Length(walk)
  {
    if walk != [] {
      var init := walk[..|walk| - 1];
      NoShorterWalk(graph, start, distances, init);
      assert AllRelaxed(graph, distances, End(start, init));
      assert Relaxed(distances, distances[End(start, init)].d, walk[|walk| - 1]);
    }
  }
}
