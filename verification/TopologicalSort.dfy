/**
 Topological sort by repeatedly taking nodes without incoming edges.

 The result respects every edge and holds every node once, or is empty; and it is empty for a
 non-empty graph exactly when the graph has a cycle.
 */
module TopologicalSort {
  type Edge = (nat, nat)

  ghost predicate InRange(n: nat, edges: seq<Edge>) {
    forall e :: e in edges ==> e.0 < n && e.1 < n
  }

  // ---------------------------------------------------------------- what is promised

  ghost predicate Distinct(order: seq<nat>) {
    forall i, j :: 0 <= i < j < |order| ==> order[i] != order[j]
  }

  /** Every edge that enters an ordered node starts at an earlier one. */
  ghost predicate Respects(order: seq<nat>, edges: seq<Edge>) {
    forall e, j :: e in edges && 0 <= j < |order| && order[j] == e.1 ==> e.0 in order[..j]
  }

  ghost predicate IsTopological(n: nat, edges: seq<Edge>, order: seq<nat>) {
    && (forall v: nat :: v in order <==> v < n)
    && Distinct(order)
    && Respects(order, edges)
  }

  /** A closed walk of at least one edge. */
  ghost predicate IsCycle(edges: seq<Edge>, walk: seq<nat>) {
    && |walk| >= 2
    && walk[0] == walk[|walk| - 1]
    && forall i :: 0 <= i < |walk| - 1 ==> (walk[i], walk[i + 1]) in edges
  }

  // ---------------------------------------------------------------- adjacency and indegree

  /** The targets of the edges out of `a`, in the order the edges are listed. */
  function Targets(edges: seq<Edge>, a: nat): seq<nat> {
    if edges == [] then []
    else
      var last := edges[|edges| - 1];
      Targets(edges[..|edges| - 1], a) + (if last.0 == a then [last.1] else [])
  }

  /** The number of edges into `v` from nodes outside `done`. */
  ghost function Waiting(edges: seq<Edge>, done: set<nat>, v: nat): nat {
    if edges == [] then 0
    else
      var last := edges[|edges| - 1];
      Waiting(edges[..|edges| - 1], done, v) + (if last.1 == v && last.0 !in done then 1 else 0)
  }

  lemma {:induction false} WaitingZero(edges: seq<Edge>, done: set<nat>, v: nat)
    ensures Waiting(edges, done, v) == 0 <==> forall e :: e in edges && e.1 == v ==> e.0 in done
  {
    if edges != [] {
      var init, last := edges[..|edges| - 1], edges[|edges| - 1];
      WaitingZero(init, done, v);
      assert forall e :: e in edges <==> e in init || e == last;
    }
  }

  /** Finishing a node releases, for each target, as many edges as it occurs among its targets. */
  lemma {:induction false} WaitingDrops(edges: seq<Edge>, done: set<nat>, a: nat, v: nat)
    requires a !in done
    ensures Waiting(edges, done, v) == Waiting(edges, done + {a}, v) + multiset(Targets(edges, a))[v]
  {
    if edges != [] {
      WaitingDrops(edges[..|edges| - 1], done, a, v);
    }
  }

  lemma {:induction false} TargetsAre(edges: seq<Edge>, a: nat)
    ensures forall v: nat :: v in Targets(edges, a) <==> (a, v) in edges
  {
    if edges != [] {
      var init, last := edges[..|edges| - 1], edges[|edges| - 1];
      TargetsAre(init, a);
      assert forall e :: e in edges <==> e in init || e == last;
    }
  }

  // ---------------------------------------------------------------- the algorithm

  /** A defaultdict reads an empty list for a key it does not hold. */
  function Adjacent(graph: map<nat, seq<nat>>, a: nat): seq<nat> {
    if a in graph then graph[a] else []
  }

  ghost function Below(n: nat): (nodes: set<nat>)
    ensures |nodes| == n && forall v: nat :: v in nodes <==> v < n
  {
    if n == 0 then {} else Below(n - 1) + {n - 1}
  }

  ghost function Nodes(order: seq<nat>): set<nat> {
    set v | v in order
  }

  /** Indegrees count the edges still waiting, `rest` being targets not yet told that their source is done. */
  ghost predicate Counts(edges: seq<Edge>, done: set<nat>, rest: seq<nat>, indegree: seq<int>) {
    forall v: nat :: 0 <= v < |indegree| ==> indegree[v] == Waiting(edges, done, v) + multiset(rest)[v]
  }

  /** The nodes taken or queued so far are those with nothing left to wait for, in an order edges respect. */
  ghost predicate Ready(edges: seq<Edge>, seen: seq<nat>, indegree: seq<int>) {
    && Distinct(seen)
    && Respects(seen, edges)
    && (forall v: nat :: v in seen ==> v < |indegree|)
    && (forall v: nat :: 0 <= v < |indegree| ==> (v in seen <==> indegree[v] == 0))
  }

  /** Between two targets: `rest` are those of the last node taken that are still to be told. */
  ghost predicate Running(edges: seq<Edge>, order: seq<nat>, queue: seq<nat>, rest: seq<nat>, indegree: seq<int>) {
    && Counts(edges, Nodes(order), rest, indegree)
    && Ready(edges, order + queue, indegree)
  }

  /** The adjacency lists and the indegrees that the edges give. */
  ghost predicate Built(graph: map<nat, seq<nat>>, indegree: seq<int>, edges: seq<Edge>) {
    && (forall a: nat :: Adjacent(graph, a) == Targets(edges, a))
    && (forall v: nat :: v < |indegree| ==> indegree[v] == Waiting(edges, {}, v))
  }

  method TopologicalSort(n: nat, edges: seq<Edge>) returns (r: seq<nat>)
    requires InRange(n, edges)
    ensures if exists walk :: IsCycle(edges, walk) then r == [] else IsTopological(n, edges, r)
  {
    var graph: map<nat, seq<nat>> := map[];
    var indegree := new int[n](_ => 0);
    for k := 0 to |edges|
      invariant Built(graph, indegree[..], edges[..k])
    {
      var (a, b) := edges[k];
      assert edges[k] in edges;
      BuiltStep(graph, indegree[..], edges[..k], (a, b));
      graph := graph[a := Adjacent(graph, a) + [b]];
      indegree[b] := indegree[b] + 1;
      assert edges[..k + 1] == edges[..k] + [(a, b)];
    }
    assert edges[..|edges|] == edges;
    var queue: seq<nat> := [];
    for v := 0 to n
      invariant Distinct(queue)
      invariant forall u: nat :: u in queue <==> u < v && indegree[u] == 0
    {
      if indegree[v] == 0 {
        queue := queue + [v];
      }
    }
    var order := TakeAll(edges, graph, indegree, queue);
    CycleOrFull(n, edges, order);
    r := if |order| == n then order else [];
  }

  /** The main loop: take the head of the queue, tell its targets, queue those that wait for nothing. */
  method TakeAll(edges: seq<Edge>, graph: map<nat, seq<nat>>, indegree: array<int>, sources: seq<nat>)
    returns (order: seq<nat>)
    requires InRange(indegree.Length, edges) && Built(graph, indegree[..], edges)
    requires Distinct(sources)
    requires forall u: nat :: u in sources <==> u < indegree.Length && indegree[u] == 0
    modifies indegree
    ensures Exhausted(indegree.Length, edges, order)
  {
    order := [];
    var queue := sources;
    ghost var waiting := indegree[..];
    SourcesReady(edges, queue, waiting);
    while queue != []
      invariant waiting == indegree[..] && Running(edges, order, queue, [], waiting)
      decreases indegree.Length - |order|
    {
      TakeNode(edges, order, queue, waiting);
      var node := queue[0];
      queue := queue[1..];
      order := order + [node];
      var targets := Adjacent(graph, node);
      TargetsInRange(indegree.Length, edges, node);
      ghost var rest := targets;
      for k := 0 to |targets|
        invariant rest == targets[k..]
        invariant waiting == indegree[..] && Running(edges, order, queue, rest, waiting)
      {
        var nxt := targets[k];
        assert nxt in targets;
        ghost var told := waiting[nxt := waiting[nxt] - 1];
        TellTarget(edges, order, queue, rest, waiting, told);
        indegree[nxt] := indegree[nxt] - 1;
        waiting, rest := told, rest[1..];
        if indegree[nxt] == 0 {
          queue := queue + [nxt];
        }
      }
    }
    NothingLeft(edges, order, waiting);
  }

  // ---------------------------------------------------------------- each step keeps the order ready

  lemma BuiltStep(graph: map<nat, seq<nat>>, indegree: seq<int>, edges: seq<Edge>, e: Edge)
    requires Built(graph, indegree, edges) && e.1 < |indegree|
    ensures Built(graph[e.0 := Adjacent(graph, e.0) + [e.1]], indegree[e.1 := indegree[e.1] + 1], edges + [e])
  {
    var lists := graph[e.0 := Adjacent(graph, e.0) + [e.1]];
    forall a: nat ensures Adjacent(lists, a) == Targets(edges + [e], a) {
      OneMoreEdge(edges, e, a);
      assert Adjacent(graph, a) == Targets(edges, a);
    }
    forall v: nat | v < |indegree|
      ensures indegree[e.1 := indegree[e.1] + 1][v] == Waiting(edges + [e], {}, v)
    {
      OneMoreEdge(edges, e, v);
    }
  }

  lemma OneMoreEdge(edges: seq<Edge>, e: Edge, v: nat)
    ensures Targets(edges + [e], v) == Targets(edges, v) + (if e.0 == v then [e.1] else [])
    ensures Waiting(edges + [e], {}, v) == Waiting(edges, {}, v) + (if e.1 == v then 1 else 0)
  {
    assert (edges + [e])[..|edges|] == edges;
  }

  lemma TargetsInRange(n: nat, edges: seq<Edge>, a: nat)
    requires InRange(n, edges)
    ensures forall v: nat :: v in Targets(edges, a) ==> v < n
  {
    TargetsAre(edges, a);
  }

  lemma SourcesReady(edges: seq<Edge>, queue: seq<nat>, indegree: seq<int>)
    requires Distinct(queue)
    requires forall u: nat :: u in queue <==> u < |indegree| && indegree[u] == 0
    requires forall v: nat :: v < |indegree| ==> indegree[v] == Waiting(edges, {}, v)
    ensures Running(edges, [], queue, [], indegree)
  {
    assert Nodes([]) == {} && [] + queue == queue;
    forall e | e in edges ensures e.1 !in queue {
      WaitingZero(edges, {}, e.1);
    }
  }

  /** Moving the head of the queue into the order leaves its targets to be told. */
  lemma TakeNode(edges: seq<Edge>, order: seq<nat>, queue: seq<nat>, indegree: seq<int>)
    requires queue != [] && Running(edges, order, queue, [], indegree)
    ensures Running(edges, order + [queue[0]], queue[1..], Targets(edges, queue[0]), indegree)
    ensures |order| < |indegree|
  {
    var node := queue[0];
    FewerThanNodes(|indegree|, order + queue);
    assert order + queue == (order + [node]) + queue[1..];
    assert (order + queue)[|order|] == node;
    assert forall i :: 0 <= i < |order| ==> (order + queue)[i] == order[i];
    CountsTaken(edges, order, node, indegree);
  }

  lemma CountsTaken(edges: seq<Edge>, order: seq<nat>, node: nat, indegree: seq<int>)
    requires node !in order && Counts(edges, Nodes(order), [], indegree)
    ensures Counts(edges, Nodes(order + [node]), Targets(edges, node), indegree)
  {
    assert Nodes(order + [node]) == Nodes(order) + {node};
    forall v: nat | 0 <= v < |indegree|
      ensures indegree[v] == Waiting(edges, Nodes(order + [node]), v) + multiset(Targets(edges, node))[v]
    {
      WaitingDrops(edges, Nodes(order), node, v);
    }
  }

  /** Telling one target: it is queued when that was the last edge it waited for. */
  lemma TellTarget(edges: seq<Edge>, order: seq<nat>, queue: seq<nat>, rest: seq<nat>,
                   before: seq<int>, after: seq<int>)
    requires rest != [] && rest[0] < |before| && after == before[rest[0] := before[rest[0]] - 1]
    requires Running(edges, order, queue, rest, before)
    ensures Running(edges, order, if after[rest[0]] == 0 then queue + [rest[0]] else queue, rest[1..], after)
  {
    var nxt, seen := rest[0], order + queue;
    assert rest == [nxt] + rest[1..];
    assert multiset(rest) == multiset{nxt} + multiset(rest[1..]);
    assert before[nxt] > 0;
    if after[nxt] == 0 {
      WaitingZero(edges, Nodes(order), nxt);
      RespectsSnoc(edges, order, seen, nxt);
      assert order + (queue + [nxt]) == seen + [nxt];
    }
  }

  lemma RespectsSnoc(edges: seq<Edge>, order: seq<nat>, seen: seq<nat>, nxt: nat)
    requires Respects(seen, edges) && order <= seen
    requires forall e :: e in edges && e.1 == nxt ==> e.0 in Nodes(order)
    ensures Respects(seen + [nxt], edges)
  {
    var longer := seen + [nxt];
    forall e, j | e in edges && 0 <= j < |longer| && longer[j] == e.1 ensures e.0 in longer[..j] {
      if j < |seen| {
        assert longer[..j] == seen[..j];
      } else {
        assert longer[..j] == seen;
      }
    }
  }

  lemma {:induction false} FewerThanNodes(n: nat, order: seq<nat>)
    requires Distinct(order) && forall v: nat :: v in order ==> v < n
    ensures |order| <= n
    ensures |order| == n ==> forall v: nat :: v < n ==> v in order
  {
    var all := Below(n);
    CountDistinct(order);
    assert Nodes(order) <= all;
    SubsetSize(Nodes(order), all);
    if |order| == n {
      forall v: nat | v < n ensures v in order {
        assert v in all;
      }
    }
  }

  lemma {:induction false} CountDistinct(order: seq<nat>)
    requires Distinct(order)
    ensures |Nodes(order)| == |order|
  {
    if order != [] {
      var init, last := order[..|order| - 1], order[|order| - 1];
      CountDistinct(init);
      assert Nodes(order) == Nodes(init) + {last};
    }
  }

  lemma {:induction false} SubsetSize(a: set<nat>, b: set<nat>)
    requires a <= b
    ensures |a| <= |b|
    ensures |a| == |b| ==> a == b
    decreases |b|
  {
    if v :| v in a {
      SubsetSize(a - {v}, b - {v});
      assert a == (a - {v}) + {v} && b == (b - {v}) + {v};
    } else if u :| u in b {
      assert |b - {u}| + 1 == |b|;
    }
  }

  // ---------------------------------------------------------------- when nothing is left to take

  /** An order that stopped: respected by the edges, and every node left out waits for another left out. */
  ghost predicate Exhausted(n: nat, edges: seq<Edge>, order: seq<nat>) {
    && Distinct(order)
    && Respects(order, edges)
    && (forall v: nat :: v in order ==> v < n)
    && (forall v: nat {:trigger Blocked(edges, order, v)} :: v < n && v !in order ==> Blocked(edges, order, v))
  }

  lemma NothingLeft(edges: seq<Edge>, order: seq<nat>, indegree: seq<int>)
    requires Running(edges, order, [], [], indegree)
    ensures Exhausted(|indegree|, edges, order)
  {
    assert order + [] == order;
    forall v: nat | v < |indegree| && v !in order ensures Blocked(edges, order, v) {
      WaitingZero(edges, Nodes(order), v);
    }
  }

  /** Such an order holds every node exactly when there is no cycle. */
  lemma CycleOrFull(n: nat, edges: seq<Edge>, order: seq<nat>)
    requires InRange(n, edges) && Exhausted(n, edges, order)
    ensures |order| == n <==> !exists walk :: IsCycle(edges, walk)
    ensures |order| == n ==> IsTopological(n, edges, order)
  {
    FewerThanNodes(n, order);
    if |order| == n {
      forall walk ensures !IsCycle(edges, walk) {
        NoCycleThrough(n, edges, order, walk);
      }
    } else {
      SomeLeft(n, order);
      var v: nat :| v < n && v !in order;
      var walk := CycleAmong(n, edges, order, v);
    }
  }

  lemma SomeLeft(n: nat, order: seq<nat>)
    requires Distinct(order) && |order| < n
    ensures exists v: nat :: v < n && v !in order
  {
    var all := Below(n);
    CountDistinct(order);
    if all <= Nodes(order) {
      SubsetSize(all, Nodes(order));
    }
    var v :| v in all && v !in Nodes(order);
  }

  /** Along an edge the position in a respected order strictly grows, so no walk comes back. */
  lemma NoCycleThrough(n: nat, edges: seq<Edge>, order: seq<nat>, walk: seq<nat>)
    requires InRange(n, edges) && IsTopological(n, edges, order)
    ensures !IsCycle(edges, walk)
  {
    if IsCycle(edges, walk) {
      var p := Climb(n, edges, order, walk, |walk| - 1);
    }
  }

  lemma Position(order: seq<nat>, v: nat) returns (p: nat)
    requires v in order
    ensures p < |order| && order[p] == v
  {
    var i :| 0 <= i < |order| && order[i] == v;
    p := i;
  }

  lemma {:induction false} Climb(n: nat, edges: seq<Edge>, order: seq<nat>, walk: seq<nat>, k: nat) returns (p: nat)
    requires InRange(n, edges) && IsTopological(n, edges, order)
    requires IsCycle(edges, walk) && k < |walk|
    ensures p < |order| && order[p] == walk[k]
    ensures k > 0 ==> walk[0] in order[..p]
    ensures k == 0 ==> walk[k] == walk[0]
  {
    if k == 0 {
      assert (walk[0], walk[1]) in edges;
      p := Position(order, walk[0]);
    } else {
      var q := Climb(n, edges, order, walk, k - 1);
      assert (walk[k - 1], walk[k]) in edges;
      p := Position(order, walk[k]);
      assert walk[k - 1] in order[..p];
      var q' := Position(order[..p], walk[k - 1]);
      assert q' == q;
    }
  }

  /** An edge from a node that is not ordered leads here. */
  ghost predicate Blocked(edges: seq<Edge>, order: seq<nat>, v: nat) {
    exists u: nat :: (u, v) in edges && u !in order
  }

  /** Walking backwards among the nodes left over must come back to a node already walked. */
  lemma CycleAmong(n: nat, edges: seq<Edge>, order: seq<nat>, v: nat) returns (walk: seq<nat>)
    requires InRange(n, edges)
    requires forall v: nat {:trigger Blocked(edges, order, v)} :: v < n && v !in order ==> Blocked(edges, order, v)
    requires v < n && v !in order
    ensures IsCycle(edges, walk)
  {
    var back := WalkBack(n, edges, order, v, n);
    Repeats(n, back);
    var i, j :| 0 <= i < j < |back| && back[i] == back[j];
    walk := back[i..j + 1];
    forall k | 0 <= k < |walk| - 1 ensures (walk[k], walk[k + 1]) in edges {
      assert (back[i + k], back[i + k + 1]) in edges;
    }
  }

  lemma Repeats(n: nat, walk: seq<nat>)
    requires |walk| > n && forall u: nat :: u in walk ==> u < n
    ensures exists i, j :: 0 <= i < j < |walk| && walk[i] == walk[j]
  {
    if Distinct(walk) {
      FewerThanNodes(n, walk);
    }
  }

  /** A walk of `steps` edges ending in `v`, all of it outside `order`. */
  lemma {:induction false} WalkBack(n: nat, edges: seq<Edge>, order: seq<nat>, v: nat, steps: nat)
    returns (walk: seq<nat>)
    requires InRange(n, edges)
    requires forall v: nat {:trigger Blocked(edges, order, v)} :: v < n && v !in order ==> Blocked(edges, order, v)
    requires v < n && v !in order
    ensures |walk| == steps + 1 && walk[|walk| - 1] == v
    ensures forall u: nat :: u in walk ==> u < n
    ensures forall i :: 0 <= i < |walk| - 1 ==> (walk[i], walk[i + 1]) in edges
    decreases steps
  {
    if steps == 0 {
      walk := [v];
    } else {
      assert Blocked(edges, order, v);
      var u: nat :| (u, v) in edges && u !in order;
      walk := WalkBack(n, edges, order, u, steps - 1);
      walk := walk + [v];
    }
  }
}
