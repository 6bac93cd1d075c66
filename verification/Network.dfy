/**
 Arcs, supplies and integral flows, as handed to and read back from the min-cost-flow solver.

 The balance of a node is what leaves it minus what enters it. A flow respects the capacities and
 balances to the supply at every node; its cost is the sum over the arcs.

 The solver is a parameter: it answers with an optimal flow, a feasible one, or none.
 */
module Network {

  /** `new_node()` never repeats a number, so a node is modelled by what it stands for. */
  datatype Node = Source | Sink | TeamNode(team: nat) | PlayerNode(player: nat) | RoleNode(team: nat, role: nat)

  /** Arcs that place a player remember the player and its candidate row. */
  datatype Tag = Plain | Place(player: nat, row: nat)

  datatype Arc = Arc(from: Node, to: Node, capacity: int, cost: int, tag: Tag)

  datatype Net = Net(arcs: seq<Arc>, supplies: map<Node, int>)

  function Supply(supplies: map<Node, int>, node: Node): int {
    if node in supplies then supplies[node] else 0
  }

  /** What leaves the node minus what enters it, over the first n arcs. */
  function NetOutBelow(arcs: seq<Arc>, flow: seq<int>, node: Node, n: nat): int
    requires n <= |arcs| == |flow|
  {
    if n == 0 then 0
    else
      NetOutBelow(arcs, flow, node, n - 1)
      + (if arcs[n - 1].from == node then flow[n - 1] else 0)
      - (if arcs[n - 1].to == node then flow[n - 1] else 0)
  }

  function NetOut(arcs: seq<Arc>, flow: seq<int>, node: Node): int
    requires |arcs| == |flow|
  {
    NetOutBelow(arcs, flow, node, |arcs|)
  }

  function CostBelow(arcs: seq<Arc>, flow: seq<int>, n: nat): int
    requires n <= |arcs| == |flow|
  {
    if n == 0 then 0 else CostBelow(arcs, flow, n - 1) + flow[n - 1] * arcs[n - 1].cost
  }

  function Cost(arcs: seq<Arc>, flow: seq<int>): int
    requires |arcs| == |flow|
  {
    CostBelow(arcs, flow, |arcs|)
  }

  predicate WithinCapacity(arcs: seq<Arc>, flow: seq<int>) {
    |arcs| == |flow| && forall i :: 0 <= i < |arcs| ==> 0 <= flow[i] <= arcs[i].capacity
  }

  ghost predicate IsFlow(net: Net, flow: seq<int>) {
    && WithinCapacity(net.arcs, flow)
    && forall node: Node :: NetOut(net.arcs, flow, node) == Supply(net.supplies, node)
  }

  ghost predicate IsOptimal(net: Net, flow: seq<int>) {
    IsFlow(net, flow) && forall other :: IsFlow(net, other) ==> Cost(net.arcs, flow) <= Cost(net.arcs, other)
  }

  /** The solver's answer: an integral optimal flow, an integral feasible one, or no flow at all. */
  datatype Answer = Optimal(flow: seq<int>) | Feasible(flow: seq<int>) | Infeasible

  ghost predicate Honest(net: Net, answer: Answer) {
    match answer
    case Optimal(flow) => IsOptimal(net, flow)
    case Feasible(flow) => IsFlow(net, flow)
    case Infeasible => forall flow :: !IsFlow(net, flow)
  }

  lemma {:induction false} NetOutBelowAppend(a: seq<Arc>, b: seq<Arc>, f: seq<int>, g: seq<int>, node: Node, n: nat)
    requires |a| == |f| && |b| == |g| && n <= |a| + |b|
    ensures NetOutBelow(a + b, f + g, node, n)
         == if n <= |a| then NetOutBelow(a, f, node, n) else NetOut(a, f, node) + NetOutBelow(b, g, node, n - |a|)
  {
    if n > 0 {
      NetOutBelowAppend(a, b, f, g, node, n - 1);
    }
  }

  lemma NetOutAppend(a: seq<Arc>, b: seq<Arc>, f: seq<int>, g: seq<int>, node: Node)
    requires |a| == |f| && |b| == |g|
    ensures NetOut(a + b, f + g, node) == NetOut(a, f, node) + NetOut(b, g, node)
  {
    NetOutBelowAppend(a, b, f, g, node, |a| + |b|);
  }

  lemma {:induction false} CostBelowAppend(a: seq<Arc>, b: seq<Arc>, f: seq<int>, g: seq<int>, n: nat)
    requires |a| == |f| && |b| == |g| && n <= |a| + |b|
    ensures CostBelow(a + b, f + g, n) == if n <= |a| then CostBelow(a, f, n) else Cost(a, f) + CostBelow(b, g, n - |a|)
  {
    if n > 0 {
      CostBelowAppend(a, b, f, g, n - 1);
    }
  }

  lemma CostAppend(a: seq<Arc>, b: seq<Arc>, f: seq<int>, g: seq<int>)
    requires |a| == |f| && |b| == |g|
    ensures Cost(a + b, f + g) == Cost(a, f) + Cost(b, g)
  {
    CostBelowAppend(a, b, f, g, |a| + |b|);
  }

  /** Arcs that do not touch a node do not change its balance. */
  /** One more arc at the end of the list. */
  lemma Snoc(arcs: seq<Arc>, flow: seq<int>, arc: Arc, v: int, node: Node)
    requires |arcs| == |flow|
    ensures NetOut(arcs + [arc], flow + [v], node)
         == NetOut(arcs, flow, node) + (if arc.from == node then v else 0) - (if arc.to == node then v else 0)
    ensures Cost(arcs + [arc], flow + [v]) == Cost(arcs, flow) + v * arc.cost
    ensures WithinCapacity(arcs + [arc], flow + [v]) <==> WithinCapacity(arcs, flow) && 0 <= v <= arc.capacity
  {
    NetOutBelowAppend(arcs, [arc], flow, [v], node, |arcs|);
    CostBelowAppend(arcs, [arc], flow, [v], |arcs|);
    var a, f := arcs + [arc], flow + [v];
    if WithinCapacity(a, f) {
      forall i | 0 <= i < |arcs| ensures 0 <= flow[i] <= arcs[i].capacity {
        assert a[i] == arcs[i] && f[i] == flow[i];
      }
    }
  }

  lemma Single(arc: Arc, v: int, node: Node)
    ensures NetOut([arc], [v], node) == (if arc.from == node then v else 0) - (if arc.to == node then v else 0)
    ensures Cost([arc], [v]) == v * arc.cost
  {
    assert NetOutBelow([arc], [v], node, 0) == 0;
    assert CostBelow([arc], [v], 0) == 0;
  }

  lemma CapacityAppend(a: seq<Arc>, b: seq<Arc>, f: seq<int>, g: seq<int>)
    requires |a| == |f| && |b| == |g|
    ensures WithinCapacity(a + b, f + g) <==> WithinCapacity(a, f) && WithinCapacity(b, g)
  {
    if WithinCapacity(a + b, f + g) {
      forall i | 0 <= i < |a| ensures 0 <= f[i] <= a[i].capacity {
        assert (a + b)[i] == a[i] && (f + g)[i] == f[i];
      }
      forall i | 0 <= i < |b| ensures 0 <= g[i] <= b[i].capacity {
        assert (a + b)[|a| + i] == b[i] && (f + g)[|f| + i] == g[i];
      }
    }
  }
}
