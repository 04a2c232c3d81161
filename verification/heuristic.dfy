/**
 * `HeuristicNetworkPathOptimizer`: lowers the number of root-to-root paths
 * in a flow by cancelling flow around cycles through the root. A hop BFS
 * from the root over action records gives `distance`; per round, a 0-1 BFS
 * over flow-carrying action views gives `color` (a step costs 0 when it
 * moves away from the root in `distance`, 1 otherwise), and a cursor DFS
 * along colour-consistent views cancels flow on cycles that return to the
 * root over a root-return edge.
 */
module HeuristicNetworkPathOptimizer {
  import opened StateNetwork

  // ---------------------------------------------------------------------------
  // The two searches from the root

  /**
   * Which search: `distanceBfs` (every action view, weight 1) or
   * `colorBfs` over the given distances (action views with flow, weight 0
   * or 1).
   */
  datatype Weights = Hops | Colors(distance: seq<int>)

  /** Whether the search follows view j. */
  predicate Usable(n: Network, r: Weights, j: int)
    requires |n.flow| == |n.edges| && 0 <= j < EdgeCount(n)
  {
    RecordHasAction(n, j) && (r.Colors? ==> ViewFlow(n, j) != 0)
  }

  /** The cost of following view j. */
  function StepWeight(n: Network, r: Weights, j: int): int
    requires Valid(n) && 0 <= j < EdgeCount(n)
  {
    match r
    case Hops => 1
    case Colors(d) =>
      ViewEnds(n, j);
      if |d| == |n.adj| && d[ViewFrom(n, j)] < d[ViewTo(n, j)] then 0 else 1
  }

  /** A walk from s to t along views the search follows. */
  ghost predicate UsableWalk(n: Network, r: Weights, s: int, p: seq<int>, t: int)
    requires Valid(n)
  {
    IsWalk(n, s, p, t) && forall i :: 0 <= i < |p| ==> Usable(n, r, p[i])
  }

  /** The total cost of a walk. */
  function WalkWeight(n: Network, r: Weights, p: seq<int>): int
    requires Valid(n) && forall i :: 0 <= i < |p| ==> 0 <= p[i] < EdgeCount(n)
  {
    if |p| == 0 then 0 else WalkWeight(n, r, p[..|p| - 1]) + StepWeight(n, r, p[|p| - 1])
  }

  /** The sum of the labels (all non-negative): the termination measure of both searches. */
  function Total(cost: seq<int>): nat {
    if |cost| == 0 then 0 else Total(cost[..|cost| - 1]) + (if cost[|cost| - 1] > 0 then cost[|cost| - 1] else 0)
  }

  /** Lowering one label lowers the sum. */
  lemma {:induction false} TotalLowers(cost: seq<int>, v: int, y: int)
    requires 0 <= v < |cost| && 0 <= y < cost[v]
    ensures Total(cost[v := y]) < Total(cost)
    decreases |cost|
  {
    var k := |cost| - 1;
    if v < k {
      assert cost[v := y][..k] == cost[..k][v := y];
      TotalLowers(cost[..k], v, y);
    } else {
      assert cost[v := y][..k] == cost[..k];
    }
  }

  /** Labels in [0, INF], one per node, the root at 0. */
  ghost predicate LabelsOk(n: Network, cost: seq<int>) {
    && |cost| == |n.adj| && 0 <= n.root < |n.adj|
    && cost[n.root] == 0
    && forall v :: 0 <= v < |cost| ==> 0 <= cost[v] <= INF
  }

  /** Every finite cost is the cost of a usable walk from the root. */
  ghost predicate LabelsSound(n: Network, r: Weights, cost: seq<int>)
    requires Valid(n)
  {
    forall v :: 0 <= v < |cost| && cost[v] < INF ==>
      exists p :: UsableWalk(n, r, n.root, p, v) && WalkWeight(n, r, p) == cost[v]
  }

  /** No usable view out of u offers its target a cheaper cost. */
  ghost predicate NodeClosed(n: Network, r: Weights, cost: seq<int>, u: int, k: int)
    requires Valid(n) && |cost| == |n.adj|
  {
    forall i :: 0 <= u < |n.adj| && 0 <= i < k && i < |n.adj[u]| && Usable(n, r, n.adj[u][i]) ==>
      cost[AdjTarget(n, u, i)] <= cost[u] + StepWeight(n, r, n.adj[u][i])
  }

  /** Every node except `cur` is closed or still waiting in the deque. */
  ghost predicate PendingOrClosed(n: Network, r: Weights, cost: seq<int>, deque: seq<int>, cur: int)
    requires Valid(n) && |cost| == |n.adj|
  {
    forall x :: 0 <= x < |n.adj| && x != cur && x !in deque ==> NodeClosed(n, r, cost, x, |n.adj[x]|)
  }

  /** The search invariant: sane, sound labels and a deque of labelled nodes. */
  ghost predicate Searching(n: Network, r: Weights, cost: seq<int>, deque: seq<int>)
    requires Valid(n)
  {
    && LabelsOk(n, cost) && LabelsSound(n, r, cost)
    && Queued(n, cost, deque)
  }

  /** The deque holds nodes with finite costs. */
  ghost predicate Queued(n: Network, cost: seq<int>, deque: seq<int>) {
    forall x :: x in deque ==> 0 <= x < |n.adj| && x < |cost| && cost[x] < INF
  }

  /** One more usable view extends a witness walk. */
  lemma ExtendWalk(n: Network, r: Weights, v: int, c: int, j: int)
    requires Valid(n) && 0 <= j < EdgeCount(n) && Usable(n, r, j) && 0 <= n.root
    requires exists p :: UsableWalk(n, r, n.root, p, v) && WalkWeight(n, r, p) == c
    requires ViewFrom(n, j) == v
    ensures exists p :: UsableWalk(n, r, n.root, p, ViewTo(n, j)) && WalkWeight(n, r, p) == c + StepWeight(n, r, j)
  {
    var p :| UsableWalk(n, r, n.root, p, v) && WalkWeight(n, r, p) == c;
    UsableWalkSnoc(n, r, p, v, j);
  }

  /** Appending a usable view that leaves the walk's end gives a walk to the view's target, one step heavier. */
  lemma UsableWalkSnoc(n: Network, r: Weights, p: seq<int>, v: int, j: int)
    requires Valid(n) && 0 <= j < EdgeCount(n) && Usable(n, r, j)
    requires UsableWalk(n, r, n.root, p, v) && ViewFrom(n, j) == v
    ensures UsableWalk(n, r, n.root, p + [j], ViewTo(n, j))
    ensures WalkWeight(n, r, p + [j]) == WalkWeight(n, r, p) + StepWeight(n, r, j)
  {
    var q := p + [j];
    assert q[..|p|] == p;
    assert forall i :: 0 <= i < |p| ==> q[i] == p[i];
  }

  /**
   * What a stretch of the search did: costs only went down, the deque kept
   * its entries, every new entry had its cost lowered, and each new entry
   * cost the sum of the costs at least one unit.
   */
  ghost predicate Lowered(cost: seq<int>, deque: seq<int>, cost': seq<int>, deque': seq<int>) {
    && |cost'| == |cost|
    && (forall v :: 0 <= v < |cost| ==> cost'[v] <= cost[v])
    && (forall x :: x in deque ==> x in deque')
    && (forall x :: x in deque' && x !in deque ==> 0 <= x < |cost| && cost'[x] < cost[x])
    && (forall v :: 0 <= v < |cost| && cost'[v] < cost[v] ==> v in deque')
    && Total(cost') <= Total(cost)
    && (|deque'| != |deque| ==> Total(cost') < Total(cost))
  }

  /** Two stretches of the search in a row are one. */
  lemma LoweredTrans(c0: seq<int>, d0: seq<int>, c1: seq<int>, d1: seq<int>, c2: seq<int>, d2: seq<int>)
    requires Lowered(c0, d0, c1, d1) && Lowered(c1, d1, c2, d2)
    ensures Lowered(c0, d0, c2, d2)
  {
  }

  /** Lowering other costs keeps a node closed as long as its own cost stays. */
  lemma ClosedKeeps(n: Network, r: Weights, cost: seq<int>, cost': seq<int>, x: int, k: int)
    requires Valid(n) && |cost| == |n.adj| == |cost'| && 0 <= x < |n.adj|
    requires forall v :: 0 <= v < |cost| ==> cost'[v] <= cost[v]
    requires cost'[x] == cost[x] && NodeClosed(n, r, cost, x, k)
    ensures NodeClosed(n, r, cost', x, k)
  {
  }

  /**
   * One view of the scan of u in `distanceBfs`/`colorBfs`: when the view is
   * followed and offers its target a cheaper cost below INF, the cost is
   * recorded and the target queued, at the back for weight 1 and at the
   * front for weight 0.
   */
  method RelaxView(n: Network, r: Weights, cost: seq<int>, deque: seq<int>, u: int, i: int)
    returns (cost': seq<int>, deque': seq<int>)
    requires Valid(n) && Searching(n, r, cost, deque)
    requires 0 <= u < |n.adj| && cost[u] < INF && 0 <= i < |n.adj[u]|
    ensures Searching(n, r, cost', deque') && Lowered(cost, deque, cost', deque')
    ensures cost'[u] == cost[u]
    ensures Usable(n, r, n.adj[u][i]) ==> cost'[AdjTarget(n, u, i)] <= cost'[u] + StepWeight(n, r, n.adj[u][i])
  {
    var j := n.adj[u][i];
    AdjView(n, u, i);
    if !Usable(n, r, j) {
      Unchanged(n, r, cost, deque);
      return cost, deque;
    }
    var to := AdjTarget(n, u, i);
    var w := StepWeight(n, r, j);
    var c := cost[u];
    if c + w < cost[to] && c + w < INF {
      cost' := cost[to := c + w];
      deque' := if w == 1 then deque + [to] else [to] + deque;
      Relaxed(n, r, cost, deque, u, i, cost', deque');
    } else {
      cost', deque' := cost, deque;
      Unchanged(n, r, cost, deque);
    }
  }

  /** A view that offers nothing leaves the search as it was. */
  lemma Unchanged(n: Network, r: Weights, cost: seq<int>, deque: seq<int>)
    requires Valid(n) && Searching(n, r, cost, deque)
    ensures Lowered(cost, deque, cost, deque)
  {
  }

  /** Recording the cheaper cost through view i of u and queuing its target. */
  lemma Relaxed(n: Network, r: Weights, cost: seq<int>, deque: seq<int>, u: int, i: int, cost': seq<int>, deque': seq<int>)
    requires Valid(n) && Searching(n, r, cost, deque)
    requires 0 <= u < |n.adj| && cost[u] < INF && 0 <= i < |n.adj[u]|
    requires Usable(n, r, n.adj[u][i])
    requires cost[u] + StepWeight(n, r, n.adj[u][i]) < cost[AdjTarget(n, u, i)]
    requires cost[u] + StepWeight(n, r, n.adj[u][i]) < INF
    requires cost' == cost[AdjTarget(n, u, i) := cost[u] + StepWeight(n, r, n.adj[u][i])]
    requires deque' == if StepWeight(n, r, n.adj[u][i]) == 1 then deque + [AdjTarget(n, u, i)] else [AdjTarget(n, u, i)] + deque
    ensures Searching(n, r, cost', deque') && Lowered(cost, deque, cost', deque')
    ensures cost'[u] == cost[u]
    ensures cost'[AdjTarget(n, u, i)] <= cost'[u] + StepWeight(n, r, n.adj[u][i])
  {
    var j, to := n.adj[u][i], AdjTarget(n, u, i);
    AdjView(n, u, i);
    assert 0 <= StepWeight(n, r, j) <= 1;
    assert LabelsOk(n, cost') && LabelsSound(n, r, cost') by {
      RelaxSound(n, r, cost, u, j, cost');
    }
    assert Queued(n, cost', deque') && Lowered(cost, deque, cost', deque') by {
      RelaxQueued(n, cost, deque, to, cost[u] + StepWeight(n, r, j), cost', deque');
    }
  }

  /** Lowering the target's cost to the cost through view j keeps the costs sound. */
  lemma RelaxSound(n: Network, r: Weights, cost: seq<int>, u: int, j: int, cost': seq<int>)
    requires Valid(n) && LabelsOk(n, cost) && LabelsSound(n, r, cost)
    requires 0 <= j < EdgeCount(n) && Usable(n, r, j) && ViewFrom(n, j) == u && 0 <= u < |n.adj|
    requires 0 <= ViewTo(n, j) < |n.adj| && cost[u] < INF
    requires cost[u] + StepWeight(n, r, j) < cost[ViewTo(n, j)]
    requires cost' == cost[ViewTo(n, j) := cost[u] + StepWeight(n, r, j)]
    ensures LabelsOk(n, cost') && LabelsSound(n, r, cost')
  {
    var to := ViewTo(n, j);
    ExtendWalk(n, r, u, cost[u], j);
    forall v | 0 <= v < |cost'| && cost'[v] < INF
      ensures exists p :: UsableWalk(n, r, n.root, p, v) && WalkWeight(n, r, p) == cost'[v]
    {
      if v != to {
        assert cost'[v] == cost[v];
      }
    }
  }

  /** Queuing the node whose cost was just lowered is a `Lowered` step. */
  lemma RelaxQueued(n: Network, cost: seq<int>, deque: seq<int>, to: int, c: int, cost': seq<int>, deque': seq<int>)
    requires Queued(n, cost, deque) && |cost| == |n.adj|
    requires 0 <= to < |cost| && 0 <= c < cost[to] && c < INF && cost' == cost[to := c]
    requires deque' == deque + [to] || deque' == [to] + deque
    ensures Queued(n, cost', deque') && Lowered(cost, deque, cost', deque')
  {
    TotalLowers(cost, to, c);
  }

  /** The scan of u from position i on. */
  method ScanNode(n: Network, r: Weights, cost: seq<int>, deque: seq<int>, u: int, i: int)
    returns (cost': seq<int>, deque': seq<int>)
    requires Valid(n) && Searching(n, r, cost, deque)
    requires 0 <= u < |n.adj| && cost[u] < INF && 0 <= i <= |n.adj[u]|
    requires NodeClosed(n, r, cost, u, i) && PendingOrClosed(n, r, cost, deque, u)
    ensures Searching(n, r, cost', deque') && Lowered(cost, deque, cost', deque')
    ensures cost'[u] == cost[u]
    ensures NodeClosed(n, r, cost', u, |n.adj[u]|) && PendingOrClosed(n, r, cost', deque', u)
    decreases |n.adj[u]| - i
  {
    if i == |n.adj[u]| {
      return cost, deque;
    }
    var c1, d1 := RelaxView(n, r, cost, deque, u, i);
    ScanStep(n, r, cost, deque, u, i, c1, d1);
    cost', deque' := ScanNode(n, r, c1, d1, u, i + 1);
    LoweredTrans(cost, deque, c1, d1, cost', deque');
  }

  /** After relaxing view i of u, u is closed up to i + 1 and every other node is still closed or queued. */
  lemma ScanStep(n: Network, r: Weights, cost: seq<int>, deque: seq<int>, u: int, i: int, c1: seq<int>, d1: seq<int>)
    requires Valid(n) && |cost| == |n.adj| && 0 <= u < |n.adj| && 0 <= i < |n.adj[u]|
    requires NodeClosed(n, r, cost, u, i) && PendingOrClosed(n, r, cost, deque, u)
    requires Lowered(cost, deque, c1, d1) && c1[u] == cost[u]
    requires Usable(n, r, n.adj[u][i]) ==> c1[AdjTarget(n, u, i)] <= c1[u] + StepWeight(n, r, n.adj[u][i])
    ensures NodeClosed(n, r, c1, u, i + 1) && PendingOrClosed(n, r, c1, d1, u)
  {
    ClosedKeeps(n, r, cost, c1, u, i);
    forall x | 0 <= x < |n.adj| && x != u && x !in d1
      ensures NodeClosed(n, r, c1, x, |n.adj[x]|)
    {
      assert x !in deque && c1[x] == cost[x];
      ClosedKeeps(n, r, cost, c1, x, |n.adj[x]|);
    }
  }

  /** The polling loop: take the front node and scan it, until the deque is empty. */
  method Drain(n: Network, r: Weights, cost: seq<int>, deque: seq<int>) returns (cost': seq<int>)
    requires Valid(n) && Searching(n, r, cost, deque) && PendingOrClosed(n, r, cost, deque, -1)
    ensures Searching(n, r, cost', []) && PendingOrClosed(n, r, cost', [], -1)
    decreases Total(cost), |deque|
  {
    if deque == [] {
      return cost;
    }
    var u := deque[0];
    var rest := deque[1..];
    PopFront(n, r, cost, deque);
    var c1, d1 := ScanNode(n, r, cost, rest, u, 0);
    cost' := Drain(n, r, c1, d1);
  }

  /** Taking the front node off the deque: it has a finite cost, and the rest still satisfies the invariant with it as the current node. */
  lemma PopFront(n: Network, r: Weights, cost: seq<int>, deque: seq<int>)
    requires Valid(n) && Searching(n, r, cost, deque) && PendingOrClosed(n, r, cost, deque, -1) && |deque| > 0
    ensures 0 <= deque[0] < |n.adj| && cost[deque[0]] < INF
    ensures Searching(n, r, cost, deque[1..]) && PendingOrClosed(n, r, cost, deque[1..], deque[0])
  {
    assert deque == [deque[0]] + deque[1..] && deque[0] in deque;
    forall x | x in deque[1..]
      ensures x in deque
    {
    }
  }

  /** With every node closed, no usable walk from the root is cheaper than its end's cost. */
  lemma {:induction false} ClosedOptimal(n: Network, r: Weights, cost: seq<int>, p: seq<int>, v: int)
    requires Valid(n) && LabelsOk(n, cost) && PendingOrClosed(n, r, cost, [], -1)
    requires UsableWalk(n, r, n.root, p, v)
    ensures cost[v] <= WalkWeight(n, r, p)
    decreases |p|
  {
    if |p| > 0 {
      var k := |p| - 1;
      var q, j := p[..k], p[k];
      ViewEnds(n, j);
      var x := ViewFrom(n, j);
      assert forall i :: 0 <= i < |q| ==> q[i] == p[i];
      assert UsableWalk(n, r, n.root, q, x);
      ClosedOptimal(n, r, cost, q, x);
      ListedView(n, j);
      var i :| 0 <= i < |n.adj[x]| && n.adj[x][i] == j;
      assert NodeClosed(n, r, cost, x, |n.adj[x]|);
      assert cost[AdjTarget(n, x, i)] <= cost[x] + StepWeight(n, r, j);
    }
  }

  /**
   * `distanceBfs` (with `Hops`) and `colorBfs` (with `Colors`): costs from
   * the root. The root costs 0; every finite cost is the cost of a usable
   * walk from the root and no usable walk is cheaper, so the costs are the
   * least walk costs; nodes no usable walk reaches, or only walks costing
   * INF or more, stay at INF.
   */
  method Search(n: Network, r: Weights) returns (cost: seq<int>)
    requires Ready(n)
    ensures LabelsOk(n, cost) && LabelsSound(n, r, cost)
    ensures forall v, p :: 0 <= v < |n.adj| && UsableWalk(n, r, n.root, p, v) ==> cost[v] <= WalkWeight(n, r, p)
  {
    var c0 := seq(|n.adj|, _ => INF)[n.root := 0];
    assert UsableWalk(n, r, n.root, [], n.root) && WalkWeight(n, r, []) == 0;
    cost := Drain(n, r, c0, [n.root]);
    forall v, p | 0 <= v < |n.adj| && UsableWalk(n, r, n.root, p, v)
      ensures cost[v] <= WalkWeight(n, r, p)
    {
      ClosedOptimal(n, r, cost, p, v);
    }
  }

  // ---------------------------------------------------------------------------
  // Cancelling cycles through the root

  /** A root-return edge: a non-action edge into the root, which closes one path of the cover. */
  predicate IsReturn(e: EdgeRecord, root: int) {
    !e.hasAction && e.to == root
  }

  /** The total flow on root-return edges of a prefix of the records. */
  function ReturnFlowOf(edges: seq<EdgeRecord>, flow: seq<int>, root: int): int
    requires |flow| == |edges|
  {
    if |edges| == 0 then 0
    else
      var k := |edges| - 1;
      ReturnFlowOf(edges[..k], flow[..k], root) + (if IsReturn(edges[k], root) then flow[k] else 0)
  }

  /** The flow that returns to the root: the number of paths the flow decomposes into. */
  function ReturnFlow(n: Network): int
    requires |n.flow| == |n.edges|
  {
    ReturnFlowOf(n.edges, n.flow, n.root)
  }

  /** Changing one stored flow by x changes the returning flow by x exactly when the record is a root-return edge. */
  lemma {:induction false} ReturnFlowUpdate(edges: seq<EdgeRecord>, flow: seq<int>, root: int, k: int, x: int)
    requires |flow| == |edges| && 0 <= k < |edges|
    ensures ReturnFlowOf(edges, flow[k := flow[k] + x], root)
      == ReturnFlowOf(edges, flow, root) + (if IsReturn(edges[k], root) then x else 0)
    decreases |edges|
  {
    var last := |edges| - 1;
    var f := flow[k := flow[k] + x];
    if k < last {
      assert f[..last] == flow[..last][k := flow[k] + x];
      ReturnFlowUpdate(edges[..last], flow[..last], root, k, x);
    } else {
      assert f[..last] == flow[..last];
    }
  }

  /** `incFlow` on a view changes the returning flow only through a root-return record. */
  lemma IncFlowReturn(n: Network, j: int, d: int)
    requires |n.flow| == |n.edges| && 0 <= j < EdgeCount(n)
    ensures ReturnFlow(IncFlow(n, j, d))
      == ReturnFlow(n) + (if IsReturn(n.edges[j / 2], n.root) then (if j % 2 == 0 then d else -d) else 0)
  {
    ReturnFlowUpdate(n.edges, n.flow, n.root, j / 2, if j % 2 == 0 then d else -d);
  }

  /** With non-negative flows the returning flow is non-negative. */
  lemma {:induction false} ReturnFlowNonNegative(edges: seq<EdgeRecord>, flow: seq<int>, root: int)
    requires |flow| == |edges| && forall k :: 0 <= k < |flow| ==> flow[k] >= 0
    ensures ReturnFlowOf(edges, flow, root) >= 0
    decreases |edges|
  {
    if |edges| > 0 {
      var k := |edges| - 1;
      ReturnFlowNonNegative(edges[..k], flow[..k], root);
    }
  }

  /** Distances and colours: one per node, each in [0, INF]. */
  ghost predicate Ranks(n: Network, distance: seq<int>, color: seq<int>) {
    && |distance| == |n.adj| && |color| == |n.adj|
    && (forall v :: 0 <= v < |n.adj| ==> 0 <= distance[v] <= INF)
    && (forall v :: 0 <= v < |n.adj| ==> 0 <= color[v] <= INF)
  }

  /** a comes strictly before b in the order the search descends in: lower colour, or equal colour and lower distance. */
  predicate Below(distance: seq<int>, color: seq<int>, a: int, b: int)
    requires 0 <= a < |distance| == |color| && 0 <= b < |distance|
  {
    color[a] < color[b] || (color[a] == color[b] && distance[a] < distance[b])
  }

  /**
   * What a cancellation from u may touch: only flows change, and a changed
   * record is a non-action edge or joins two nodes not below u.
   */
  ghost predicate TouchedFrom(n: Network, m: Network, distance: seq<int>, color: seq<int>, u: int)
    requires Valid(n) && Ranks(n, distance, color)
  {
    && m == n.(flow := m.flow) && |m.flow| == |n.flow|
    && forall k :: 0 <= k < |n.flow| && m.flow[k] != n.flow[k] ==>
         || !n.edges[k].hasAction
         || (&& 0 <= n.edges[k].from < |n.adj| && 0 <= n.edges[k].to < |n.adj|
             && 0 <= u < |n.adj|
             && !Below(distance, color, n.edges[k].from, u) && !Below(distance, color, n.edges[k].to, u))
  }

  /**
   * The effect of cancelling df from u: df units less leave u and df less
   * arrive at the root (every other node keeps its balance), the returning
   * flow drops by df, and nothing changes when df is 0.
   */
  ghost predicate Cancelled(n: Network, m: Network, distance: seq<int>, color: seq<int>, u: int, df: int)
    requires Valid(n) && Ranks(n, distance, color)
  {
    && TouchedFrom(n, m, distance, color, u)
    && FlowBounded(m)
    && Routed(n, m, u, n.root, -df)
    && ReturnFlow(m) == ReturnFlow(n) - df
    && (df == 0 ==> m == n)
  }

  /** Cursors only advance, and those of nodes below u stay. */
  ghost predicate CursorsFrom(n: Network, distance: seq<int>, color: seq<int>, u: int, ptr: seq<int>, ptr': seq<int>)
    requires Ranks(n, distance, color) && Cursors(n, ptr) && 0 <= u < |n.adj|
  {
    && Cursors(n, ptr')
    && (forall x :: 0 <= x < |n.adj| ==> ptr[x] <= ptr'[x])
    && (forall x :: 0 <= x < |n.adj| && Below(distance, color, x, u) ==> ptr'[x] == ptr[x])
  }

  /** Nothing cancelled. */
  lemma CancelledNothing(n: Network, distance: seq<int>, color: seq<int>, u: int)
    requires Valid(n) && FlowBounded(n) && Ranks(n, distance, color) && 0 <= u < |n.adj|
    ensures Cancelled(n, n, distance, color, u, 0)
  {
    RoutedNothing(n, u, n.root);
  }

  /** The last leg: df off a root-return edge leaving u. */
  lemma ReturnLeg(n: Network, distance: seq<int>, color: seq<int>, u: int, j: int, df: int)
    requires Valid(n) && FlowBounded(n) && Ranks(n, distance, color)
    requires 0 <= j < EdgeCount(n) && j % 2 == 0 && ViewFrom(n, j) == u && 0 <= u < |n.adj|
    requires ViewTo(n, j) == n.root && !n.edges[j / 2].hasAction
    requires 0 < df <= ViewFlow(n, j)
    ensures Cancelled(n, IncFlow(n, j, -df), distance, color, u, df)
  {
    CancelFlowBounded(n, j, df);
    IncFlowRouted(n, j, -df);
    IncFlowReturn(n, j, -df);
  }

  /** An inner leg: df off the action view from u to `to`, after df was cancelled from `to`. */
  lemma InnerLeg(n: Network, m1: Network, distance: seq<int>, color: seq<int>, u: int, j: int, df: int)
    requires Valid(n) && FlowBounded(n) && Ranks(n, distance, color)
    requires 0 <= j < EdgeCount(n) && ViewFrom(n, j) == u && RecordHasAction(n, j)
    requires 0 <= u < |n.adj| && 0 <= ViewTo(n, j) < |n.adj| && Below(distance, color, u, ViewTo(n, j))
    requires 0 < df <= ViewFlow(n, j)
    requires Cancelled(n, m1, distance, color, ViewTo(n, j), df)
    ensures Cancelled(n, IncFlow(m1, j, -df), distance, color, u, df)
  {
    var to, m := ViewTo(n, j), IncFlow(m1, j, -df);
    assert m1.flow[j / 2] == n.flow[j / 2];
    CancelFlowBounded(m1, j, df);
    IncFlowRouted(m1, j, -df);
    RoutedChain(n, m1, m, u, to, n.root, -df);
    IncFlowReturn(m1, j, -df);
  }

  /**
   * `simpleCycleDfs(u, flow)`: nothing for flow 0; otherwise the search
   * from u's cursor. The result never exceeds `flow`, and exactly the
   * returned amount was cancelled along a walk from u back to the root.
   */
  method SimpleCycleDfs(n: Network, distance: seq<int>, color: seq<int>, ptr: seq<int>, u: int, flow: int)
    returns (df: int, m: Network, ptr': seq<int>)
    requires Valid(n) && FlowBounded(n) && Ranks(n, distance, color) && Cursors(n, ptr)
    requires 0 <= u < |n.adj| && flow >= 0
    ensures 0 <= df <= flow && (flow == 0 ==> df == 0)
    ensures Cancelled(n, m, distance, color, u, df) && CursorsFrom(n, distance, color, u, ptr, ptr')
    decreases INF - color[u], INF - distance[u], 1, 0, 0
  {
    if flow == 0 {
      CancelledNothing(n, distance, color, u);
      return 0, n, ptr;
    }
    df, m, ptr' := CycleFromCursor(n, distance, color, ptr, u, flow);
  }

  /**
   * The loop of `simpleCycleDfs` from u's cursor: views without flow and
   * views of non-action records are skipped; a forward root-return edge
   * ends the walk with min(flow, its flow); an action view whose target's
   * colour is u's plus the step weight is descended along. The cursor stays
   * on the view that succeeded; when nothing succeeds it reaches the end.
   */
  method CycleFromCursor(n: Network, distance: seq<int>, color: seq<int>, ptr: seq<int>, u: int, flow: int)
    returns (df: int, m: Network, ptr': seq<int>)
    requires Valid(n) && FlowBounded(n) && Ranks(n, distance, color) && Cursors(n, ptr)
    requires 0 <= u < |n.adj| && flow > 0
    ensures 0 <= df <= flow
    ensures Cancelled(n, m, distance, color, u, df) && CursorsFrom(n, distance, color, u, ptr, ptr')
    ensures df == 0 ==> ptr'[u] == |n.adj[u]|
    decreases INF - color[u], INF - distance[u], 0, |n.adj[u]| - ptr[u], 1
  {
    if ptr[u] == |n.adj[u]| {
      CancelledNothing(n, distance, color, u);
      return 0, n, ptr;
    }
    var j := n.adj[u][ptr[u]];
    AdjView(n, u, ptr[u]);
    var vf := ViewFlow(n, j);
    if vf != 0 && j % 2 == 0 && ViewTo(n, j) == n.root && !n.edges[j / 2].hasAction {
      df := Min(flow, vf);
      m := IncFlow(n, j, -df);
      ReturnLeg(n, distance, color, u, j, df);
      return df, m, ptr;
    }
    if vf == 0 || !RecordHasAction(n, j) {
      df, m, ptr' := CycleFromCursor(n, distance, color, ptr[u := ptr[u] + 1], u, flow);
    } else {
      df, m, ptr' := Descend(n, distance, color, ptr, u, flow);
    }
  }

  /**
   * The cursor's view of u has flow and an action record: descend along it
   * when the target's colour is u's plus the step weight, and cancel on the
   * view what came back; otherwise, or when nothing came back, move on.
   */
  method Descend(n: Network, distance: seq<int>, color: seq<int>, ptr: seq<int>, u: int, flow: int)
    returns (df: int, m: Network, ptr': seq<int>)
    requires Valid(n) && FlowBounded(n) && Ranks(n, distance, color) && Cursors(n, ptr)
    requires 0 <= u < |n.adj| && flow > 0 && ptr[u] < |n.adj[u]|
    requires 0 <= n.adj[u][ptr[u]] < EdgeCount(n)
    requires ViewFlow(n, n.adj[u][ptr[u]]) > 0 && RecordHasAction(n, n.adj[u][ptr[u]])
    ensures 0 <= df <= flow
    ensures Cancelled(n, m, distance, color, u, df) && CursorsFrom(n, distance, color, u, ptr, ptr')
    ensures df == 0 ==> ptr'[u] == |n.adj[u]|
    decreases INF - color[u], INF - distance[u], 0, |n.adj[u]| - ptr[u], 0
  {
    var j := n.adj[u][ptr[u]];
    AdjView(n, u, ptr[u]);
    var to := AdjTarget(n, u, ptr[u]);
    var vf := ViewFlow(n, j);
    var w := if distance[u] < distance[to] then 0 else 1;
    var ptr1 := ptr;
    if color[u] + w == color[to] {
      var d1, m1;
      d1, m1, ptr1 := SimpleCycleDfs(n, distance, color, ptr, to, Min(flow, vf));
      if d1 > 0 {
        m := IncFlow(m1, j, -d1);
        InnerLeg(n, m1, distance, color, u, j, d1);
        return d1, m, ptr1;
      }
    }
    df, m, ptr' := CycleFromCursor(n, distance, color, ptr1[u := ptr1[u] + 1], u, flow);
  }

  // ---------------------------------------------------------------------------
  // The optimizer

  /**
   * Only flows changed, all within bounds, every node kept its balance, and
   * no more flow returns to the root than before.
   */
  ghost predicate Rerouted(n: Network, m: Network) {
    && |n.flow| == |n.edges|
    && m == n.(flow := m.flow) && FlowBounded(m)
    && (forall v :: NetOut(m, v) == NetOut(n, v))
    && ReturnFlow(m) <= ReturnFlow(n)
  }

  /**
   * The inner loop of a round: search for a cycle through the root with
   * unbounded capacity until a search finds nothing, reusing the round's
   * cursors. Every successful search takes at least one unit off
   * the returning flow, which cannot go below zero, so the loop ends.
   */
  method CancelCycles(n: Network, distance: seq<int>, color: seq<int>, ptr: seq<int>)
    returns (m: Network, progress: bool)
    requires Ready(n) && FlowBounded(n) && Ranks(n, distance, color) && Cursors(n, ptr)
    ensures Rerouted(n, m)
    ensures progress <==> ReturnFlow(m) < ReturnFlow(n)
    ensures !progress ==> m == n
    decreases ReturnFlow(n)
  {
    var df, m1, p1 := SimpleCycleDfs(n, distance, color, ptr, n.root, INF);
    if df == 0 {
      return n, false;
    }
    ReturnFlowNonNegative(n.edges, n.flow, n.root);
    m, progress := CancelCycles(m1, distance, color, p1);
    progress := true;
  }

  /** Rounds i..iterations: a colour search, fresh cursors, then cancelling until nothing is found; stop after a round without progress. */
  method Rounds(n: Network, distance: seq<int>, i: int, iterations: int) returns (m: Network)
    requires Ready(n) && FlowBounded(n) && LabelsOk(n, distance)
    ensures Rerouted(n, m)
    decreases iterations - i
  {
    if i > iterations {
      return n;
    }
    var color := Search(n, Colors(distance));
    var ptr := seq(|n.adj|, _ => 0);
    var m1, progress := CancelCycles(n, distance, color, ptr);
    if !progress {
      return m1;
    }
    m := Rounds(m1, distance, i + 1, iterations);
  }

  /**
   * `optimizePaths`: the hop distances once, then up to `iterations`
   * rounds. The flow stays a valid flow with the same balances at every
   * node, and the number of paths it decomposes into does not grow.
   */
  method OptimizePaths(n: Network, iterations: int) returns (m: Network)
    requires Ready(n) && FlowBounded(n)
    ensures Rerouted(n, m)
  {
    var distance := Search(n, Hops);
    m := Rounds(n, distance, 1, iterations);
  }
}
