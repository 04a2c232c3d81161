/**
 * `PushRelabelMaxFlowSolver`: FIFO push-relabel. The source starts with an
 * infinite excess and height `nodeCount` and pushes along all its views;
 * afterwards every node whose excess rises from zero is queued and, unless
 * it is the source or the sink, discharged: pushed along residual views to
 * lower neighbours under a cursor, and relabelled when the cursor runs off
 * its list.
 */
module PushRelabelMaxFlowSolver {
  import opened StateNetwork

  /** The solver's fields: the network, `height`, `excess`, `adjListPt` and `excessQueue`. */
  datatype Preflow = Preflow(net: Network, height: seq<int>, excess: seq<int>, ptr: seq<int>, queue: seq<int>)

  /** One entry per node in each array, cursors within their lists, queued entries are nodes. */
  ghost predicate Shaped(s: Preflow) {
    && Valid(s.net) && |s.net.adj| > 0
    && |s.height| == |s.net.adj| && |s.excess| == |s.net.adj|
    && Cursors(s.net, s.ptr)
    && forall i :: 0 <= i < |s.queue| ==> 0 <= s.queue[i] < |s.net.adj|
  }

  /** Flows within capacities and no negative excess: a preflow. */
  ghost predicate Preflowing(s: Preflow) {
    && FlowBounded(s.net)
    && forall v :: 0 <= v < |s.excess| ==> s.excess[v] >= 0
  }

  /**
   * Excess is bookkeeping for the flow that moved: starting from network n0
   * with excesses e0, every node's excess plus its net outflow is what it
   * was at the start.
   */
  ghost predicate Accounted(n0: Network, e0: seq<int>, s: Preflow)
    requires |n0.flow| == |n0.edges|
  {
    && s.net == n0.(flow := s.net.flow) && |s.net.flow| == |n0.flow|
    && |e0| == |s.excess| == |n0.adj|
    && forall v :: 0 <= v < |n0.adj| ==> s.excess[v] + NetOut(s.net, v) == e0[v] + NetOut(n0, v)
  }

  /** Every active node (positive excess, neither source nor sink), except possibly x, is waiting in the queue. */
  ghost predicate ActiveQueued(s: Preflow, x: int)
    requires Shaped(s)
  {
    forall v :: 0 <= v < |s.excess| && v != Source(s.net) && v != Sink(s.net) && v != x && s.excess[v] > 0 ==>
      v in s.queue
  }

  /** The three invariants together, with x the node being discharged. */
  ghost predicate Invariant(n0: Network, e0: seq<int>, s: Preflow, x: int) {
    && Consistent(n0, e0, s) && ActiveQueued(s, x)
  }

  /** The invariants that hold whatever the queue: shape, preflow and bookkeeping. */
  ghost predicate Consistent(n0: Network, e0: seq<int>, s: Preflow) {
    && |n0.flow| == |n0.edges| && Shaped(s)
    && Preflowing(s) && Accounted(n0, e0, s)
  }

  /**
   * `push(eId)`: moves d = min(excess of the origin, residual of the view)
   * along the view, from the origin's excess to the target's, and queues
   * the target when a positive push raised its excess from zero.
   */
  function Push(s: Preflow, e: int): (r: Preflow)
    requires Shaped(s) && 0 <= e < EdgeCount(s.net)
    ensures Shaped(r) && r.height == s.height && r.ptr == s.ptr
    ensures r.net == s.net.(flow := r.net.flow)
    ensures var u, v, d := ViewFrom(s.net, e), ViewTo(s.net, e), Min(s.excess[ViewFrom(s.net, e)], Residual(s.net, e));
      && Residual(r.net, e) == Residual(s.net, e) - d
      && (forall k :: 0 <= k < |s.net.flow| && k != e / 2 ==> r.net.flow[k] == s.net.flow[k])
      && (u != v ==> r.excess[u] == s.excess[u] - d && r.excess[v] == s.excess[v] + d)
      && (forall w :: 0 <= w < |s.excess| && w != u && w != v ==> r.excess[w] == s.excess[w])
      && r.excess[u] + r.excess[v] == s.excess[u] + s.excess[v]
      && (r.queue == s.queue || (r.queue == s.queue + [v] && d > 0 && r.excess[v] == d))
  {
    ViewEnds(s.net, e);
    var u, v := ViewFrom(s.net, e), ViewTo(s.net, e);
    var d := Min(s.excess[u], Residual(s.net, e));
    var ex := s.excess[u := s.excess[u] - d];
    var ex' := ex[v := ex[v] + d];
    var q := if d > 0 && ex'[v] == d then s.queue + [v] else s.queue;
    Preflow(IncFlow(s.net, e, d), s.height, ex', s.ptr, q)
  }

  /** A push keeps the preflow, the bookkeeping and the queue of active nodes. */
  lemma PushKeeps(n0: Network, e0: seq<int>, s: Preflow, e: int, x: int)
    requires Invariant(n0, e0, s, x) && 0 <= e < EdgeCount(s.net)
    ensures Invariant(n0, e0, Push(s, e), x)
  {
    var r := Push(s, e);
    var u, v, d := ViewFrom(s.net, e), ViewTo(s.net, e), Min(s.excess[ViewFrom(s.net, e)], Residual(s.net, e));
    BoundedResiduals(s.net, e);
    assert r.net == IncFlow(s.net, e, d);
    IncFlowBounded(s.net, e, d);
    forall w | 0 <= w < |n0.adj| ensures r.excess[w] + NetOut(r.net, w) == e0[w] + NetOut(n0, w) {
      IncFlowNetOut(s.net, e, d, w);
    }
    forall w | 0 <= w < |r.excess| && w != Source(r.net) && w != Sink(r.net) && w != x && r.excess[w] > 0
      ensures w in r.queue
    {
      if w == v && u != v && s.excess[v] == 0 {
        assert r.queue == s.queue + [v];
      } else {
        assert w in s.queue;
      }
    }
  }

  /** The j-th view of u has room left. */
  ghost predicate HasRoom(n: Network, u: int, j: int)
    requires Valid(n)
  {
    0 <= u < |n.adj| && 0 <= j < |n.adj[u]| && Residual(n, n.adj[u][j]) > 0
  }

  /**
   * `relabel(u)`: one more than the lowest height among the targets of u's
   * views with room, when some such height is below INF; otherwise the
   * heights stay as they are.
   */
  method Relabel(n: Network, height: seq<int>, u: int) returns (height': seq<int>)
    requires Valid(n) && |height| == |n.adj| && 0 <= u < |n.adj|
    ensures |height'| == |height| && forall w :: 0 <= w < |height| && w != u ==> height'[w] == height[w]
    ensures (exists j :: HasRoom(n, u, j) && height[AdjTarget(n, u, j)] < INF) ==>
      && (forall j :: HasRoom(n, u, j) ==> height'[u] <= height[AdjTarget(n, u, j)] + 1)
      && (exists j :: HasRoom(n, u, j) && height'[u] == height[AdjTarget(n, u, j)] + 1)
    ensures !(exists j :: HasRoom(n, u, j) && height[AdjTarget(n, u, j)] < INF) ==> height' == height
  {
    var d := INF;
    var i := 0;
    while i < |n.adj[u]|
      invariant 0 <= i <= |n.adj[u]| && d <= INF
      invariant forall j :: 0 <= j < i && HasRoom(n, u, j) ==> d <= height[AdjTarget(n, u, j)]
      invariant d == INF || exists j :: 0 <= j < i && HasRoom(n, u, j) && d == height[AdjTarget(n, u, j)]
    {
      if Residual(n, n.adj[u][i]) > 0 {
        d := Min(d, height[AdjTarget(n, u, i)]);
      }
      i := i + 1;
    }
    if d < INF {
      height' := height[u := d + 1];
    } else {
      height' := height;
    }
  }

  /** The view under u's cursor has room and leads strictly downhill. */
  ghost predicate Admissible(s: Preflow, u: int)
    requires Shaped(s)
  {
    && 0 <= u < |s.net.adj| && s.ptr[u] < |s.net.adj[u]|
    && HasRoom(s.net, u, s.ptr[u])
    && s.height[u] > s.height[AdjTarget(s.net, u, s.ptr[u])]
  }

  /** Changing only heights and cursors keeps the invariants. */
  lemma BookkeepingKeeps(s: Preflow, r: Preflow, u: int, n0: Network, e0: seq<int>)
    requires Invariant(n0, e0, s, u)
    requires r.net == s.net && r.excess == s.excess && r.queue == s.queue
    requires |r.height| == |s.height| && Cursors(r.net, r.ptr)
    ensures Invariant(n0, e0, r, u)
  {
  }

  /**
   * One iteration of the loop in `discharge(u)`: push along the view under
   * the cursor when it is admissible, otherwise move the cursor on; at the
   * end of the list relabel u and rewind the cursor. Pushing is the only
   * step that moves flow or excess, and only along an admissible view;
   * relabelling happens only at the end of the list.
   */
  method DischargeStep(s: Preflow, u: int, ghost n0: Network, ghost e0: seq<int>) returns (r: Preflow)
    requires Invariant(n0, e0, s, u) && 0 <= u < |s.net.adj|
    ensures Invariant(n0, e0, r, u)
    ensures (r.net != s.net || r.excess != s.excess) ==> Admissible(s, u) && r.ptr == s.ptr
    ensures r.height != s.height ==> s.ptr[u] == |s.net.adj[u]|
    ensures Admissible(s, u) || r.ptr == s.ptr[u := if s.ptr[u] < |s.net.adj[u]| then s.ptr[u] + 1 else 0]
  {
    var pt := s.ptr[u];
    if pt < |s.net.adj[u]| {
      var e := s.net.adj[u][pt];
      AdjView(s.net, u, pt);
      // the view's origin is u itself
      if Residual(s.net, e) > 0 && s.height[u] > s.height[AdjTarget(s.net, u, pt)] {
        PushKeeps(n0, e0, s, e, u);
        r := Push(s, e);
      } else {
        r := s.(ptr := s.ptr[u := pt + 1]);
        BookkeepingKeeps(s, r, u, n0, e0);
      }
    } else {
      var h := Relabel(s.net, s.height, u);
      r := s.(height := h, ptr := s.ptr[u := 0]);
      BookkeepingKeeps(s, r, u, n0, e0);
    }
  }

  /**
   * `discharge(u)`: steps until u's excess is gone, each step consuming a
   * unit of fuel; with fuel left over, u is no longer active.
   */
  method Discharge(s: Preflow, u: int, fuel: nat, ghost n0: Network, ghost e0: seq<int>) returns (r: Preflow, fuel': nat)
    requires Invariant(n0, e0, s, u) && 0 <= u < |s.net.adj|
    ensures Invariant(n0, e0, r, u)
    ensures fuel' <= fuel && (fuel' > 0 ==> r.excess[u] == 0)
    decreases fuel
  {
    if s.excess[u] <= 0 {
      return s, fuel;
    }
    if fuel == 0 {
      return s, 0;
    }
    var s1 := DischargeStep(s, u, n0, e0);
    r, fuel' := Discharge(s1, u, fuel - 1, n0, e0);
  }

  /** The excess the constructor starts from: INF at the source, 0 elsewhere. */
  function InitialExcess(n: Network): (e0: seq<int>)
    requires |n.adj| > 0
    ensures |e0| == |n.adj| && e0[Source(n)] == INF
    ensures forall v :: 0 <= v < |e0| && v != Source(n) ==> e0[v] == 0
  {
    seq(|n.adj|, _ => 0)[Source(n) := INF]
  }

  /** The constructor's `forEach(this::push)` over the source's views, from position j. */
  method PushSourceViews(s: Preflow, j: int, ghost n0: Network, ghost e0: seq<int>) returns (r: Preflow)
    requires Invariant(n0, e0, s, -1) && 0 <= j <= |s.net.adj[Source(s.net)]|
    ensures Invariant(n0, e0, r, -1) && r.height == s.height && r.ptr == s.ptr
    decreases |s.net.adj[Source(s.net)]| - j
  {
    var src := Source(s.net);
    if j == |s.net.adj[src]| {
      return s;
    }
    AdjView(s.net, src, j);
    PushKeeps(n0, e0, s, s.net.adj[src][j], -1);
    r := PushSourceViews(Push(s, s.net.adj[src][j]), j + 1, n0, e0);
  }

  /**
   * The constructor: heights 0 except `nodeCount` at the source, excess INF
   * at the source, cursors at 0, an empty queue, then a push along every
   * view of the source.
   */
  method Start(n: Network) returns (s: Preflow)
    requires Ready(n) && FlowBounded(n)
    ensures Invariant(n, InitialExcess(n), s, -1)
    ensures s.height[Source(n)] == NodeCount(n)
    ensures forall v :: 0 <= v < |s.height| && v != Source(n) ==> s.height[v] == 0
    ensures forall v :: 0 <= v < |s.ptr| ==> s.ptr[v] == 0
  {
    var s0 := Preflow(n, seq(|n.adj|, _ => 0)[Source(n) := |n.adj|], InitialExcess(n), seq(|n.adj|, _ => 0), []);
    s := PushSourceViews(s0, 0, n, InitialExcess(n));
  }

  /** Polling the head of the queue leaves every other active node queued. */
  lemma PollKeeps(n0: Network, e0: seq<int>, s: Preflow)
    requires Invariant(n0, e0, s, -1) && |s.queue| > 0
    ensures Invariant(n0, e0, s.(queue := s.queue[1..]), s.queue[0])
  {
    var s1 := s.(queue := s.queue[1..]);
    forall v | v in s.queue && v != s.queue[0] ensures v in s1.queue {
      var i :| 0 <= i < |s.queue| && s.queue[i] == v;
      assert s1.queue[i - 1] == v;
    }
  }

  /**
   * `findMaxFlow`: poll the queue and discharge every polled node other
   * than the source and the sink, until the queue is empty or the fuel is
   * spent. When the queue drains, no node but the source and the sink is
   * left with excess.
   */
  method Drain(s: Preflow, fuel: nat, ghost n0: Network, ghost e0: seq<int>) returns (r: Preflow, done: bool)
    requires Invariant(n0, e0, s, -1)
    ensures Consistent(n0, e0, r)
    ensures done ==> r.queue == [] && Invariant(n0, e0, r, -1)
    decreases fuel
  {
    if |s.queue| == 0 {
      return s, true;
    }
    if fuel == 0 {
      return s, false;
    }
    var u := s.queue[0];
    var s1 := s.(queue := s.queue[1..]);
    PollKeeps(n0, e0, s);
    var fuel1 := fuel - 1;
    if u != Source(s.net) && u != Sink(s.net) {
      s1, fuel1 := Discharge(s1, u, fuel - 1, n0, e0);
      if fuel1 == 0 {
        return s1, false;
      }
    }
    r, done := Drain(s1, fuel1, n0, e0);
  }

  /**
   * The solver from construction to a drained queue: flows move only within
   * capacities and, once drained, every node but the source and the sink
   * sends out exactly as much as it did before, so a conserving flow stays
   * conserving.
   */
  method FindMaxFlow(n: Network, fuel: nat) returns (m: Network, done: bool)
    requires Ready(n) && FlowBounded(n)
    ensures m == n.(flow := m.flow) && FlowBounded(m)
    ensures done ==> forall v :: 0 <= v < |n.adj| && v != Source(n) && v != Sink(n) ==> NetOut(m, v) == NetOut(n, v)
    ensures done && Conserved(n, Source(n), Sink(n)) ==> Conserved(m, Source(n), Sink(n))
  {
    var s := Start(n);
    var r;
    r, done := Drain(s, fuel, n, InitialExcess(n));
    m := r.net;
    if done {
      forall v | 0 <= v < |n.adj| && v != Source(n) && v != Sink(n) ensures NetOut(m, v) == NetOut(n, v) {
        assert r.excess[v] <= 0 by {
          assert v !in r.queue;
        }
      }
    }
  }
}
