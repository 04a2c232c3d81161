/**
 * `AcyclicFlowPathExtractor`: reads the paths of a flow cover off an
 * acyclic network. Each path is one depth-first descent from the root that
 * takes a unit of flow from the first forward view at the cursor that still
 * carries flow and does not enter the sink, follows it, and stops when the
 * view taken enters the root or the node reached has nothing left. The
 * cursors (`adjListPt`) are shared by all descents and never move back, and
 * a cursor stays on the view it has just taken a unit from, so that view is
 * offered again while it still carries flow.
 */
module AcyclicFlowPathExtractor {
  import opened StateNetwork
  import opened Sequences

  /** The node a walk of views from v ends at. */
  function WalkEnd(n: Network, v: int, w: seq<int>): int
    requires forall i :: 0 <= i < |w| ==> 0 <= w[i] < EdgeCount(n)
  {
    if |w| == 0 then v else ViewTo(n, w[|w| - 1])
  }

  /**
   * The shape of what one descent from v takes: a walk from v of forward
   * views that avoid the sink, where only the last view may enter the root.
   */
  ghost predicate Descent(n: Network, v: int, w: seq<int>)
    requires Valid(n) && |n.adj| > 0
  {
    && (forall i :: 0 <= i < |w| ==> 0 <= w[i] < EdgeCount(n) && w[i] % 2 == 0 && ViewTo(n, w[i]) != Sink(n))
    && (|w| > 0 ==> ViewFrom(n, w[0]) == v)
    && (forall i :: 0 <= i < |w| - 1 ==> ViewTo(n, w[i]) == ViewFrom(n, w[i + 1]))
    && (forall i :: 0 <= i < |w| - 1 ==> ViewTo(n, w[i]) != n.root)
  }

  /** The trail a descent records, in walk order: every view taken, up to the first one that enters the root. */
  function TrailOf(n: Network, w: seq<int>): seq<TrailEdge>
    requires forall i :: 0 <= i < |w| ==> 0 <= w[i] < EdgeCount(n)
    decreases |w|
  {
    if |w| == 0 || ViewTo(n, w[0]) == n.root then [] else [TrailEdgeOf(n, w[0])] + TrailOf(n, w[1..])
  }

  /**
   * What one frame of `extractPathAcyclicDfs(v, path)` does, with the cursor
   * of v running from its current position: the views skipped are those
   * that cannot be taken; the first takeable view (at position `at`) loses
   * a unit and, unless it enters the root, is descended through and then
   * recorded after everything recorded below it, so `rec` (what the frame
   * appends to `path`) is the trail of the walk taken, backwards. The walk
   * ends at the root or at a node whose cursor is exhausted.
   */
  ghost predicate FrameResult(n: Network, ptr: seq<int>, v: int,
                              m: Network, ptr': seq<int>, rec: seq<TrailEdge>, w: seq<int>, at: int)
    requires Valid(n) && Cursors(n, ptr) && 0 <= v < |n.adj|
  {
    && Descent(n, v, w) && m == Consume(n, w) && FlowBounded(m)
    && rec == Reverse(TrailOf(n, w))
    && Advanced(n, ptr, ptr')
    && ptr[v] <= at <= |n.adj[v]| && (at < |n.adj[v]| ==> at <= ptr'[v])
    && (forall k :: ptr[v] <= k < at ==> !Takeable(n, n.adj[v][k]))
    && (at < |n.adj[v]| <==> |w| > 0)
    && (|w| > 0 ==> w[0] == n.adj[v][at] && Takeable(n, w[0]))
    && (|w| == 0 ==> m == n && ptr' == ptr[v := |n.adj[v]|])
    && (WalkEnd(n, v, w) != n.root ==> ptr'[WalkEnd(n, v, w)] == |n.adj[WalkEnd(n, v, w)]|)
  }

  /** `extractPathAcyclicDfs(v, path)`: the loop over v's list, each takeable view ending it. */
  method ExtractPathAcyclicDfs(n: Network, ptr: seq<int>, v: int)
    returns (m: Network, ptr': seq<int>, rec: seq<TrailEdge>, ghost w: seq<int>, ghost at: int)
    requires Valid(n) && FlowBounded(n) && Cursors(n, ptr) && 0 <= v < |n.adj|
    ensures FrameResult(n, ptr, v, m, ptr', rec, w, at)
    ensures m == n.(flow := m.flow) && FlowBounded(m) && Advanced(n, ptr, ptr')
    decreases PositiveFlow(n.flow), 1, |n.adj[v]| - ptr[v]
  {
    if ptr[v] == |n.adj[v]| {
      EmptyFrame(n, ptr, v);
      return n, ptr, [], [], ptr[v];
    }
    var j := n.adj[v][ptr[v]];
    AdjView(n, v, ptr[v]);
    if j % 2 != 0 || ViewTo(n, j) == Sink(n) || n.flow[j / 2] <= 0 {
      var ptr1 := ptr[v := ptr[v] + 1];
      m, ptr', rec, w, at := ExtractPathAcyclicDfs(n, ptr1, v);
      SkipFrame(n, ptr, v, ptr1, m, ptr', rec, w, at);
      return;
    }
    m, ptr', rec, w := TakeView(n, ptr, v);
    at := ptr[v];
  }

  /**
   * The takeable view under v's cursor ends the loop: it loses a unit and,
   * unless it enters the root, the descent goes on from its target, whose
   * record is appended after everything recorded below it.
   */
  method TakeView(n: Network, ptr: seq<int>, v: int)
    returns (m: Network, ptr': seq<int>, rec: seq<TrailEdge>, ghost w: seq<int>)
    requires Valid(n) && FlowBounded(n) && Cursors(n, ptr) && 0 <= v < |n.adj| && ptr[v] < |n.adj[v]|
    requires 0 <= n.adj[v][ptr[v]] < EdgeCount(n) && Takeable(n, n.adj[v][ptr[v]])
    ensures FrameResult(n, ptr, v, m, ptr', rec, w, ptr[v])
    ensures m == n.(flow := m.flow) && FlowBounded(m) && Advanced(n, ptr, ptr') && ptr[v] <= ptr'[v]
    decreases PositiveFlow(n.flow), 0, 0
  {
    var j := n.adj[v][ptr[v]];
    AdjView(n, v, ptr[v]);
    var to := ViewTo(n, j);
    var m1 := IncFlow(n, j, -1);
    PositiveFlowDrop(n.flow, j / 2);
    CancelFlowBounded(n, j, 1);
    if to == n.root {
      m, ptr', rec, w := m1, ptr, [], [j];
      RootFrame(n, ptr, v, m, w);
      return;
    }
    var rec1; ghost var w1, at1;
    m, ptr', rec1, w1, at1 := ExtractPathAcyclicDfs(m1, ptr, to);
    rec := rec1 + [TrailEdgeOf(n, j)];
    w := [j] + w1;
    DescendFrame(n, ptr, v, m1, m, ptr', rec1, w1, at1, rec, w);
  }

  /** An exhausted cursor: nothing is taken. */
  lemma EmptyFrame(n: Network, ptr: seq<int>, v: int)
    requires Valid(n) && FlowBounded(n) && Cursors(n, ptr) && 0 <= v < |n.adj| && ptr[v] == |n.adj[v]|
    ensures FrameResult(n, ptr, v, n, ptr, [], [], ptr[v])
  {
    assert ptr[v := |n.adj[v]|] == ptr;
  }

  /** A view that cannot be taken is stepped over. */
  lemma SkipFrame(n: Network, ptr: seq<int>, v: int, ptr1: seq<int>,
                  m: Network, ptr': seq<int>, rec: seq<TrailEdge>, w: seq<int>, at: int)
    requires Valid(n) && Cursors(n, ptr) && 0 <= v < |n.adj| && ptr[v] < |n.adj[v]|
    requires 0 <= n.adj[v][ptr[v]] < EdgeCount(n) && !Takeable(n, n.adj[v][ptr[v]])
    requires ptr1 == ptr[v := ptr[v] + 1] && Cursors(n, ptr1)
    requires FrameResult(n, ptr1, v, m, ptr', rec, w, at)
    ensures FrameResult(n, ptr, v, m, ptr', rec, w, at)
  {
    assert Advanced(n, ptr, ptr1);
    AdvancedTrans(n, ptr, ptr1, ptr');
    if |w| == 0 {
      assert ptr1[v := |n.adj[v]|] == ptr[v := |n.adj[v]|];
    }
  }

  /** The first takeable view enters the root: one unit is taken and nothing is recorded. */
  lemma RootFrame(n: Network, ptr: seq<int>, v: int, m: Network, w: seq<int>)
    requires Valid(n) && FlowBounded(n) && Cursors(n, ptr) && 0 <= v < |n.adj| && ptr[v] < |n.adj[v]|
    requires 0 <= n.adj[v][ptr[v]] < EdgeCount(n) && Takeable(n, n.adj[v][ptr[v]])
    requires ViewFrom(n, n.adj[v][ptr[v]]) == v && ViewTo(n, n.adj[v][ptr[v]]) == n.root
    requires m == IncFlow(n, n.adj[v][ptr[v]], -1) && w == [n.adj[v][ptr[v]]]
    ensures FrameResult(n, ptr, v, m, ptr, [], w, ptr[v])
  {
    var j := n.adj[v][ptr[v]];
    CancelFlowBounded(n, j, 1);
    ConsumeOne(n, j);
  }

  /** The first takeable view leads on: the child's walk and trail are extended at the front. */
  lemma DescendFrame(n: Network, ptr: seq<int>, v: int, m1: Network,
                     m: Network, ptr': seq<int>, rec1: seq<TrailEdge>, w1: seq<int>, at1: int, rec: seq<TrailEdge>, w: seq<int>)
    requires Valid(n) && FlowBounded(n) && Cursors(n, ptr) && 0 <= v < |n.adj| && ptr[v] < |n.adj[v]|
    requires 0 <= n.adj[v][ptr[v]] < EdgeCount(n) && Takeable(n, n.adj[v][ptr[v]])
    requires ViewFrom(n, n.adj[v][ptr[v]]) == v && 0 <= ViewTo(n, n.adj[v][ptr[v]]) < |n.adj|
    requires ViewTo(n, n.adj[v][ptr[v]]) != n.root
    requires m1 == IncFlow(n, n.adj[v][ptr[v]], -1) && Valid(m1) && Cursors(m1, ptr)
    requires FrameResult(m1, ptr, ViewTo(n, n.adj[v][ptr[v]]), m, ptr', rec1, w1, at1)
    requires rec == rec1 + [TrailEdgeOf(n, n.adj[v][ptr[v]])] && w == [n.adj[v][ptr[v]]] + w1
    ensures FrameResult(n, ptr, v, m, ptr', rec, w, ptr[v])
  {
    var j := n.adj[v][ptr[v]];
    DescentStep(n, m1, v, j, w1);
    assert w[1..] == w1;
    assert TrailOf(n, w) == [TrailEdgeOf(n, j)] + TrailOf(n, w1);
    assert rec == Reverse(TrailOf(n, w)) by {
      ReverseCons(TrailEdgeOf(n, j), TrailOf(n, w1));
    }
    assert m == Consume(n, w);
    assert ptr'[v] >= ptr[v];
  }

  /** Prepending the view a frame took to the walk its child took. */
  lemma DescentStep(n: Network, m1: Network, v: int, j: int, w1: seq<int>)
    requires Valid(n) && |n.adj| > 0 && m1 == n.(flow := m1.flow) && |m1.flow| == |n.flow|
    requires 0 <= j < EdgeCount(n) && j % 2 == 0 && ViewFrom(n, j) == v
    requires ViewTo(n, j) != Sink(n) && ViewTo(n, j) != n.root
    requires Descent(m1, ViewTo(n, j), w1)
    ensures Descent(n, v, [j] + w1)
    ensures WalkEnd(n, v, [j] + w1) == WalkEnd(m1, ViewTo(n, j), w1)
    ensures TrailOf(m1, w1) == TrailOf(n, w1)
  {
    var w := [j] + w1;
    assert forall i :: 0 < i < |w| ==> w[i] == w1[i - 1];
    TrailOfFrame(n, m1, w1);
  }

  /** The trail depends on the records only, not on the flows. */
  lemma {:induction false} TrailOfFrame(n: Network, m: Network, w: seq<int>)
    requires m.edges == n.edges && m.root == n.root && EdgeCount(m) == EdgeCount(n)
    requires forall i :: 0 <= i < |w| ==> 0 <= w[i] < EdgeCount(n)
    ensures TrailOf(m, w) == TrailOf(n, w)
    decreases |w|
  {
    if |w| > 0 {
      TrailOfFrame(n, m, w[1..]);
    }
  }

  /**
   * The trail of a descent is a chain of transitions from the state of v:
   * each starts where the previous one ends, and each names the record of
   * the view it was read from.
   */
  lemma {:induction false} TrailChains(n: Network, v: int, w: seq<int>)
    requires Valid(n) && |n.adj| > 0 && Descent(n, v, w)
    ensures |TrailOf(n, w)| <= |w|
    ensures |TrailOf(n, w)| > 0 ==> TrailOf(n, w)[0].from == v - 1
    ensures forall i :: 0 <= i < |TrailOf(n, w)| ==> TrailOf(n, w)[i] == TrailEdgeOf(n, w[i])
    ensures forall i :: 0 <= i < |TrailOf(n, w)| - 1 ==> TrailOf(n, w)[i].to == TrailOf(n, w)[i + 1].from
    decreases |w|
  {
    if |w| > 0 && ViewTo(n, w[0]) != n.root {
      var w1 := w[1..];
      assert forall i :: 0 <= i < |w1| ==> w1[i] == w[i + 1];
      TrailChains(n, ViewTo(n, w[0]), w1);
    }
  }

  /** The extractor's state: the network it consumes, how many paths to read, the cursors and `i`. */
  datatype Extractor = Extractor(net: Network, pathCount: int, ptr: seq<int>, i: int)

  /** The constructor: all cursors at the start of their lists, no path read yet. */
  function New(n: Network, pathCount: int): (x: Extractor)
    requires Valid(n)
    ensures x.net == n && x.pathCount == pathCount && x.i == 0
    ensures Cursors(n, x.ptr) && forall u :: 0 <= u < |x.ptr| ==> x.ptr[u] == 0
  {
    Extractor(n, pathCount, seq(|n.adj|, _ => 0), 0)
  }

  /** `hasNext()`: fewer than `pathCount` paths have been read. */
  function HasNext(x: Extractor): bool {
    x.i < x.pathCount
  }

  /**
   * `next()`: counts the path and runs one descent from the root; the path
   * is what the descent recorded, turned back into walk order, so it is the
   * trail of the walk taken, starting at the root's state.
   */
  method Next(x: Extractor) returns (path: seq<TrailEdge>, x': Extractor, ghost w: seq<int>)
    requires Ready(x.net) && FlowBounded(x.net) && Cursors(x.net, x.ptr)
    ensures x'.i == x.i + 1 && x'.pathCount == x.pathCount
    ensures Descent(x.net, x.net.root, w) && x'.net == Consume(x.net, w) && FlowBounded(x'.net)
    ensures path == TrailOf(x.net, w)
    ensures |path| > 0 ==> path[0].from == x.net.root - 1
    ensures forall k :: 0 <= k < |path| - 1 ==> path[k].to == path[k + 1].from
    ensures Advanced(x.net, x.ptr, x'.ptr)
  {
    var m, ptr', rec; ghost var at;
    m, ptr', rec, w, at := ExtractPathAcyclicDfs(x.net, x.ptr, x.net.root);
    path := Reverse(rec);
    assert path == TrailOf(x.net, w);
    TrailChains(x.net, x.net.root, w);
    x' := Extractor(m, x.pathCount, ptr', x.i + 1);
  }

  /** A trail from the root's state: it starts there and each edge ends where the next one starts. */
  predicate Chained(root: int, path: seq<TrailEdge>) {
    && (|path| > 0 ==> path[0].from == root - 1)
    && forall k :: 0 <= k < |path| - 1 ==> path[k].to == path[k + 1].from
  }

  /**
   * The iterator run to the end: `next()` while `hasNext()`. It reads
   * exactly the paths still owed, `pathCount` in all from a new extractor,
   * each a chained trail from the root's state, and only flows change.
   */
  method ExtractAll(x: Extractor) returns (paths: seq<seq<TrailEdge>>, x': Extractor)
    requires Ready(x.net) && FlowBounded(x.net) && Cursors(x.net, x.ptr)
    ensures |paths| == if x.i < x.pathCount then x.pathCount - x.i else 0
    ensures !HasNext(x') && x'.pathCount == x.pathCount
    ensures x'.net == x.net.(flow := x'.net.flow) && FlowBounded(x'.net)
    ensures forall j :: 0 <= j < |paths| ==> Chained(x.net.root, paths[j])
    decreases x.pathCount - x.i
  {
    if !HasNext(x) {
      return [], x;
    }
    var path, x1, w := Next(x);
    var rest;
    rest, x' := ExtractAll(x1);
    paths := [path] + rest;
  }
}
