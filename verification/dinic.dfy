/**
 * `DinicMaxFlowSolver`: repeated breadth-first labelling from the source
 * over edges with residual capacity, then depth-first augmentation along
 * level-increasing edges with per-node cursors, until the sink is no longer
 * labelled.
 */
module DinicMaxFlowSolver {
  import opened StateNetwork

  /** What the solver needs: a ready network whose flows respect capacities, indexed by Java ints. */
  ghost predicate Solvable(n: Network) {
    && Ready(n) && FlowBounded(n) && NodeCount(n) < INF
    && Source(n) != Sink(n)
  }

  /** A residual path from s to v of exactly d edges. */
  ghost predicate ReachableIn(n: Network, s: int, v: int, d: int)
    requires Valid(n)
  {
    exists p :: |p| == d && IsResidualPath(n, s, p, v)
  }

  /** Every enqueued entry is a node whose label is at most its queue position. */
  ghost predicate QueueLabels(dist: seq<int>, queue: seq<int>) {
    forall i :: 0 <= i < |queue| ==> 0 <= queue[i] < |dist| && 0 <= dist[queue[i]] <= i
  }

  /** The labelled nodes are exactly the enqueued ones. */
  ghost predicate LabelledQueued(dist: seq<int>, queue: seq<int>) {
    forall v :: 0 <= v < |dist| ==> (dist[v] != INF <==> v in queue)
  }

  /** Every label is the length of a residual path from src. */
  ghost predicate LabelsReachable(n: Network, src: int, dist: seq<int>)
    requires Valid(n)
  {
    forall v :: 0 <= v < |dist| && dist[v] != INF ==> ReachableIn(n, src, v, dist[v])
  }

  /**
   * The labelling invariant of `dinicBfs`: labelled nodes are exactly the
   * enqueued ones, each is reachable by a residual path as long as its
   * label, a node's label is at most its queue position, and the queue
   * never outgrows the node count (the capacity of the `queue` array).
   */
  ghost predicate Labelling(n: Network, src: int, dist: seq<int>, queue: seq<int>)
    requires Valid(n)
  {
    && |dist| == |n.adj| < INF && 0 <= src < |n.adj| && dist[src] == 0
    && Unlabelled(dist) + |queue| == |n.adj|
    && QueueLabels(dist, queue)
    && LabelledQueued(dist, queue)
    && LabelsReachable(n, src, dist)
  }

  /** Every residual view leaving v ends at a labelled node. */
  ghost predicate NodeScanned(n: Network, dist: seq<int>, v: int)
    requires Valid(n) && |dist| == |n.adj|
  {
    forall j :: 0 <= v < |n.adj| && 0 <= j < |n.adj[v]| && Residual(n, n.adj[v][j]) > 0 ==>
      dist[ViewTo(n, n.adj[v][j])] != INF
  }

  /** The first h enqueued nodes have been scanned. */
  ghost predicate Scanned(n: Network, dist: seq<int>, queue: seq<int>, h: int)
    requires Valid(n) && |dist| == |n.adj|
  {
    forall i :: 0 <= i < h && i < |queue| ==> NodeScanned(n, dist, queue[i])
  }

  /** Labels, once given, never change. */
  ghost predicate Extends(dist: seq<int>, dist': seq<int>, queue: seq<int>, queue': seq<int>) {
    && |dist'| == |dist| && |queue| <= |queue'| && queue'[..|queue|] == queue
    && forall v :: 0 <= v < |dist| && dist[v] != INF ==> dist'[v] == dist[v]
  }

  /** Scanned nodes stay scanned as the labels and the queue grow. */
  lemma ScannedExtends(n: Network, dist: seq<int>, dist': seq<int>, queue: seq<int>, queue': seq<int>, h: int)
    requires Valid(n) && |dist| == |n.adj| && Scanned(n, dist, queue, h)
    requires Extends(dist, dist', queue, queue') && h <= |queue|
    ensures Scanned(n, dist', queue', h)
  {
    forall i | 0 <= i < h && i < |queue'| ensures NodeScanned(n, dist', queue'[i]) {
      assert queue'[i] == queue[i];
    }
  }

  /** One more residual view extends a witness path by one. */
  lemma ExtendReach(n: Network, s: int, v: int, d: int, e: int)
    requires Valid(n) && ReachableIn(n, s, v, d)
    requires 0 <= e < EdgeCount(n) && ViewFrom(n, e) == v && Residual(n, e) > 0
    ensures ReachableIn(n, s, ViewTo(n, e), d + 1)
  {
    var p :| |p| == d && IsResidualPath(n, s, p, v);
    var q := p + [e];
    assert q[|q| - 1] == e;
    assert forall i :: 0 <= i < |p| ==> q[i] == p[i];
    assert IsResidualPath(n, s, q, ViewTo(n, e));
  }

  /** The first j views of v lead to labelled nodes when they have residual capacity. */
  ghost predicate ScannedUpTo(n: Network, dist: seq<int>, v: int, j: int)
    requires Valid(n) && |dist| == |n.adj|
  {
    forall k :: 0 <= v < |n.adj| && 0 <= k < j && k < |n.adj[v]| && Residual(n, n.adj[v][k]) > 0 ==>
      dist[ViewTo(n, n.adj[v][k])] != INF
  }

  /** A partly scanned node stays so as the labels and the queue grow. */
  lemma ScannedUpToExtends(n: Network, dist: seq<int>, dist': seq<int>, queue: seq<int>, queue': seq<int>, v: int, j: int)
    requires Valid(n) && |dist| == |n.adj| && ScannedUpTo(n, dist, v, j)
    requires Extends(dist, dist', queue, queue')
    ensures ScannedUpTo(n, dist', v, j)
  {
  }

  /** Two extensions in a row are one. */
  lemma ExtendsTrans(d1: seq<int>, d2: seq<int>, d3: seq<int>, q1: seq<int>, q2: seq<int>, q3: seq<int>)
    requires Extends(d1, d2, q1, q2) && Extends(d2, d3, q2, q3)
    ensures Extends(d1, d3, q1, q3)
  {
    assert q3[..|q1|] == q3[..|q2|][..|q1|];
  }

  /** Queuing a newly labelled node one level below the head keeps the queue's labels in order. */
  lemma QueueLabelsStep(dist: seq<int>, queue: seq<int>, h: int, to: int)
    requires QueueLabels(dist, queue) && 0 <= h < |queue| && 0 <= to < |dist| && to !in queue
    ensures QueueLabels(dist[to := dist[queue[h]] + 1], queue + [to])
  {
    var d, q := dist[to := dist[queue[h]] + 1], queue + [to];
    forall i | 0 <= i < |q| ensures 0 <= q[i] < |d| && 0 <= d[q[i]] <= i {
      if i < |queue| {
        assert q[i] == queue[i] && queue[i] in queue;
      }
    }
  }

  /** Labelling a node and queuing it keeps every labelled node queued. */
  lemma LabelledQueuedStep(dist: seq<int>, queue: seq<int>, to: int, x: int)
    requires LabelledQueued(dist, queue) && 0 <= to < |dist| && x != INF
    ensures LabelledQueued(dist[to := x], queue + [to])
  {
    forall v | 0 <= v < |dist| ensures dist[to := x][v] != INF <==> v in queue + [to] {
      assert v in queue + [to] <==> v in queue || v == to;
    }
  }

  /** A residual view out of a labelled node reaches its target in one more step. */
  lemma LabelsReachableStep(n: Network, src: int, dist: seq<int>, v: int, e: int)
    requires Valid(n) && LabelsReachable(n, src, dist) && 0 <= v < |dist| && dist[v] != INF
    requires 0 <= e < EdgeCount(n) && ViewFrom(n, e) == v && Residual(n, e) > 0
    requires 0 <= ViewTo(n, e) < |dist|
    ensures LabelsReachable(n, src, dist[ViewTo(n, e) := dist[v] + 1])
  {
    ExtendReach(n, src, v, dist[v], e);
  }

  /** Labelling the unlabelled target of a residual view out of an enqueued node keeps the invariant. */
  lemma LabelKeeps(n: Network, src: int, dist: seq<int>, queue: seq<int>, h: int, e: int, dist': seq<int>, queue': seq<int>)
    requires Valid(n) && Labelling(n, src, dist, queue) && 0 <= h < |queue|
    requires 0 <= e < EdgeCount(n) && ViewFrom(n, e) == queue[h] && Residual(n, e) > 0
    requires 0 <= ViewTo(n, e) < |dist| && dist[ViewTo(n, e)] == INF
    requires dist' == dist[ViewTo(n, e) := dist[queue[h]] + 1] && queue' == queue + [ViewTo(n, e)]
    ensures Labelling(n, src, dist', queue') && Extends(dist, dist', queue, queue')
    ensures dist'[ViewTo(n, e)] != INF
  {
    var cur, to := queue[h], ViewTo(n, e);
    assert dist[cur] <= h < |n.adj|;
    LabelExtends(dist, queue, to, dist[cur] + 1, dist', queue');
    LabelInvariant(n, src, dist, queue, h, e, dist', queue');
  }

  /** Labelling the unlabelled target of a residual view out of the node being scanned keeps the BFS invariant. */
  lemma LabelInvariant(n: Network, src: int, dist: seq<int>, queue: seq<int>, h: int, e: int, dist': seq<int>, queue': seq<int>)
    requires Valid(n) && Labelling(n, src, dist, queue) && 0 <= h < |queue|
    requires 0 <= e < EdgeCount(n) && ViewFrom(n, e) == queue[h] && Residual(n, e) > 0
    requires 0 <= ViewTo(n, e) < |dist| && dist[ViewTo(n, e)] == INF
    requires dist' == dist[ViewTo(n, e) := dist[queue[h]] + 1] && queue' == queue + [ViewTo(n, e)]
    ensures Labelling(n, src, dist', queue')
  {
    var cur, to := queue[h], ViewTo(n, e);
    assert dist[cur] <= h < |n.adj|;
    assert Unlabelled(dist') + |queue'| == |n.adj| by {
      LabelOne(dist, to, dist[cur] + 1);
    }
    assert QueueLabels(dist', queue') by {
      QueueLabelsStep(dist, queue, h, to);
    }
    assert LabelledQueued(dist', queue') by {
      LabelledQueuedStep(dist, queue, to, dist[cur] + 1);
    }
    assert LabelsReachable(n, src, dist') by {
      LabelsReachableStep(n, src, dist, cur, e);
    }
  }

  /** Labelling an unlabelled node and enqueueing it keeps every earlier label and queue entry. */
  lemma LabelExtends(dist: seq<int>, queue: seq<int>, to: int, x: int, dist': seq<int>, queue': seq<int>)
    requires 0 <= to < |dist| && dist[to] == INF
    requires dist' == dist[to := x] && queue' == queue + [to]
    ensures Extends(dist, dist', queue, queue') && dist'[to] == x
  {
    assert queue'[..|queue|] == queue;
  }

  /** Every state extends itself. */
  lemma ExtendsRefl(dist: seq<int>, queue: seq<int>)
    ensures Extends(dist, dist, queue, queue)
  {
    assert queue[..|queue|] == queue;
  }

  /** One iteration of the inner loop of `dinicBfs`: the j-th view of the node at queue position h. */
  method LabelTarget(n: Network, src: int, h: int, j: int, dist: seq<int>, queue: seq<int>)
    returns (dist': seq<int>, queue': seq<int>)
    requires Valid(n) && Labelling(n, src, dist, queue)
    requires 0 <= h < |queue| && 0 <= j < |n.adj[queue[h]]|
    ensures Labelling(n, src, dist', queue') && Extends(dist, dist', queue, queue')
    ensures Residual(n, n.adj[queue[h]][j]) > 0 ==> dist'[ViewTo(n, n.adj[queue[h]][j])] != INF
  {
    var cur := queue[h];
    var e := n.adj[cur][j];
    AdjView(n, cur, j);
    var to := ViewTo(n, e);
    if dist[to] == INF && Residual(n, e) > 0 {
      dist', queue' := dist[to := dist[cur] + 1], queue + [to];
      LabelKeeps(n, src, dist, queue, h, e, dist', queue');
    } else {
      dist', queue' := dist, queue;
      ExtendsRefl(dist, queue);
    }
  }

  /** Looking at view j of v scans v up to j + 1. */
  lemma ScannedUpToStep(n: Network, dist: seq<int>, d: seq<int>, queue: seq<int>, q: seq<int>, v: int, j: int)
    requires Valid(n) && |dist| == |n.adj| && 0 <= v < |n.adj| && 0 <= j < |n.adj[v]|
    requires ScannedUpTo(n, dist, v, j) && Extends(dist, d, queue, q)
    requires Residual(n, n.adj[v][j]) > 0 ==> d[ViewTo(n, n.adj[v][j])] != INF
    ensures ScannedUpTo(n, d, v, j + 1)
  {
  }

  /** The inner loop of `dinicBfs` over the views of the node at queue position h, from view j on. */
  method ScanViews(n: Network, src: int, h: int, j: int, dist: seq<int>, queue: seq<int>)
    returns (dist': seq<int>, queue': seq<int>)
    requires Valid(n) && Labelling(n, src, dist, queue)
    requires 0 <= h < |queue| && 0 <= j <= |n.adj[queue[h]]|
    requires ScannedUpTo(n, dist, queue[h], j)
    ensures Labelling(n, src, dist', queue') && Extends(dist, dist', queue, queue')
    ensures NodeScanned(n, dist', queue[h])
    decreases |n.adj[queue[h]]| - j
  {
    var cur := queue[h];
    if j == |n.adj[cur]| {
      dist', queue' := dist, queue;
      assert queue'[..|queue|] == queue;
      return;
    }
    var d, q := LabelTarget(n, src, h, j, dist, queue);
    ScannedUpToStep(n, dist, d, queue, q, cur, j);
    assert q[h] == cur by {
      assert q[..|queue|] == queue;
    }
    dist', queue' := ScanViews(n, src, h, j + 1, d, q);
    ExtendsTrans(dist, d, dist', queue, q, queue');
  }

  /** With the head node fully scanned, one more queue entry is scanned. */
  lemma ScannedStep(n: Network, dist: seq<int>, d: seq<int>, queue: seq<int>, q: seq<int>, h: int)
    requires Valid(n) && |dist| == |n.adj| && Scanned(n, dist, queue, h)
    requires Extends(dist, d, queue, q) && 0 <= h < |queue| && NodeScanned(n, d, queue[h])
    ensures Scanned(n, d, q, h + 1) && h < |q|
  {
    ScannedExtends(n, dist, d, queue, q, h);
    assert q[h] == queue[h] by {
      assert q[..|queue|] == queue;
    }
  }

  /** The outer loop of `dinicBfs`, from queue position h: stops once the sink is labelled or the queue is drained. */
  method BfsLoop(n: Network, src: int, snk: int, h: int, dist: seq<int>, queue: seq<int>)
    returns (dist': seq<int>, queue': seq<int>)
    requires Valid(n) && Labelling(n, src, dist, queue) && 0 <= snk < |n.adj|
    requires 0 <= h <= |queue| && Scanned(n, dist, queue, h)
    ensures Labelling(n, src, dist', queue') && Extends(dist, dist', queue, queue')
    ensures dist'[snk] == INF ==> Scanned(n, dist', queue', |queue'|)
    decreases |n.adj| - h
  {
    if h == |queue| || dist[snk] != INF {
      dist', queue' := dist, queue;
      assert queue'[..|queue|] == queue;
      return;
    }
    var d, q := ScanViews(n, src, h, 0, dist, queue);
    ScannedStep(n, dist, d, queue, q, h);
    dist', queue' := BfsLoop(n, src, snk, h + 1, d, q);
    ExtendsTrans(dist, d, dist', queue, q, queue');
  }

  /** Labels are INF or below the node count. */
  lemma LabelRange(n: Network, src: int, dist: seq<int>, queue: seq<int>)
    requires Valid(n) && Labelling(n, src, dist, queue)
    ensures forall v :: 0 <= v < |dist| ==> dist[v] == INF || 0 <= dist[v] < |dist|
  {
    forall v | 0 <= v < |dist| && dist[v] != INF ensures 0 <= dist[v] < |dist| {
      var i :| 0 <= i < |queue| && queue[i] == v;
    }
  }

  /** The starting labelling: only the source, at distance 0. */
  lemma StartLabelling(n: Network, src: int)
    requires Valid(n) && 0 <= src < |n.adj| < INF
    ensures Labelling(n, src, seq(|n.adj|, _ => INF)[src := 0], [src])
  {
    var dist := seq(|n.adj|, _ => INF)[src := 0];
    AllUnlabelled(|n.adj|);
    LabelOne(seq(|n.adj|, _ => INF), src, 0);
    assert IsResidualPath(n, src, [], src);
    forall v | 0 <= v < |dist| ensures dist[v] != INF <==> v in [src] {
    }
  }

  /** A drained queue leaves a closed set of labelled nodes, which no residual path escapes. */
  lemma DrainedCut(n: Network, src: int, snk: int, dist: seq<int>, queue: seq<int>)
    requires Valid(n) && Labelling(n, src, dist, queue) && 0 <= snk < |n.adj|
    requires Scanned(n, dist, queue, |queue|) && dist[snk] == INF
    ensures forall p :: !IsResidualPath(n, src, p, snk)
  {
    var cut := set v | 0 <= v < |n.adj| && dist[v] != INF;
    forall v, j | v in cut && 0 <= v < |n.adj| && 0 <= j < |n.adj[v]| && Residual(n, n.adj[v][j]) > 0
      ensures ViewTo(n, n.adj[v][j]) in cut
    {
      var i :| 0 <= i < |queue| && queue[i] == v;
      assert NodeScanned(n, dist, queue[i]);
      AdjView(n, v, j);
    }
    forall p | IsResidualPath(n, src, p, snk) ensures false {
      ClosedSetTraps(n, cut, src, p, snk);
    }
  }

  /**
   * `dinicBfs`: labels every node with its residual distance from the
   * source, stopping early once the sink is labelled, and reports whether
   * it was. Labels are lengths of actual residual paths; an unlabelled sink
   * means no residual path reaches it.
   */
  method DinicBfs(n: Network) returns (reached: bool, dist: seq<int>)
    requires Ready(n) && NodeCount(n) < INF
    ensures |dist| == NodeCount(n) && dist[Source(n)] == 0
    ensures forall v :: 0 <= v < |dist| ==> dist[v] == INF || 0 <= dist[v] < |dist|
    ensures forall v :: 0 <= v < |dist| && dist[v] != INF ==> ReachableIn(n, Source(n), v, dist[v])
    ensures reached <==> dist[Sink(n)] != INF
    ensures !reached ==> forall p :: !IsResidualPath(n, Source(n), p, Sink(n))
  {
    var src, snk := Source(n), Sink(n);
    StartLabelling(n, src);
    var queue;
    dist, queue := BfsLoop(n, src, snk, 0, seq(|n.adj|, _ => INF)[src := 0], [src]);
    LabelRange(n, src, dist, queue);
    reached := dist[snk] < INF;
    if !reached {
      DrainedCut(n, src, snk, dist, queue);
    }
  }

  // ---------------------------------------------------------------------------
  // Augmentation: `dinicDfs`

  /** Labels as `dinicBfs` leaves them: one per node, INF or below the node count. */
  ghost predicate Levels(n: Network, dist: seq<int>) {
    && |dist| == |n.adj| < INF
    && forall u :: 0 <= u < |dist| ==> dist[u] == INF || 0 <= dist[u] < |dist|
  }

  /**
   * Cursors only move forward, and a search from level `lvl` leaves the
   * cursors of lower and unlabelled nodes where they were.
   */
  ghost predicate Advanced(dist: seq<int>, lvl: int, ptr: seq<int>, ptr': seq<int>) {
    && |ptr'| == |ptr|
    && (forall u :: 0 <= u < |ptr| ==> ptr[u] <= ptr'[u])
    && (forall u :: 0 <= u < |ptr| && u < |dist| && (dist[u] == INF || dist[u] < lvl) ==> ptr'[u] == ptr[u])
  }

  /** A residual path from v to t along which every view climbs one level. */
  ghost predicate LevelPath(n: Network, dist: seq<int>, v: int, p: seq<int>, t: int)
    requires Valid(n)
  {
    && IsResidualPath(n, v, p, t)
    && 0 <= v < |dist|
    && forall i :: 0 <= i < |p| ==> 0 <= ViewTo(n, p[i]) < |dist| && dist[ViewTo(n, p[i])] == dist[v] + i + 1
  }

  /**
   * What one call of `dinicDfs(v, flow)` achieves: it pushes some df in
   * [0, flow]; nothing changes when df is 0; otherwise df units travel along
   * a level path from v to the sink whose every view had room for them, and
   * flows stay within capacities.
   */
  ghost predicate Pushed(n: Network, dist: seq<int>, v: int, flow: int, df: int, m: Network, p: seq<int>)
    requires Valid(n) && |n.adj| > 0
  {
    && 0 <= df <= flow
    && m == n.(flow := m.flow) && FlowBounded(m)
    && (df == 0 ==> m == n)
    && (df > 0 ==>
          && LevelPath(n, dist, v, p, Sink(n))
          && (forall i :: 0 <= i < |p| ==> Residual(n, p[i]) >= df)
          && m == ApplyPath(n, p, df))
  }

  /** A level path out of the target of a level-climbing view e never uses e's record. */
  lemma LevelPathAvoids(n: Network, dist: seq<int>, e: int, p: seq<int>, t: int)
    requires Valid(n) && 0 <= e < EdgeCount(n)
    requires 0 <= ViewFrom(n, e) < |dist| && 0 <= ViewTo(n, e) < |dist|
    requires dist[ViewTo(n, e)] == dist[ViewFrom(n, e)] + 1
    requires LevelPath(n, dist, ViewTo(n, e), p, t)
    ensures e / 2 !in RecordsOf(p)
  {
    forall i | 0 <= i < |p| ensures p[i] / 2 != e / 2 {
      assert dist[ViewTo(n, p[i])] > dist[ViewTo(n, e)];
    }
  }

  /** A level-climbing residual view followed by a level path from its target is a level path. */
  lemma LevelPathCons(n: Network, dist: seq<int>, v: int, e: int, p1: seq<int>, t: int)
    requires Valid(n) && 0 <= v < |dist|
    requires 0 <= e < EdgeCount(n) && ViewFrom(n, e) == v && 0 <= ViewTo(n, e) < |dist|
    requires dist[ViewTo(n, e)] == dist[v] + 1 && Residual(n, e) > 0
    requires LevelPath(n, dist, ViewTo(n, e), p1, t)
    ensures LevelPath(n, dist, v, [e] + p1, t)
  {
    var p := [e] + p1;
    assert forall i :: 0 < i < |p| ==> p[i] == p1[i - 1];
    if |p1| > 0 {
      assert ViewFrom(n, p1[0]) == ViewTo(n, e);
    }
  }

  /** Prepending the view that reached the path's start extends a successful push by one view. */
  lemma PushExtends(n: Network, dist: seq<int>, v: int, e: int, flow: int, d: int, m1: Network, p1: seq<int>)
    requires Valid(n) && FlowBounded(n) && |n.adj| > 0 && 0 <= v < |dist| == |n.adj|
    requires 0 <= e < EdgeCount(n) && ViewFrom(n, e) == v && 0 <= ViewTo(n, e) < |dist|
    requires dist[ViewTo(n, e)] == dist[v] + 1 && Residual(n, e) > 0 && flow >= 0
    requires var f := if flow < Residual(n, e) then flow else Residual(n, e);
      Pushed(n, dist, ViewTo(n, e), f, d, m1, p1)
    requires d > 0
    ensures Pushed(n, dist, v, flow, d, IncFlow(m1, e, d), [e] + p1)
  {
    var p := [e] + p1;
    LevelPathAvoids(n, dist, e, p1, Sink(n));
    assert Residual(m1, e) == Residual(n, e);
    IncFlowBounded(m1, e, d);
    LevelPathCons(n, dist, v, e, p1, Sink(n));
    assert p[1..] == p1;
    assert forall i :: 0 < i < |p| ==> Residual(n, p[i]) >= d by {
      assert forall i :: 0 < i < |p| ==> p[i] == p1[i - 1];
    }
  }

  /**
   * `dinicDfs(v, flow)`: at the sink the whole offer arrives; elsewhere the
   * cursor loop of v decides.
   */
  method DinicDfs(n: Network, dist: seq<int>, ptr: seq<int>, v: int, flow: int)
    returns (df: int, m: Network, ptr': seq<int>, ghost p: seq<int>)
    requires Valid(n) && FlowBounded(n) && |n.adj| > 0 && Levels(n, dist) && Cursors(n, ptr)
    requires 0 <= v < |n.adj| && dist[v] != INF && flow >= 0
    ensures Pushed(n, dist, v, flow, df, m, p)
    ensures Cursors(n, ptr') && Advanced(dist, dist[v], ptr, ptr')
    ensures v == Sink(n) ==> df == flow
    decreases |n.adj| - dist[v], 1, 0
  {
    if v == Sink(n) {
      return flow, n, ptr, [];
    }
    df, m, ptr', p := DfsFromCursor(n, dist, ptr, v, flow);
  }

  /**
   * The cursor loop of `dinicDfs` at v: the view under the cursor is tried
   * when it climbs one level and has room; a successful push returns without
   * moving the cursor, a failed one moves it on. A node whose cursor runs off
   * its list reports 0.
   */
  method DfsFromCursor(n: Network, dist: seq<int>, ptr: seq<int>, v: int, flow: int)
    returns (df: int, m: Network, ptr': seq<int>, ghost p: seq<int>)
    requires Valid(n) && FlowBounded(n) && |n.adj| > 0 && Levels(n, dist) && Cursors(n, ptr)
    requires 0 <= v < |n.adj| && dist[v] != INF && flow >= 0
    ensures Pushed(n, dist, v, flow, df, m, p)
    ensures Cursors(n, ptr') && Advanced(dist, dist[v], ptr, ptr')
    ensures df == 0 ==> ptr'[v] == |n.adj[v]|
    decreases |n.adj| - dist[v], 0, |n.adj[v]| - ptr[v]
  {
    if ptr[v] == |n.adj[v]| {
      return 0, n, ptr, [];
    }
    var e := n.adj[v][ptr[v]];
    AdjView(n, v, ptr[v]);
    var to := ViewTo(n, e);
    var cap := Residual(n, e);
    var cur := ptr;
    if dist[to] == dist[v] + 1 && cap > 0 {
      var f := if flow < cap then flow else cap;
      var d, m1, ptr1, p1 := DinicDfs(n, dist, ptr, to, f);
      if d > 0 {
        PushExtends(n, dist, v, e, flow, d, m1, p1);
        return d, IncFlow(m1, e, d), ptr1, [e] + p1;
      }
      cur := ptr1;
    }
    var next := cur[v := cur[v] + 1];
    df, m, ptr', p := DfsFromCursor(n, dist, next, v, flow);
  }

  // ---------------------------------------------------------------------------
  // The solver: `findMaxFlow`

  /** A flow-only change that keeps capacities, conservation and never lowers the flow value. */
  ghost predicate Improves(n: Network, m: Network)
    requires Valid(n) && |n.adj| > 0
  {
    && m == n.(flow := m.flow) && |m.flow| == |n.flow| && FlowBounded(m)
    && (Conserved(n, Source(n), Sink(n)) ==> Conserved(m, Source(n), Sink(n)))
    && NetOut(m, Source(n)) >= NetOut(n, Source(n))
  }

  /** Two improvements in a row are one. */
  lemma ImprovesTrans(n: Network, m1: Network, m: Network)
    requires Valid(n) && |n.adj| > 0 && Improves(n, m1) && Improves(m1, m)
    ensures Improves(n, m)
  {
  }

  /** A successful push from the source to the sink is an improvement, by exactly df. */
  lemma PushImproves(n: Network, dist: seq<int>, df: int, m: Network, p: seq<int>)
    requires Valid(n) && FlowBounded(n) && |n.adj| > 0 && Source(n) != Sink(n)
    requires Pushed(n, dist, Source(n), INF, df, m, p) && df > 0
    ensures Improves(n, m) && NetOut(m, Source(n)) == NetOut(n, Source(n)) + df
  {
    var s, t := Source(n), Sink(n);
    ApplyPathNetOut(n, s, p, t, df, s);
    if Conserved(n, s, t) {
      AugmentConserves(n, s, p, t, df);
    }
  }

  /**
   * The inner `while (true)` of `findMaxFlow`: push from the source with an
   * infinite offer until a push returns 0. Each call consumes a unit of fuel.
   */
  method BlockingFlow(n: Network, dist: seq<int>, ptr: seq<int>, fuel: nat) returns (m: Network, fuel': nat)
    requires Valid(n) && FlowBounded(n) && |n.adj| > 0 && Source(n) != Sink(n)
    requires Levels(n, dist) && Cursors(n, ptr) && dist[Source(n)] != INF
    ensures Improves(n, m) && fuel' <= fuel
    decreases fuel
  {
    if fuel == 0 {
      return n, 0;
    }
    var df, m1, ptr1, p := DinicDfs(n, dist, ptr, Source(n), INF);
    if df == 0 {
      return n, fuel - 1;
    }
    PushImproves(n, dist, df, m1, p);
    m, fuel' := BlockingFlow(m1, dist, ptr1, fuel - 1);
    ImprovesTrans(n, m1, m);
  }

  /**
   * `findMaxFlow`: relabel, and while the sink is reachable reset the
   * cursors and push a blocking flow. The loop is bounded by `fuel` calls
   * of the search; `done` says the labelling found the sink unreachable,
   * so no augmenting path is left.
   */
  method FindMaxFlow(n: Network, fuel: nat) returns (m: Network, done: bool)
    requires Ready(n) && FlowBounded(n) && NodeCount(n) < INF && Source(n) != Sink(n)
    ensures Improves(n, m)
    ensures done ==> forall p :: !IsResidualPath(m, Source(m), p, Sink(m))
    decreases fuel
  {
    if fuel == 0 {
      return n, false;
    }
    var reached, dist := DinicBfs(n);
    if !reached {
      return n, true;
    }
    var m1, fuel1 := BlockingFlow(n, dist, seq(|n.adj|, _ => 0), fuel - 1);
    m, done := FindMaxFlow(m1, fuel1);
    ImprovesTrans(n, m1, m);
  }
}
