/**
 * `BFSNetworkPathOptimizer`: repeatedly looks for a residual cycle through
 * the root that starts by undoing flow on an edge into the root and never
 * uses a forward edge into the root; pushing one unit around it removes one
 * root-to-root path from the flow.
 */
module BfsNetworkPathOptimizer {
  import opened StateNetwork

  // ---------------------------------------------------------------------------
  // Flow into the root

  /** The total flow on records ending at v, over a prefix of the records. */
  function FlowIntoOf(edges: seq<EdgeRecord>, flow: seq<int>, v: int): int
    requires |flow| == |edges|
  {
    if |edges| == 0 then 0
    else
      var k := |edges| - 1;
      FlowIntoOf(edges[..k], flow[..k], v) + (if edges[k].to == v then flow[k] else 0)
  }

  /** The flow arriving at v. */
  function FlowInto(n: Network, v: int): int
    requires |n.flow| == |n.edges|
  {
    FlowIntoOf(n.edges, n.flow, v)
  }

  /** Changing one stored flow by x changes the flow into v by x exactly when the record enters v. */
  lemma {:induction false} FlowIntoUpdate(edges: seq<EdgeRecord>, flow: seq<int>, k: int, x: int, v: int)
    requires |flow| == |edges| && 0 <= k < |edges|
    ensures FlowIntoOf(edges, flow[k := flow[k] + x], v) == FlowIntoOf(edges, flow, v) + (if edges[k].to == v then x else 0)
    decreases |edges|
  {
    var last := |edges| - 1;
    var f := flow[k := flow[k] + x];
    if k < last {
      assert f[..last] == flow[..last][k := flow[k] + x];
      FlowIntoUpdate(edges[..last], flow[..last], k, x, v);
    } else {
      assert f[..last] == flow[..last];
    }
  }

  /** With non-negative flows the flow into a node is non-negative. */
  lemma {:induction false} FlowIntoNonNegative(edges: seq<EdgeRecord>, flow: seq<int>, v: int)
    requires |flow| == |edges| && forall k :: 0 <= k < |flow| ==> flow[k] >= 0
    ensures FlowIntoOf(edges, flow, v) >= 0
    decreases |edges|
  {
    if |edges| > 0 {
      FlowIntoNonNegative(edges[..|edges| - 1], flow[..|edges| - 1], v);
    }
  }

  // ---------------------------------------------------------------------------
  // The search

  /** A view the search follows: residual left, and not a forward edge into the root. */
  predicate Followed(n: Network, j: int)
    requires |n.flow| == |n.edges| && 0 <= j < EdgeCount(n)
  {
    Residual(n, j) > 0 && !(j % 2 == 0 && ViewTo(n, j) == n.root)
  }

  /** A view the search starts from: a backward view leaving the root with residual left (flow on an edge into the root). */
  predicate Seed(n: Network, j: int)
    requires |n.flow| == |n.edges| && 0 <= j < EdgeCount(n)
  {
    j % 2 == 1 && ViewFrom(n, j) == n.root && Residual(n, j) > 0
  }

  /** A walk from the root to t that starts at a seed and follows only followed views. */
  ghost predicate SeedWalk(n: Network, p: seq<int>, t: int)
    requires Valid(n)
  {
    && IsWalk(n, n.root, p, t) && |p| > 0
    && Seed(n, p[0])
    && forall i :: 0 <= i < |p| ==> Followed(n, p[i])
  }

  /** A removable cycle: a seed walk from the root back to it. */
  ghost predicate Removable(n: Network, p: seq<int>)
    requires Valid(n)
  {
    SeedWalk(n, p, n.root)
  }

  /** A followed view out of the end of a seed walk extends it. */
  lemma SeedWalkSnoc(n: Network, q: seq<int>, j: int, t: int)
    requires Valid(n) && 0 <= j < EdgeCount(n) && Followed(n, j) && ViewTo(n, j) == t
    requires SeedWalk(n, q, ViewFrom(n, j))
    ensures SeedWalk(n, q + [j], t)
  {
    var p := q + [j];
    assert forall i :: 0 <= i < |q| ==> p[i] == q[i];
  }

  /**
   * The parent view of a labelled node x ends at x and is followed; at
   * distance 0 it is a seed, otherwise it leaves a non-root node one closer.
   */
  ghost predicate ParentOk(n: Network, dist: seq<int>, parent: seq<int>, x: int)
    requires Valid(n) && |dist| == |parent| == |n.adj| && 0 <= x < |n.adj|
  {
    dist[x] != INF ==>
      && 0 <= parent[x] < EdgeCount(n) && ViewTo(n, parent[x]) == x && Followed(n, parent[x])
      && 0 <= dist[x] < INF
      && (dist[x] == 0 ==> Seed(n, parent[x]))
      && (dist[x] != 0 ==>
            && 0 <= ViewFrom(n, parent[x]) < |n.adj| && ViewFrom(n, parent[x]) != n.root
            && dist[ViewFrom(n, parent[x])] == dist[x] - 1)
  }

  /** The search tree: one distance and parent per node, every labelled node with a proper parent. */
  ghost predicate Tree(n: Network, dist: seq<int>, parent: seq<int>)
    requires Valid(n)
  {
    && |dist| == |parent| == |n.adj| && 0 <= n.root < |n.adj|
    && forall x :: 0 <= x < |n.adj| ==> ParentOk(n, dist, parent, x)
  }

  /** The queue holds labelled nodes. */
  ghost predicate QueueOk(dist: seq<int>, queue: seq<int>) {
    forall q :: q in queue ==> 0 <= q < |dist| && dist[q] != INF
  }

  /** Every followed view among the first k listed at x leads to a labelled node. */
  ghost predicate Scanned(n: Network, dist: seq<int>, x: int, k: int)
    requires Valid(n) && |dist| == |n.adj| && 0 <= x < |n.adj|
  {
    forall i :: 0 <= i < k && i < |n.adj[x]| && Followed(n, n.adj[x][i]) ==> dist[AdjTarget(n, x, i)] != INF
  }

  /** Every labelled node except `cur` is still queued or has been scanned. */
  ghost predicate Covered(n: Network, dist: seq<int>, queue: seq<int>, cur: int)
    requires Valid(n) && |dist| == |n.adj|
  {
    forall x :: 0 <= x < |n.adj| && dist[x] != INF && x != cur && x !in queue ==> Scanned(n, dist, x, |n.adj[x]|)
  }

  /** Labels, once set, stay. */
  ghost predicate Keeps(dist: seq<int>, dist': seq<int>) {
    && |dist'| == |dist|
    && forall x :: 0 <= x < |dist| && dist[x] != INF ==> dist'[x] == dist[x]
  }

  /** Labels that only grow keep a scanned node scanned. */
  lemma ScannedKeeps(n: Network, dist: seq<int>, dist': seq<int>, x: int, k: int)
    requires Valid(n) && |dist| == |n.adj| && 0 <= x < |n.adj|
    requires Keeps(dist, dist') && Scanned(n, dist, x, k)
    ensures Scanned(n, dist', x, k)
  {
  }

  /**
   * The seeding loop over the root's views from position i: every backward
   * view with residual left labels its target at distance 0 with that view
   * as parent, and queues it.
   */
  method SeedViews(n: Network, i: int, dist: seq<int>, parent: seq<int>, queue: seq<int>)
    returns (dist': seq<int>, parent': seq<int>, queue': seq<int>)
    requires Ready(n) && Tree(n, dist, parent) && QueueOk(dist, queue) && 0 <= i <= |n.adj[n.root]|
    requires forall x :: 0 <= x < |n.adj| && dist[x] != INF ==> dist[x] == 0 && x in queue
    ensures Tree(n, dist', parent') && QueueOk(dist', queue') && Keeps(dist, dist')
    ensures forall x :: 0 <= x < |n.adj| && dist'[x] != INF ==> dist'[x] == 0 && x in queue'
    ensures forall k :: i <= k < |n.adj[n.root]| && Seed(n, n.adj[n.root][k]) ==> dist'[AdjTarget(n, n.root, k)] == 0
    decreases |n.adj[n.root]| - i
  {
    if i == |n.adj[n.root]| {
      return dist, parent, queue;
    }
    var j := n.adj[n.root][i];
    AdjView(n, n.root, i);
    var to := AdjTarget(n, n.root, i);
    var d1, p1, q1 := dist, parent, queue;
    if j % 2 == 1 && Residual(n, j) > 0 {
      d1, p1, q1 := dist[to := 0], parent[to := j], queue + [to];
      assert Seed(n, j) && Followed(n, j);
      forall x | 0 <= x < |n.adj|
        ensures ParentOk(n, d1, p1, x)
      {
        if x != to {
          assert ParentOk(n, dist, parent, x);
        }
      }
    }
    dist', parent', queue' := SeedViews(n, i + 1, d1, p1, q1);
  }

  /** Labels stay below the number of labelled nodes, so a label plus one never reaches INF. */
  ghost predicate Short(n: Network, dist: seq<int>) {
    && |dist| == |n.adj| < INF
    && forall x :: 0 <= x < |dist| && dist[x] != INF ==> dist[x] < |dist| - Unlabelled(dist)
  }

  /**
   * The loop over cur's views from position i: a followed view into an
   * unlabelled node labels it one further than cur, with the view as
   * parent, and queues it.
   */
  method ScanFrom(n: Network, dist: seq<int>, parent: seq<int>, queue: seq<int>, cur: int, i: int)
    returns (dist': seq<int>, parent': seq<int>, queue': seq<int>)
    requires Ready(n) && Tree(n, dist, parent) && Short(n, dist) && QueueOk(dist, queue)
    requires 0 <= cur < |n.adj| && cur != n.root && dist[cur] != INF && 0 <= i <= |n.adj[cur]|
    requires Covered(n, dist, queue, cur) && Scanned(n, dist, cur, i)
    ensures Tree(n, dist', parent') && Short(n, dist') && QueueOk(dist', queue') && Keeps(dist, dist')
    ensures Covered(n, dist', queue', cur) && Scanned(n, dist', cur, |n.adj[cur]|)
    ensures (forall x :: x in queue ==> x in queue') && |queue| <= |queue'|
    ensures Unlabelled(dist') + |queue'| == Unlabelled(dist) + |queue|
    decreases |n.adj[cur]| - i
  {
    if i == |n.adj[cur]| {
      return dist, parent, queue;
    }
    var j := n.adj[cur][i];
    AdjView(n, cur, i);
    var to := AdjTarget(n, cur, i);
    var d1, p1, q1 := dist, parent, queue;
    if Followed(n, j) && dist[to] == INF {
      d1, p1, q1 := dist[to := dist[cur] + 1], parent[to := j], queue + [to];
      LabelOne(dist, to, dist[cur] + 1);
      LabelStep(n, dist, parent, cur, i);
    }
    CoveredKeeps(n, dist, queue, d1, q1, cur);
    ScannedKeeps(n, dist, d1, cur, i);
    dist', parent', queue' := ScanFrom(n, d1, p1, q1, cur, i + 1);
  }

  /** New labels are queued, so coverage carries over. */
  lemma CoveredKeeps(n: Network, dist: seq<int>, queue: seq<int>, dist': seq<int>, queue': seq<int>, cur: int)
    requires Valid(n) && |dist| == |n.adj| && Keeps(dist, dist') && Covered(n, dist, queue, cur)
    requires forall x :: x in queue ==> x in queue'
    requires forall x :: 0 <= x < |dist| && dist'[x] != INF && dist[x] == INF ==> x in queue'
    ensures Covered(n, dist', queue', cur)
  {
    forall x | 0 <= x < |n.adj| && dist'[x] != INF && x != cur && x !in queue'
      ensures Scanned(n, dist', x, |n.adj[x]|)
    {
      ScannedKeeps(n, dist, dist', x, |n.adj[x]|);
    }
  }

  /** Labelling the target of cur's i-th view from cur keeps the tree and the bound. */
  lemma LabelStep(n: Network, dist: seq<int>, parent: seq<int>, cur: int, i: int)
    requires Ready(n) && Tree(n, dist, parent) && Short(n, dist)
    requires 0 <= cur < |n.adj| && cur != n.root && dist[cur] != INF && 0 <= i < |n.adj[cur]|
    requires Followed(n, n.adj[cur][i]) && dist[AdjTarget(n, cur, i)] == INF
    requires Unlabelled(dist[AdjTarget(n, cur, i) := dist[cur] + 1]) + 1 == Unlabelled(dist)
    ensures var to := AdjTarget(n, cur, i);
      Tree(n, dist[to := dist[cur] + 1], parent[to := n.adj[cur][i]]) && Short(n, dist[to := dist[cur] + 1])
  {
    var to, j := AdjTarget(n, cur, i), n.adj[cur][i];
    AdjView(n, cur, i);
    var d1, p1 := dist[to := dist[cur] + 1], parent[to := j];
    forall x | 0 <= x < |n.adj|
      ensures ParentOk(n, d1, p1, x)
    {
      if x == to {
        assert ParentOk(n, dist, parent, cur);
        assert cur != to && d1[cur] == dist[cur] && 0 <= dist[cur] < |n.adj|;
        assert ViewFrom(n, j) == cur && ViewTo(n, j) == to;
      } else {
        assert ParentOk(n, dist, parent, x);
        assert d1[x] == dist[x] && p1[x] == parent[x];
        if dist[x] != INF && dist[x] != 0 {
          assert ViewFrom(n, parent[x]) != to;
        }
      }
    }
  }

  /**
   * The main loop: while the queue is not empty and the root is unlabelled,
   * poll a node and scan it. When the root stays unlabelled, every labelled
   * node has been scanned.
   */
  method BfsLoop(n: Network, dist: seq<int>, parent: seq<int>, queue: seq<int>)
    returns (dist': seq<int>, parent': seq<int>)
    requires Ready(n) && Tree(n, dist, parent) && Short(n, dist) && QueueOk(dist, queue)
    requires Covered(n, dist, queue, -1)
    ensures Tree(n, dist', parent') && Keeps(dist, dist')
    ensures dist'[n.root] == INF ==> Covered(n, dist', [], -1)
    decreases Unlabelled(dist), |queue|
  {
    if queue == [] || dist[n.root] != INF {
      return dist, parent;
    }
    var cur := queue[0];
    var rest := queue[1..];
    assert queue == [cur] + rest && cur in queue;
    var d1, p1, q1 := ScanFrom(n, dist, parent, rest, cur, 0);
    dist', parent' := BfsLoop(n, d1, p1, q1);
  }

  /** With the root unlabelled, every seed target labelled and every labelled node scanned, no removable cycle exists. */
  lemma NoCycle(n: Network, dist: seq<int>)
    requires Ready(n) && |dist| == |n.adj| && dist[n.root] == INF && Covered(n, dist, [], -1)
    requires forall k :: 0 <= k < |n.adj[n.root]| && Seed(n, n.adj[n.root][k]) ==> dist[AdjTarget(n, n.root, k)] != INF
    ensures forall p :: !Removable(n, p)
  {
    forall p | Removable(n, p)
      ensures false
    {
      WalkLabelled(n, dist, p, |p| - 1);
    }
  }

  /** With the search finished, every node on a removable cycle is labelled. */
  lemma {:induction false} WalkLabelled(n: Network, dist: seq<int>, p: seq<int>, i: int)
    requires Ready(n) && |dist| == |n.adj| && Covered(n, dist, [], -1)
    requires forall k :: 0 <= k < |n.adj[n.root]| && Seed(n, n.adj[n.root][k]) ==> dist[AdjTarget(n, n.root, k)] != INF
    requires Removable(n, p) && 0 <= i < |p|
    ensures dist[ViewTo(n, p[i])] != INF
    decreases i
  {
    var e := p[i];
    ViewEnds(n, e);
    var x := ViewFrom(n, e);
    if i > 0 {
      WalkLabelled(n, dist, p, i - 1);
      assert ViewTo(n, p[i - 1]) == x;
    }
    ListedView(n, e);
    var k :| 0 <= k < |n.adj[x]| && n.adj[x][k] == e;
    if i > 0 {
      assert Scanned(n, dist, x, |n.adj[x]|);
    }
    assert AdjTarget(n, x, k) == ViewTo(n, e);
  }

  // ---------------------------------------------------------------------------
  // Removing a path

  /**
   * The records the walk-back has changed so far, seen from cur: none ends
   * at the root, and both ends are labelled no closer than cur.
   */
  ghost predicate Untouched(n: Network, m: Network, dist: seq<int>, cur: int)
    requires |n.flow| == |n.edges| && |dist| == |n.adj| && 0 <= cur < |n.adj|
  {
    && m == n.(flow := m.flow) && |m.flow| == |n.flow|
    && forall k :: 0 <= k < |n.flow| && m.flow[k] != n.flow[k] ==>
         && n.edges[k].to != n.root
         && 0 <= n.edges[k].from < |n.adj| && 0 <= n.edges[k].to < |n.adj|
         && dist[n.edges[k].from] >= dist[cur] && dist[n.edges[k].to] >= dist[cur]
  }

  /**
   * The walk-back from a labelled node cur: one more unit on cur's parent
   * view, then on to the view's origin until the root is reached. The
   * parent views form a walk from the root to cur that starts at a seed and
   * follows only followed views; one unit is pushed along it, which keeps
   * every flow within bounds and takes one unit off the flow into the root
   * (on the seed's record).
   */
  method Trace(n: Network, dist: seq<int>, parent: seq<int>, m: Network, cur: int) returns (m': Network, ghost p: seq<int>)
    requires Ready(n) && FlowBounded(n) && Tree(n, dist, parent) && 0 <= cur < |n.adj| && dist[cur] != INF
    requires FlowBounded(m) && Untouched(n, m, dist, cur)
    ensures m' == n.(flow := m'.flow) && FlowBounded(m')
    ensures SeedWalk(n, p, cur) && m' == ApplyPath(m, p, 1)
    ensures FlowInto(m', n.root) == FlowInto(m, n.root) - 1
    decreases dist[cur]
  {
    var j := parent[cur];
    WalkBackStep(n, dist, parent, m, cur);
    var next := ViewFrom(n, j);
    var m1 := IncFlow(m, j, 1);
    if next == n.root {
      assert [j][1..] == [] && [j][0] == j;
      return m1, [j];
    }
    ghost var q;
    m', q := Trace(n, dist, parent, m1, next);
    p := q + [j];
    ApplyPathSnoc(m, q, j, 1);
    SeedWalkSnoc(n, q, j, cur);
  }

  /**
   * One step of the walk-back: cur's parent record is still as the search
   * saw it, so one more unit fits; only the seed's record ends at the root;
   * and the walk-back from the origin sees the records touched so far as
   * untouched-from-there.
   */
  lemma WalkBackStep(n: Network, dist: seq<int>, parent: seq<int>, m: Network, cur: int)
    requires Ready(n) && FlowBounded(n) && Tree(n, dist, parent) && 0 <= cur < |n.adj| && dist[cur] != INF
    requires FlowBounded(m) && Untouched(n, m, dist, cur)
    ensures 0 <= parent[cur] < EdgeCount(n) && ViewTo(n, parent[cur]) == cur
    ensures var j, next := parent[cur], ViewFrom(n, parent[cur]);
      && 0 <= next < |n.adj| && Followed(n, j)
      && FlowBounded(IncFlow(m, j, 1))
      && FlowInto(IncFlow(m, j, 1), n.root) == FlowInto(m, n.root) + (if next == n.root then -1 else 0)
      && (next == n.root ==> Seed(n, j))
      && (next != n.root ==> dist[next] != INF && 0 <= dist[next] < dist[cur] && Untouched(n, IncFlow(m, j, 1), dist, next))
  {
    assert ParentOk(n, dist, parent, cur);
    var j := parent[cur];
    ViewEnds(n, j);
    var next := ViewFrom(n, j);
    assert m.flow[j / 2] == n.flow[j / 2];
    IncFlowBounded(m, j, 1);
    FlowIntoUpdate(m.edges, m.flow, j / 2, if j % 2 == 0 then 1 else -1, n.root);
    if next != n.root {
      StepUntouched(n, dist, m, cur, j);
    }
  }

  /** Past a non-seed parent view j of cur, the records touched so far, and j's, join nodes no closer than j's origin. */
  lemma StepUntouched(n: Network, dist: seq<int>, m: Network, cur: int, j: int)
    requires Valid(n) && |dist| == |n.adj| && 0 <= cur < |n.adj| && 0 <= j < EdgeCount(n)
    requires ViewTo(n, j) == cur && Followed(n, j) && 0 <= ViewFrom(n, j) < |n.adj| && ViewFrom(n, j) != n.root
    requires dist[ViewFrom(n, j)] == dist[cur] - 1 && Untouched(n, m, dist, cur)
    ensures Untouched(n, IncFlow(m, j, 1), dist, ViewFrom(n, j))
  {
    var next, k, m1 := ViewFrom(n, j), j / 2, IncFlow(m, j, 1);
    assert n.edges[k].to != n.root by {
      if j % 2 == 0 {
        assert n.edges[k].to == cur && cur != n.root;
      } else {
        assert n.edges[k].to == next;
      }
    }
    assert {n.edges[k].from, n.edges[k].to} == {next, cur};
  }

  /**
   * `tryRemovePath`: seed from the root's backward views with residual
   * left, search until the root is labelled or the queue runs dry, and on
   * success walk back along the parents pushing one unit. It succeeds
   * exactly when a removable cycle exists; then one unit went around such a
   * cycle, every flow stays within bounds, every node keeps its balance and
   * the flow into the root drops by one. Otherwise nothing changes.
   */
  method TryRemovePath(n: Network) returns (found: bool, m: Network)
    requires Ready(n) && FlowBounded(n) && |n.adj| < INF
    ensures m == n.(flow := m.flow) && FlowBounded(m)
    ensures found ==> exists p :: Removable(n, p) && m == ApplyPath(n, p, 1)
    ensures found ==> FlowInto(m, n.root) == FlowInto(n, n.root) - 1
    ensures found ==> forall v :: NetOut(m, v) == NetOut(n, v)
    ensures !found ==> m == n && forall p :: !Removable(n, p)
  {
    var dist0, parent0 := seq(|n.adj|, _ => INF), seq(|n.adj|, _ => -1);
    AllUnlabelled(|n.adj|);
    var dist1, parent1, queue := SeedViews(n, 0, dist0, parent0, []);
    SeedsShort(n, dist1);
    var dist, parent := BfsLoop(n, dist1, parent1, queue);
    if dist[n.root] == INF {
      NoCycle(n, dist);
      return false, n;
    }
    ghost var p;
    m, p := Trace(n, dist, parent, n, n.root);
    forall v
      ensures NetOut(m, v) == NetOut(n, v)
    {
      ApplyPathNetOut(n, n.root, p, n.root, 1, v);
    }
    return true, m;
  }

  /** Right after seeding every label is 0, which is below the number of labelled nodes. */
  lemma SeedsShort(n: Network, dist: seq<int>)
    requires |dist| == |n.adj| < INF
    requires forall x :: 0 <= x < |n.adj| && dist[x] != INF ==> dist[x] == 0
    ensures Short(n, dist)
  {
    forall x | 0 <= x < |dist| && dist[x] != INF
      ensures dist[x] < |dist| - Unlabelled(dist)
    {
      LabelledCount(dist, x);
    }
  }

  /**
   * `optimizePaths`: remove paths until none is removable. Each removal
   * takes one unit off the flow into the root, which stays non-negative,
   * so the loop ends. The result keeps every balance, keeps flows within
   * bounds, has no removable cycle left, and no more flow into the root.
   */
  method OptimizePaths(n: Network) returns (m: Network)
    requires Ready(n) && FlowBounded(n) && |n.adj| < INF
    ensures m == n.(flow := m.flow) && FlowBounded(m)
    ensures forall v :: NetOut(m, v) == NetOut(n, v)
    ensures FlowInto(m, n.root) <= FlowInto(n, n.root)
    ensures forall p :: !Removable(m, p)
    decreases FlowInto(n, n.root)
  {
    var found, m1 := TryRemovePath(n);
    if !found {
      return n;
    }
    FlowIntoNonNegative(n.edges, n.flow, n.root);
    m := OptimizePaths(m1);
  }
}
