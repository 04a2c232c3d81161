/**
 * `StateGraphPathExtractor`: registers states and actions in the network,
 * reduces the path-cover problem to a flow problem, checks the state graph
 * for cycles and counts paths and their total length.
 */
module StateGraphPathExtractor {
  import opened Errors
  import opened StateNetwork
  import NaiveMaxFlowSolver
  import DinicMaxFlowSolver
  import HeuristicNetworkPathOptimizer
  import AcyclicFlowPathExtractor
  import EulerFlowPathExtractor

  /** The extractor's network (node 0 is the source) and its counters. */
  datatype Extractor = Extractor(net: Network, stateCount: int, actionCount: int, pathCount: int)

  /** The constructor: a network whose only node is the source. */
  function NewExtractor(): (x: Extractor)
    ensures Valid(x.net) && !x.net.shutDown
    ensures NodeCount(x.net) == 1 && EdgeCount(x.net) == 0
    ensures Source(x.net) == 0 && x.net.root == 1 && x.net.fpToId == map[]
    ensures Built(x)
  {
    var (net, _) := AddNode(Init(), None).value;
    Extractor(net, 0, 0, 0)
  }

  /**
   * `addState(state)`: registers the state's fingerprint for a new node and
   * returns the node id minus one, node 0 being the source.
   */
  function AddState(x: Extractor, fp: int): (r: Result<(Extractor, int)>)
    requires Valid(x.net)
    ensures r.Fail? <==> x.net.shutDown
    ensures r.Ok? ==> var (y, id) := r.value;
      && Valid(y.net)
      && id + 1 == NodeCount(x.net) && NodeCount(y.net) == NodeCount(x.net) + 1
      && y.net.fpToId == x.net.fpToId[fp := id + 1]
      && y.net.edges == x.net.edges && y.net.flow == x.net.flow && y.net.shutDown == x.net.shutDown
      && (Built(x) ==> Built(y))
  {
    var (net, id) :- AddNode(x.net, Some(fp));
    Ok((x.(net := net), id - 1))
  }

  /**
   * `addAction(from, to)`: an action edge of capacity INF between two
   * registered states; returns the record's index (the edge index over two).
   */
  function AddAction(x: Extractor, fromFp: int, toFp: int): (r: (Extractor, int))
    requires Valid(x.net)
    requires fromFp in x.net.fpToId && toFp in x.net.fpToId
    ensures var (y, id) := r;
      && Valid(y.net)
      && id == |x.net.edges|
      && y.net.edges == x.net.edges + [EdgeRecord(x.net.fpToId[fromFp], x.net.fpToId[toFp], INF, true)]
      && y.net.flow == x.net.flow + [0]
      && NodeCount(y.net) == NodeCount(x.net)
      && (Built(x) ==> Built(y))
  {
    var (net, id) := AddActionEdge(x.net, fromFp, toFp, INF);
    (x.(net := net), id / 2)
  }

  /** Every state's node is reached from the root along action records. */
  ghost predicate AllReached(n: Network) {
    forall v :: 1 <= v < NodeCount(n) ==> NaiveMaxFlowSolver.Reached(n.edges, n.root, v)
  }

  /** A node reached over some records is reached over any extension of them. */
  lemma ReachedExtends(edges: seq<EdgeRecord>, more: seq<EdgeRecord>, root: int, v: int)
    requires |more| >= |edges| && more[..|edges|] == edges && NaiveMaxFlowSolver.Reached(edges, root, v)
    ensures NaiveMaxFlowSolver.Reached(more, root, v)
  {
    var p :| NaiveMaxFlowSolver.ActionPath(edges, p) && p[0] == root && p[|p| - 1] == v;
    forall i | 0 <= i < |p| - 1
      ensures NaiveMaxFlowSolver.ActionStep(more, p[i], p[i + 1])
    {
      assert NaiveMaxFlowSolver.ActionStep(edges, p[i], p[i + 1]);
      var k :| 0 <= k < |edges| && edges[k].hasAction && edges[k].from == p[i] && edges[k].to == p[i + 1];
      assert more[k] == more[..|edges|][k];
    }
    assert NaiveMaxFlowSolver.ActionPath(more, p);
  }

  /** Adding records keeps every state reached, and an action record from a reached node reaches its head. */
  lemma AllReachedGrows(n: Network, m: Network, k: int)
    requires AllReached(n) && m.root == n.root && NodeCount(m) == NodeCount(n) + 1
    requires |m.edges| >= |n.edges| && m.edges[..|n.edges|] == n.edges
    requires 0 <= k < |m.edges| && m.edges[k].hasAction && m.edges[k].to == NodeCount(n)
    requires m.edges[k].from == m.root || 1 <= m.edges[k].from < NodeCount(n)
    ensures AllReached(m)
  {
    forall v | 1 <= v < NodeCount(m)
      ensures NaiveMaxFlowSolver.Reached(m.edges, m.root, v)
    {
      if v < NodeCount(n) {
        ReachedExtends(n.edges, m.edges, n.root, v);
      } else {
        if m.edges[k].from == m.root {
          NaiveMaxFlowSolver.RootReached(m.edges, m.root);
        } else {
          ReachedExtends(n.edges, m.edges, n.root, m.edges[k].from);
        }
        NaiveMaxFlowSolver.ReachedStep(m.edges, m.root, k);
      }
    }
  }

  /** A new node that is the root itself is reached. */
  lemma RootStateReached(n: Network, m: Network)
    requires m.edges == n.edges && m.root == n.root && NodeCount(m) == NodeCount(n) + 1 && NodeCount(n) == n.root
    ensures AllReached(n) ==> AllReached(m)
  {
    if AllReached(n) {
      forall v | 1 <= v < NodeCount(m)
        ensures NaiveMaxFlowSolver.Reached(m.edges, m.root, v)
      {
        if v == m.root {
          NaiveMaxFlowSolver.RootReached(m.edges, m.root);
        }
      }
    }
  }

  /** A new node linked by an action record from the root or a reached state is reached. */
  lemma LinkedStateReached(n: Network, m: Network)
    requires m.root == n.root && NodeCount(m) == NodeCount(n) + 1
    requires |m.edges| == |n.edges| + 1 && m.edges[..|n.edges|] == n.edges
    requires m.edges[|n.edges|].hasAction && m.edges[|n.edges|].to == NodeCount(n)
    requires m.edges[|n.edges|].from == m.root || 1 <= m.edges[|n.edges|].from < NodeCount(n)
    ensures AllReached(n) ==> AllReached(m)
  {
    if AllReached(n) {
      AllReachedGrows(n, m, |n.edges|);
    }
  }

  /** An added record between existing nodes keeps every state reached. */
  lemma ActionKeepsReached(n: Network, m: Network)
    requires m.root == n.root && NodeCount(m) == NodeCount(n)
    requires |m.edges| >= |n.edges| && m.edges[..|n.edges|] == n.edges
    ensures AllReached(n) ==> AllReached(m)
  {
    if AllReached(n) {
      forall v | 1 <= v < NodeCount(m)
        ensures NaiveMaxFlowSolver.Reached(m.edges, m.root, v)
      {
        ReachedExtends(n.edges, m.edges, n.root, v);
      }
    }
  }

  /** An action edge of capacity INF from the root to state v, with flow 0. */
  function LinkFromRoot(x: Extractor, v: int): (y: Extractor)
    requires Built(x) && 1 <= v < NodeCount(x.net)
    ensures Built(y) && NodeCount(y.net) == NodeCount(x.net)
    ensures y.net.edges == x.net.edges + [EdgeRecord(x.net.root, v, INF, true)]
    ensures y.net.fpToId == x.net.fpToId && y.net.root == x.net.root && y.net.shutDown == x.net.shutDown
  {
    var (net, _) := AddEdgeWith(x.net, x.net.root, v, INF, true);
    x.(net := net)
  }

  /**
   * The registration of an initial state (`writeState(state)`, which calls
   * `addState`), corrected so that the search from the root can reach it:
   * every initial state after the first, which is the root, also gets an
   * action edge of capacity INF from the root.
   */
  function AddInitialState(x: Extractor, fp: int): (r: Result<(Extractor, int)>)
    requires Built(x)
    ensures r.Fail? <==> x.net.shutDown
    ensures r.Ok? ==> var (y, id) := r.value;
      && Built(y)
      && id + 1 == NodeCount(x.net) && NodeCount(y.net) == NodeCount(x.net) + 1
      && y.net.fpToId == x.net.fpToId[fp := id + 1]
      && |y.net.edges| >= |x.net.edges| && y.net.edges[..|x.net.edges|] == x.net.edges
      && (id + 1 == x.net.root ==> y.net.edges == x.net.edges)
      && (id + 1 != x.net.root ==> y.net.edges == x.net.edges + [EdgeRecord(x.net.root, id + 1, INF, true)])
    ensures r.Ok? && AllReached(x.net) ==> AllReached(r.value.0.net)
  {
    var (y, id) :- AddState(x, fp);
    if id + 1 == y.net.root then
      RootStateReached(x.net, y.net);
      Ok((y, id))
    else
      var z := LinkFromRoot(y, id + 1);
      LinkedStateReached(x.net, z.net);
      Ok((z, id))
  }

  /**
   * What the state writer does for a transition from a registered state
   * (`writeState(state, successor, ...)`): nothing for a stuttering step;
   * otherwise the successor is registered unless it was seen before, and
   * the action is added unless both fingerprints are equal. `seen` is TLC's
   * IsSeen flag, set exactly when the successor was registered before.
   */
  function AddSuccessor(x: Extractor, fromFp: int, toFp: int, seen: bool, stuttering: bool): (r: Result<Extractor>)
    requires Built(x) && fromFp in x.net.fpToId && (seen <==> toFp in x.net.fpToId)
    ensures r.Fail? <==> !stuttering && !seen && x.net.shutDown
    ensures r.Ok? ==> Built(r.value) && NodeCount(r.value.net) == NodeCount(x.net) + (if stuttering || seen then 0 else 1)
    ensures r.Ok? ==> r.value.net.fpToId == if stuttering || seen then x.net.fpToId else x.net.fpToId[toFp := NodeCount(x.net)]
    ensures r.Ok? ==> |r.value.net.edges| >= |x.net.edges| && r.value.net.edges[..|x.net.edges|] == x.net.edges
    ensures r.Ok? && !stuttering && fromFp != toFp ==>
      r.value.net.edges == x.net.edges + [EdgeRecord(x.net.fpToId[fromFp], r.value.net.fpToId[toFp], INF, true)]
    ensures r.Ok? && (stuttering || fromFp == toFp) ==> r.value.net.edges == x.net.edges
    ensures r.Ok? && AllReached(x.net) ==> AllReached(r.value.net)
  {
    if stuttering then Ok(x)
    else
      var y :- if seen then Ok(x) else AddSuccessorState(x, toFp);
      if fromFp != toFp then
        var (z, _) := AddAction(y, fromFp, toFp);
        if seen then
          ActionKeepsReached(x.net, z.net);
          Ok(z)
        else
          LinkedStateReached(x.net, z.net);
          Ok(z)
      else
        Ok(y)
  }

  /** Registering an unseen successor keeps everything else, so `AddSuccessor` can add its action next. */
  function AddSuccessorState(x: Extractor, fp: int): (r: Result<Extractor>)
    requires Built(x)
    ensures r.Fail? <==> x.net.shutDown
    ensures r.Ok? ==> var y := r.value;
      && Built(y) && NodeCount(y.net) == NodeCount(x.net) + 1
      && y.net.fpToId == x.net.fpToId[fp := NodeCount(x.net)]
      && y.net.edges == x.net.edges && y.net.root == x.net.root
  {
    var (y, _) :- AddState(x, fp);
    Ok(y)
  }

  /**
   * What the builder keeps true of its network until `extractPaths()`: the
   * source is node 0, the sink the last node and the root node 1 (the first
   * state), and every edge, an action edge added with flow 0 and capacity INF,
   * is within its capacity.
   */
  ghost predicate Built(x: Extractor) {
    Unreduced(x.net)
  }

  /** The network as the builder leaves it: only action edges, without flow, between states (never node 0). */
  ghost predicate Unreduced(n: Network) {
    && Valid(n) && FlowBounded(n) && NodeCount(n) >= 1
    && n.source == 0 && n.sink == -1 && n.root == 1
    && (forall k :: 0 <= k < |n.edges| ==> n.edges[k].hasAction && n.edges[k].from >= 1 && n.edges[k].to >= 1)
    && (forall k :: 0 <= k < |n.flow| ==> n.flow[k] == 0)
    && (forall fp :: fp in n.fpToId ==> n.fpToId[fp] >= 1)
  }

  // ---------------------------------------------------------------------------
  // The reduction

  /** In-degree minus out-degree of v over the records (a self-loop counts both ways). */
  function InMinusOut(edges: seq<EdgeRecord>, v: int): int
  {
    if |edges| == 0 then 0
    else
      var e := edges[|edges| - 1];
      InMinusOut(edges[..|edges| - 1], v) + (if e.to == v then 1 else 0) - (if e.from == v then 1 else 0)
  }

  /** The first loop of `constructNetwork`: per-node in minus out over every existing forward edge. */
  method DegreeDiffs(n: Network) returns (diffs: seq<int>)
    requires Valid(n)
    ensures |diffs| == NodeCount(n)
    ensures forall v :: 0 <= v < |diffs| ==> diffs[v] == InMinusOut(n.edges, v)
  {
    diffs := seq(NodeCount(n), _ => 0);
    var i := 0;
    while i < EdgeCount(n)
      invariant 0 <= i <= EdgeCount(n) && i % 2 == 0
      invariant |diffs| == NodeCount(n)
      invariant forall v :: 0 <= v < |diffs| ==> diffs[v] == InMinusOut(n.edges[..i / 2], v)
    {
      var edge := GetEdge(n, i);
      var e := n.edges[i / 2];
      assert n.edges[..i / 2 + 1][..i / 2] == n.edges[..i / 2];
      diffs := diffs[edge.from := diffs[edge.from] - 1];
      diffs := diffs[edge.to := diffs[edge.to] + 1];
      i := i + 2;
    }
    assert n.edges[..|n.edges|] == n.edges;
  }

  /** The source or sink edge that settles v's imbalance, if any. */
  function BalanceEdges(diffs: seq<int>, src: int, snk: int, v: int): seq<EdgeRecord>
    requires 0 <= v < |diffs|
  {
    if diffs[v] > 0 then [EdgeRecord(src, v, diffs[v], false)]
    else if diffs[v] < 0 then [EdgeRecord(v, snk, -diffs[v], false)]
    else []
  }

  /** The return edge from v to root, unless v is root. */
  function ReturnEdges(root: int, v: int): seq<EdgeRecord> {
    if v != root then [EdgeRecord(v, root, INF / 2, false)] else []
  }

  /** The edges the reduction adds for node v, in insertion order. */
  function NodeEdges(diffs: seq<int>, src: int, snk: int, root: int, v: int): seq<EdgeRecord>
    requires 0 <= v < |diffs|
  {
    if v == src || v == snk then [] else BalanceEdges(diffs, src, snk, v) + ReturnEdges(root, v)
  }

  /** The edges the reduction adds for nodes 0 .. k-1, in insertion order. */
  function Reduction(diffs: seq<int>, src: int, snk: int, root: int, k: nat): seq<EdgeRecord>
    requires k <= |diffs|
  {
    if k == 0 then [] else Reduction(diffs, src, snk, root, k - 1) + NodeEdges(diffs, src, snk, root, k - 1)
  }

  /** A node that gets reduction edges. */
  predicate Inner(src: int, snk: int, v: int) {
    v != src && v != snk
  }

  /** What an added edge can be, stated by its endpoints. */
  predicate IsReductionEdge(diffs: seq<int>, src: int, snk: int, root: int, k: nat, e: EdgeRecord)
    requires k <= |diffs|
  {
    && !e.hasAction
    && (|| (e.from == src && 0 <= e.to < k && Inner(src, snk, e.to) && diffs[e.to] > 0 && e.capacity == diffs[e.to])
        || (e.to == snk && 0 <= e.from < k && Inner(src, snk, e.from) && diffs[e.from] < 0 && e.capacity == -diffs[e.from])
        || (e.to == root && 0 <= e.from < k && Inner(src, snk, e.from) && e.from != root && e.capacity == INF / 2))
  }

  /** The edges node u adds, stated by their endpoints. */
  predicate IsNodeEdge(diffs: seq<int>, src: int, snk: int, root: int, u: int, e: EdgeRecord)
    requires 0 <= u < |diffs|
  {
    && Inner(src, snk, u) && !e.hasAction
    && (|| (e.from == src && e.to == u && diffs[u] > 0 && e.capacity == diffs[u])
        || (e.to == snk && e.from == u && diffs[u] < 0 && e.capacity == -diffs[u])
        || (e.to == root && e.from == u && u != root && e.capacity == INF / 2))
  }

  /** Node u's edges are exactly those its endpoints describe. */
  lemma NodeEdgesMembership(diffs: seq<int>, src: int, snk: int, root: int, u: int, e: EdgeRecord)
    requires 0 <= u < |diffs|
    ensures e in NodeEdges(diffs, src, snk, root, u) <==> IsNodeEdge(diffs, src, snk, root, u, e)
  {
  }

  /** The edges added for nodes 0 .. k-1 are exactly those their endpoints describe. */
  lemma {:induction false} ReductionMembership(diffs: seq<int>, src: int, snk: int, root: int, k: nat)
    requires k <= |diffs|
    ensures forall e :: e in Reduction(diffs, src, snk, root, k) <==> IsReductionEdge(diffs, src, snk, root, k, e)
  {
    if k > 0 {
      ReductionMembership(diffs, src, snk, root, k - 1);
      forall e
        ensures e in Reduction(diffs, src, snk, root, k) <==> IsReductionEdge(diffs, src, snk, root, k, e)
      {
        MembershipStep(diffs, src, snk, root, k, e);
      }
    } else {
      assert Reduction(diffs, src, snk, root, k) == [];
    }
  }

  /** Membership carries over from the nodes below k - 1 to those below k. */
  lemma MembershipStep(diffs: seq<int>, src: int, snk: int, root: int, k: nat, e: EdgeRecord)
    requires 0 < k <= |diffs|
    requires e in Reduction(diffs, src, snk, root, k - 1) <==> IsReductionEdge(diffs, src, snk, root, k - 1, e)
    ensures e in Reduction(diffs, src, snk, root, k) <==> IsReductionEdge(diffs, src, snk, root, k, e)
  {
    NodeEdgesMembership(diffs, src, snk, root, k - 1, e);
    ReductionEdgeStep(diffs, src, snk, root, k, e);
    InConcat(Reduction(diffs, src, snk, root, k - 1), NodeEdges(diffs, src, snk, root, k - 1), e);
  }

  /** An element of a concatenation is in one of the parts. */
  lemma InConcat(a: seq<EdgeRecord>, b: seq<EdgeRecord>, e: EdgeRecord)
    ensures e in a + b <==> e in a || e in b
  {
  }

  /** A reduction edge of the first k nodes is one of the first k - 1 or one of node k - 1's. */
  lemma ReductionEdgeStep(diffs: seq<int>, src: int, snk: int, root: int, k: nat, e: EdgeRecord)
    requires 0 < k <= |diffs|
    ensures IsReductionEdge(diffs, src, snk, root, k, e) <==>
      IsReductionEdge(diffs, src, snk, root, k - 1, e) || IsNodeEdge(diffs, src, snk, root, k - 1, e)
  {
  }


  /** Node u's own edges hold v's return edge once if u is v, and not otherwise. */
  lemma NodeReturnCount(diffs: seq<int>, src: int, snk: int, root: int, u: int, v: int)
    requires 0 <= u < |diffs| && root != snk
    requires Inner(src, snk, v) && v != root
    ensures CountOf(NodeEdges(diffs, src, snk, root, u), EdgeRecord(v, root, INF / 2, false)) == if u == v then 1 else 0
  {
    var e := EdgeRecord(v, root, INF / 2, false);
    if Inner(src, snk, u) {
      var b, t := BalanceEdges(diffs, src, snk, u), ReturnEdges(root, u);
      assert NodeEdges(diffs, src, snk, root, u) == b + t;
      CountOfAppend(b, t, e);
      if |b| > 0 {
        CountOfSingle(b[0], e);
      }
      if |t| > 0 {
        CountOfSingle(t[0], e);
      }
    }
  }

  /** A one-element sequence holds e once if its element is e. */
  lemma CountOfSingle(x: EdgeRecord, e: EdgeRecord)
    ensures CountOf([x], e) == if x == e then 1 else 0
  {
    assert [x][1..] == [];
  }

  /** How often e occurs in s. */
  function CountOf(s: seq<EdgeRecord>, e: EdgeRecord): nat
    decreases |s|
  {
    if |s| == 0 then 0 else (if s[0] == e then 1 else 0) + CountOf(s[1..], e)
  }

  /** The count in a sequence split in two is the sum of the counts in the parts. */
  lemma CountSplit(s: seq<EdgeRecord>, a: seq<EdgeRecord>, b: seq<EdgeRecord>, e: EdgeRecord)
    requires s == a + b
    ensures CountOf(s, e) == CountOf(a, e) + CountOf(b, e)
  {
    CountOfAppend(a, b, e);
  }

  /** Counting over a concatenation adds the counts of the parts. */
  lemma {:induction false} CountOfAppend(s: seq<EdgeRecord>, t: seq<EdgeRecord>, e: EdgeRecord)
    ensures CountOf(s + t, e) == CountOf(s, e) + CountOf(t, e)
    decreases |s|
  {
    if |s| == 0 {
      assert s + t == t;
    } else {
      assert (s + t)[0] == s[0] && (s + t)[1..] == s[1..] + t;
      CountOfAppend(s[1..], t, e);
    }
  }

  /**
   * Every node other than source, sink and root gets exactly one return edge
   * to root (when root is not the sink).
   */
  lemma {:induction false} OneReturnEdge(diffs: seq<int>, src: int, snk: int, root: int, k: nat, v: int)
    requires k <= |diffs| && root != snk
    requires Inner(src, snk, v) && v != root
    ensures CountOf(Reduction(diffs, src, snk, root, k), EdgeRecord(v, root, INF / 2, false)) == if 0 <= v < k then 1 else 0
  {
    if k > 0 {
      OneReturnEdge(diffs, src, snk, root, k - 1, v);
      ReturnEdgeStep(diffs, src, snk, root, k, v);
    } else {
      assert Reduction(diffs, src, snk, root, k) == [];
    }
  }

  /** Node k - 1's edges add v's return edge to those of the nodes below it exactly when v is k - 1. */
  lemma ReturnEdgeStep(diffs: seq<int>, src: int, snk: int, root: int, k: nat, v: int)
    requires 0 < k <= |diffs| && root != snk
    requires Inner(src, snk, v) && v != root
    requires CountOf(Reduction(diffs, src, snk, root, k - 1), EdgeRecord(v, root, INF / 2, false)) == if 0 <= v < k - 1 then 1 else 0
    ensures CountOf(Reduction(diffs, src, snk, root, k), EdgeRecord(v, root, INF / 2, false)) == if 0 <= v < k then 1 else 0
  {
    var e := EdgeRecord(v, root, INF / 2, false);
    var below, own := Reduction(diffs, src, snk, root, k - 1), NodeEdges(diffs, src, snk, root, k - 1);
    NodeReturnCount(diffs, src, snk, root, k - 1, v);
    CountSplit(Reduction(diffs, src, snk, root, k), below, own, e);
    assert CountOf(own, e) == if v == k - 1 then 1 else 0;
  }

  /** Two networks that differ at most in adjacency, records and flows, with the same node count. */
  predicate SameFrame(n: Network, m: Network) {
    && |m.adj| == |n.adj| && m.fpToId == n.fpToId && m.shutDown == n.shutDown
    && m.source == n.source && m.sink == n.sink && m.root == n.root
  }

  /** The flows of freshly added edges. */
  function Zeros(k: nat): (z: seq<int>)
    ensures |z| == k && forall i :: 0 <= i < k ==> z[i] == 0
  {
    seq(k, _ => 0)
  }

  /** Two runs of zero flows make one. */
  lemma ZerosAppend(f: seq<int>, a: nat, b: nat)
    ensures f + Zeros(a) + Zeros(b) == f + Zeros(a + b)
  {
  }

  /** `addEdge(from, to, cap)` seen from the reduction: one more record with flow 0, nothing else of interest changes. */
  method AppendEdge(n: Network, from: int, to: int, cap: int) returns (m: Network)
    requires Valid(n) && 0 <= from < NodeCount(n) && 0 <= to < NodeCount(n)
    ensures Valid(m)
    ensures m.edges == n.edges + [EdgeRecord(from, to, cap, false)] && m.flow == n.flow + Zeros(1)
    ensures SameFrame(n, m)
  {
    m := AddEdge(n, from, to, cap).0;
    assert Zeros(1) == [0];
  }

  /** The body of the second loop of `constructNetwork()` for node v. */
  method AddNodeEdges(n: Network, diffs: seq<int>, src: int, snk: int, root: int, v: int) returns (m: Network)
    requires Valid(n) && 0 <= v < |diffs|
    requires 0 <= src < NodeCount(n) && 0 <= snk < NodeCount(n)
    requires 0 <= v < NodeCount(n) && (v != src && v != snk && v != root ==> 0 <= root < NodeCount(n))
    ensures Valid(m)
    ensures m.edges == n.edges + NodeEdges(diffs, src, snk, root, v)
    ensures m.flow == n.flow + Zeros(|NodeEdges(diffs, src, snk, root, v)|)
    ensures SameFrame(n, m)
  {
    m := n;
    assert n.flow + Zeros(0) == n.flow;
    if v != src && v != snk {
      if diffs[v] > 0 {
        m := AppendEdge(m, src, v, diffs[v]);
      } else if diffs[v] < 0 {
        m := AppendEdge(m, v, snk, -diffs[v]);
      }
      assert m.edges == n.edges + BalanceEdges(diffs, src, snk, v);
      assert m.flow == n.flow + Zeros(|BalanceEdges(diffs, src, snk, v)|);
      ghost var mid := m;
      if v != root {
        m := AppendEdge(m, v, root, INF / 2);
      }
      assert m.edges == mid.edges + ReturnEdges(root, v);
      assert m.flow == mid.flow + Zeros(|ReturnEdges(root, v)|);
      ZerosAppend(n.flow, |BalanceEdges(diffs, src, snk, v)|, |ReturnEdges(root, v)|);
    }
  }

  /** The second loop of `constructNetwork()`: every node's reduction edges, in node order. */
  method AddReductionEdges(n: Network, diffs: seq<int>) returns (m: Network)
    requires Valid(n) && |diffs| == NodeCount(n) > 0
    requires 0 <= n.root < NodeCount(n)
    ensures Valid(m)
    ensures m.edges == n.edges + Reduction(diffs, Source(n), Sink(n), n.root, NodeCount(n))
    ensures m.flow == n.flow + Zeros(|m.edges| - |n.edges|)
    ensures SameFrame(n, m)
  {
    var src, snk := Source(n), Sink(n);
    ReducedBelowStart(n, diffs, src, snk);
    m := n;
    var i := 0;
    while i < NodeCount(n)
      invariant i <= NodeCount(n) && Valid(m) && ReducedBelow(n, m, diffs, src, snk, i)
      decreases NodeCount(n) - i
    {
      m := AddNodeEdgesBelow(n, m, diffs, src, snk, i);
      i := i + 1;
    }
  }

  /** After the loop has handled the nodes below i: `m` is `n` plus their reduction edges, with zero flow. */
  ghost predicate ReducedBelow(n: Network, m: Network, diffs: seq<int>, src: int, snk: int, i: nat)
    requires i <= |diffs|
  {
    && SameFrame(n, m)
    && m.edges == n.edges + Reduction(diffs, src, snk, n.root, i)
    && m.flow == n.flow + Zeros(|m.edges| - |n.edges|)
  }

  /** Before the loop nothing is added. */
  lemma ReducedBelowStart(n: Network, diffs: seq<int>, src: int, snk: int)
    ensures ReducedBelow(n, n, diffs, src, snk, 0)
  {
    assert n.edges + [] == n.edges;
    assert n.flow + Zeros(0) == n.flow;
  }

  /** One iteration of the loop: node i's edges go after those of the nodes below it. */
  method AddNodeEdgesBelow(n: Network, m: Network, diffs: seq<int>, src: int, snk: int, i: nat) returns (next: Network)
    requires |diffs| == NodeCount(n) && 0 <= n.root < NodeCount(n)
    requires 0 <= src < NodeCount(n) && 0 <= snk < NodeCount(n)
    requires i < NodeCount(n) && Valid(m) && ReducedBelow(n, m, diffs, src, snk, i)
    ensures Valid(next) && ReducedBelow(n, next, diffs, src, snk, i + 1)
  {
    next := AddNodeEdges(m, diffs, src, snk, n.root, i);
    ReducedStep(n, m, next, diffs, src, snk, i);
  }

  /** Adding node i's edges to a network reduced below i leaves it reduced below i + 1. */
  lemma ReducedStep(n: Network, m: Network, next: Network, diffs: seq<int>, src: int, snk: int, i: nat)
    requires i < |diffs| && ReducedBelow(n, m, diffs, src, snk, i)
    requires SameFrame(m, next)
    requires next.edges == m.edges + NodeEdges(diffs, src, snk, n.root, i)
    requires next.flow == m.flow + Zeros(|NodeEdges(diffs, src, snk, n.root, i)|)
    ensures ReducedBelow(n, next, diffs, src, snk, i + 1)
  {
    ReductionSnoc(n.edges, n.flow, m.edges, m.flow, next.edges, next.flow, diffs, src, snk, n.root, i);
  }

  /** Appending node k's edges (with zero flow) to the edges of nodes below k gives the edges of nodes up to k. */
  lemma ReductionSnoc(base: seq<EdgeRecord>, f: seq<int>, es: seq<EdgeRecord>, fs: seq<int>,
                      es': seq<EdgeRecord>, fs': seq<int>, diffs: seq<int>, src: int, snk: int, root: int, k: nat)
    requires k < |diffs|
    requires es == base + Reduction(diffs, src, snk, root, k) && fs == f + Zeros(|es| - |base|)
    requires es' == es + NodeEdges(diffs, src, snk, root, k) && fs' == fs + Zeros(|NodeEdges(diffs, src, snk, root, k)|)
    ensures es' == base + Reduction(diffs, src, snk, root, k + 1)
    ensures fs' == f + Zeros(|es'| - |base|)
  {
    AppendAssoc(base, Reduction(diffs, src, snk, root, k), NodeEdges(diffs, src, snk, root, k));
    ZerosAppend(f, |es| - |base|, |NodeEdges(diffs, src, snk, root, k)|);
  }

  /** Appending is associative. */
  lemma AppendAssoc<T>(a: seq<T>, b: seq<T>, c: seq<T>)
    ensures (a + b) + c == a + (b + c)
  {
  }

  /** What the added edges are, read off the reference sequence. */
  lemma ReductionFacts(diffs: seq<int>, src: int, snk: int, root: int, added: seq<EdgeRecord>)
    requires added == Reduction(diffs, src, snk, root, |diffs|)
    ensures forall e :: e in added <==> IsReductionEdge(diffs, src, snk, root, |diffs|, e)
    ensures root != snk ==> forall v :: 0 <= v < |diffs| && Inner(src, snk, v) && v != root ==>
      CountOf(added, EdgeRecord(v, root, INF / 2, false)) == 1
  {
    ReductionMembership(diffs, src, snk, root, |diffs|);
    if root != snk {
      forall v | 0 <= v < |diffs| && Inner(src, snk, v) && v != root
        ensures CountOf(added, EdgeRecord(v, root, INF / 2, false)) == 1
      {
        OneReturnEdge(diffs, src, snk, root, |diffs|, v);
      }
    }
  }

  // ---------------------------------------------------------------------------
  // The reduction balances the closing pass

  /** Every record an action edge whose ends are neither src nor snk. */
  ghost predicate InnerActions(edges: seq<EdgeRecord>, src: int, snk: int) {
    forall k :: 0 <= k < |edges| ==>
      edges[k].hasAction && edges[k].from != src && edges[k].from != snk && edges[k].to != src && edges[k].to != snk
  }

  /** On inner action edges the closing pass takes one unit off each, so it moves in-degree minus out-degree out of v. */
  lemma {:induction false} ActionShifts(edges: seq<EdgeRecord>, src: int, snk: int, v: int)
    requires InnerActions(edges, src, snk)
    ensures ShiftOut(edges, src, snk, v) == InMinusOut(edges, v)
    decreases |edges|
  {
    if |edges| > 0 {
      var k := |edges| - 1;
      assert NaiveMaxFlowSolver.Shifts(edges, src, snk)[..k] == NaiveMaxFlowSolver.Shifts(edges[..k], src, snk);
      ActionShifts(edges[..k], src, snk, v);
    }
  }

  /** What the closing pass alone moves out of v over the records `es`. */
  function ShiftOut(es: seq<EdgeRecord>, src: int, snk: int, v: int): int {
    NetOutOf(es, NaiveMaxFlowSolver.Shifts(es, src, snk), v)
  }

  /** The closing pass's additions split with the records. */
  lemma ShiftsAppend(a: seq<EdgeRecord>, b: seq<EdgeRecord>, src: int, snk: int)
    ensures NaiveMaxFlowSolver.Shifts(a + b, src, snk) == NaiveMaxFlowSolver.Shifts(a, src, snk) + NaiveMaxFlowSolver.Shifts(b, src, snk)
  {
  }

  /** Filling u's source or sink edge moves diffs[u] into u and touches no other inner node; its return edge is untouched. */
  lemma NodeShifts(diffs: seq<int>, src: int, snk: int, root: int, u: int, v: int)
    requires 0 <= u < |diffs| && Inner(src, snk, v) && root != snk
    ensures ShiftOut(NodeEdges(diffs, src, snk, root, u), src, snk, v) == if u == v then -diffs[v] else 0
  {
    if Inner(src, snk, u) {
      var b, r := BalanceEdges(diffs, src, snk, u), ReturnEdges(root, u);
      ShiftsAppend(b, r, src, snk);
      NetOutOfAppend(b, NaiveMaxFlowSolver.Shifts(b, src, snk), r, NaiveMaxFlowSolver.Shifts(r, src, snk), v);
    }
  }

  /** Over the edges added for nodes below k, the closing pass moves diffs[v] into every inner v below k. */
  lemma {:induction false} ReductionShifts(diffs: seq<int>, src: int, snk: int, root: int, k: nat, v: int)
    requires k <= |diffs| && Inner(src, snk, v) && root != snk
    ensures ShiftOut(Reduction(diffs, src, snk, root, k), src, snk, v) == if 0 <= v < k then -diffs[v] else 0
    decreases k
  {
    if k == 0 {
      assert Reduction(diffs, src, snk, root, 0) == [];
    } else {
      ReductionShifts(diffs, src, snk, root, k - 1, v);
      ReductionShiftStep(diffs, src, snk, root, k, v);
      NodeShifts(diffs, src, snk, root, k - 1, v);
    }
  }

  /** The edges added for node k-1 come after those for the nodes below it. */
  lemma ReductionShiftStep(diffs: seq<int>, src: int, snk: int, root: int, k: nat, v: int)
    requires 0 < k <= |diffs|
    ensures ShiftOut(Reduction(diffs, src, snk, root, k), src, snk, v)
      == ShiftOut(Reduction(diffs, src, snk, root, k - 1), src, snk, v) + ShiftOut(NodeEdges(diffs, src, snk, root, k - 1), src, snk, v)
  {
    var a, b := Reduction(diffs, src, snk, root, k - 1), NodeEdges(diffs, src, snk, root, k - 1);
    ShiftsAppend(a, b, src, snk);
    NetOutOfAppend(a, NaiveMaxFlowSolver.Shifts(a, src, snk), b, NaiveMaxFlowSolver.Shifts(b, src, snk), v);
  }

  /**
   * Why the naive solver's closing pass yields a conserved flow: on the
   * action edges it moves each node's in-degree minus out-degree out of it,
   * and the source and sink edges the reduction added move exactly that
   * back, so every inner node ends balanced.
   */
  lemma ReducedBalanced(edges0: seq<EdgeRecord>, count: nat, root: int, v: int)
    requires 2 <= count && InnerActions(edges0, 0, count - 1) && root != count - 1
    requires 0 < v < count - 1
    ensures ShiftOut(edges0 + Reduction(DiffsOf(edges0, count), 0, count - 1, root, count), 0, count - 1, v) == 0
  {
    var added := Reduction(DiffsOf(edges0, count), 0, count - 1, root, count);
    ShiftsAppend(edges0, added, 0, count - 1);
    NetOutOfAppend(edges0, NaiveMaxFlowSolver.Shifts(edges0, 0, count - 1), added, NaiveMaxFlowSolver.Shifts(added, 0, count - 1), v);
    ActionShifts(edges0, 0, count - 1, v);
    ReductionShifts(DiffsOf(edges0, count), 0, count - 1, root, count, v);
  }

  /**
   * The network `constructNetwork()` leaves from a built one with at least
   * one state has the shape the naive solver's bounds need, and its closing
   * pass leaves every inner node balanced.
   */
  lemma ReducedShape(n0: Network, m: Network)
    requires Unreduced(n0) && NodeCount(n0) >= 2
    requires Valid(m) && NodeCount(m) == NodeCount(n0) + 1 && m.source == 0 && m.sink == -1 && m.root == 1
    requires m.edges == n0.edges + Reduction(DiffsOf(n0.edges, NodeCount(m)), Source(m), Sink(m), 1, NodeCount(m))
    requires |m.flow| == |m.edges| && m.flow[..|n0.edges|] == n0.flow
    requires forall k :: |n0.edges| <= k < |m.flow| ==> m.flow[k] == 0
    ensures NaiveMaxFlowSolver.Shaped(m) && NaiveMaxFlowSolver.Balanced(m)
  {
    var count := NodeCount(m);
    var added := m.edges[|n0.edges|..];
    assert Source(m) == 0 && Sink(m) == count - 1;
    assert m.edges == n0.edges + added;
    assert forall k :: 0 <= k < |n0.flow| ==> m.flow[k] == n0.flow[k];
    assert InnerActions(n0.edges, 0, count - 1);
    ReductionFacts(DiffsOf(n0.edges, count), 0, count - 1, 1, added);
    forall k | 0 <= k < |m.edges|
      ensures NaiveMaxFlowSolver.ShapedRecord(m.edges[k], 0, count - 1, 1)
    {
      if k >= |n0.edges| {
        assert m.edges[k] == added[k - |n0.edges|];
        assert added[k - |n0.edges|] in added;
      } else {
        assert m.edges[k] == n0.edges[k] && n0.flow[k] == 0;
      }
    }
    forall v | 0 <= v < count && v != 0 && v != count - 1
      ensures NetOut(m, v) + NetOutOf(m.edges, NaiveMaxFlowSolver.Shifts(m.edges, 0, count - 1), v) == 0
    {
      NoFlowNetOut(m.edges, m.flow, v);
      ReducedBalanced(n0.edges, count, 1, v);
    }
  }

  /**
   * `constructNetwork()`: adds the sink node, shuts the network down, then for
   * every node other than source and sink adds source->v with capacity
   * in-out when that is positive, v->sink with capacity out-in when that is
   * positive, and (except for root) v->root with capacity INF/2.
   */
  method ConstructNetwork(n0: Network) returns (r: Result<Network>)
    requires Valid(n0)
    requires 0 <= n0.root <= NodeCount(n0)
    ensures r.Fail? <==> n0.shutDown
    ensures r.Fail? ==> r == Fail(IllegalState(ShutDownMessage))
    ensures r.Ok? ==> var m := r.value;
      && Valid(m) && m.shutDown && m.fpToId == map[]
      && NodeCount(m) == NodeCount(n0) + 1
      && m.root == n0.root && Source(m) == Mod(n0.source, NodeCount(m)) && Sink(m) == Mod(n0.sink, NodeCount(m))
      && m.source == n0.source && m.sink == n0.sink
      && (FlowBounded(n0) ==> FlowBounded(m))
      && |m.edges| >= |n0.edges| && m.edges[..|n0.edges|] == n0.edges
      && |m.flow| == |m.edges| && m.flow[..|n0.edges|] == n0.flow
      && (forall k :: |n0.edges| <= k < |m.flow| ==> m.flow[k] == 0)
      && (forall e :: e in m.edges[|n0.edges|..] <==>
            IsReductionEdge(DiffsOf(n0.edges, NodeCount(m)), Source(m), Sink(m), m.root, NodeCount(m), e))
      && (m.root != Sink(m) ==>
            forall v :: 0 <= v < NodeCount(m) && Inner(Source(m), Sink(m), v) && v != m.root ==>
              CountOf(m.edges[|n0.edges|..], EdgeRecord(v, m.root, INF / 2, false)) == 1)
    ensures r.Ok? ==> r.value.edges == n0.edges + Reduction(DiffsOf(n0.edges, NodeCount(r.value)), Source(r.value), Sink(r.value), n0.root, NodeCount(r.value))
  {
    var added :- AddNode(n0, None);
    var n := Shutdown(added.0).value;
    var diffs := DegreeDiffs(n);
    assert diffs == DiffsOf(n0.edges, NodeCount(n));
    var m := AddReductionEdges(n, diffs);
    assert m.edges[|n0.edges|..] == Reduction(diffs, Source(n), Sink(n), n.root, NodeCount(n));
    ReductionFacts(diffs, Source(n), Sink(n), n.root, m.edges[|n0.edges|..]);
    if FlowBounded(n0) {
      forall k | |n0.edges| <= k < |m.edges|
        ensures 0 <= m.flow[k] <= m.edges[k].capacity
      {
        assert m.edges[k] in m.edges[|n0.edges|..];
      }
    }
    r := Ok(m);
  }

  /** The imbalance of every node below `count`. */
  function DiffsOf(edges: seq<EdgeRecord>, count: nat): (d: seq<int>)
    ensures |d| == count
    ensures forall v :: 0 <= v < count ==> d[v] == InMinusOut(edges, v)
  {
    seq(count, v => InMinusOut(edges, v))
  }

  // ---------------------------------------------------------------------------
  // Counting

  /** Paths: flow plus one for an action edge, over forward edges into root that do not leave the source. */
  function PathCountOf(edges: seq<EdgeRecord>, flow: seq<int>, src: int, root: int): int
    requires |flow| == |edges|
  {
    if |edges| == 0 then 0
    else
      var k := |edges| - 1;
      PathCountOf(edges[..k], flow[..k], src, root)
        + (if edges[k].from != src && edges[k].to == root then flow[k] + (if edges[k].hasAction then 1 else 0) else 0)
  }

  /** The total length of a path cover: the flow on action edges. */
  function TotalLengthOf(edges: seq<EdgeRecord>, flow: seq<int>): int
    requires |flow| == |edges|
  {
    if |edges| == 0 then 0
    else
      var k := |edges| - 1;
      TotalLengthOf(edges[..k], flow[..k]) + (if edges[k].hasAction then flow[k] else 0)
  }

  /** The number of action edges. */
  function ActionCountOf(edges: seq<EdgeRecord>): nat {
    if |edges| == 0 then 0
    else ActionCountOf(edges[..|edges| - 1]) + (if edges[|edges| - 1].hasAction then 1 else 0)
  }

  /** `calculatePathCount()` on a network. */
  function PathCount(n: Network): int
    requires |n.flow| == |n.edges| && |n.adj| > 0
  {
    PathCountOf(n.edges, n.flow, Source(n), n.root)
  }

  /** `calculatePathCoverTotalLength()` on a network. */
  function TotalLength(n: Network): int
    requires |n.flow| == |n.edges|
  {
    TotalLengthOf(n.edges, n.flow)
  }

  /** `calculatePathCount()`. */
  method CalculatePathCount(n: Network) returns (count: int)
    requires Valid(n) && |n.adj| > 0
    ensures count == PathCount(n)
  {
    count := 0;
    var i := 0;
    var src, root := Source(n), n.root;
    while i < EdgeCount(n)
      invariant 0 <= i <= EdgeCount(n) && i % 2 == 0
      invariant count == PathCountOf(n.edges[..i / 2], n.flow[..i / 2], src, root)
    {
      var fwd := GetEdge(n, i);
      ghost var k := i / 2;
      assert n.edges[..k + 1][..k] == n.edges[..k] && n.flow[..k + 1][..k] == n.flow[..k];
      if fwd.from != src && fwd.to == root {
        count := count + fwd.flow + (if fwd.hasAction then 1 else 0);
      }
      i := i + 2;
    }
    assert n.edges[..|n.edges|] == n.edges && n.flow[..|n.flow|] == n.flow;
  }

  /**
   * Counted paths and returning flow move together: when two flows agree on
   * every record into the root that is an action or leaves the source, the
   * path count differs between them exactly as the flow on root-return
   * edges does.
   */
  lemma {:induction false} PathCountDiff(edges: seq<EdgeRecord>, f: seq<int>, g: seq<int>, src: int, root: int)
    requires |f| == |edges| && |g| == |edges|
    requires forall k :: 0 <= k < |edges| && edges[k].to == root && (edges[k].hasAction || edges[k].from == src) ==> f[k] == g[k]
    ensures PathCountOf(edges, f, src, root) - PathCountOf(edges, g, src, root)
      == HeuristicNetworkPathOptimizer.ReturnFlowOf(edges, f, root) - HeuristicNetworkPathOptimizer.ReturnFlowOf(edges, g, root)
    decreases |edges|
  {
    if |edges| > 0 {
      var k := |edges| - 1;
      PathCountDiff(edges[..k], f[..k], g[..k], src, root);
    }
  }

  /**
   * The optimizer's promise in the terms of `calculatePathCount()`: a
   * rerouting that leaves the records into the root that are actions or
   * leave the source alone does not raise the number of paths.
   */
  lemma PathCountFalls(n: Network, m: Network)
    requires |n.adj| > 0 && HeuristicNetworkPathOptimizer.Rerouted(n, m)
    requires forall k :: 0 <= k < |n.edges| && n.edges[k].to == n.root && (n.edges[k].hasAction || n.edges[k].from == Source(n)) ==> m.flow[k] == n.flow[k]
    ensures PathCount(m) <= PathCount(n)
  {
    PathCountDiff(n.edges, m.flow, n.flow, Source(n), n.root);
  }

  /** `calculatePathCoverTotalLength()`. */
  method CalculatePathCoverTotalLength(n: Network) returns (total: int)
    requires Valid(n)
    ensures total == TotalLength(n)
  {
    total := 0;
    var i := 0;
    while i < EdgeCount(n)
      invariant 0 <= i <= EdgeCount(n) && i % 2 == 0
      invariant total == TotalLengthOf(n.edges[..i / 2], n.flow[..i / 2])
    {
      var fwd := GetEdge(n, i);
      ghost var k := i / 2;
      assert n.edges[..k + 1][..k] == n.edges[..k] && n.flow[..k + 1][..k] == n.flow[..k];
      if fwd.hasAction {
        total := total + fwd.flow;
      }
      i := i + 2;
    }
    assert n.edges[..|n.edges|] == n.edges && n.flow[..|n.flow|] == n.flow;
  }

  /** The flow after adding one unit to every action edge. */
  function CirculatedFlow(edges: seq<EdgeRecord>, flow: seq<int>): (f: seq<int>)
    requires |flow| == |edges|
    ensures |f| == |flow|
  {
    seq(|flow|, k requires 0 <= k < |flow| => flow[k] + (if edges[k].hasAction then 1 else 0))
  }

  /** The step that closes the flow into a circulation: `incFlow(i, 1)` on the forward view of every action edge. */
  method Circulate(n: Network) returns (m: Network)
    requires Valid(n)
    ensures m == n.(flow := CirculatedFlow(n.edges, n.flow))
    ensures Valid(m)
    ensures TotalLength(m) == TotalLength(n) + ActionCountOf(n.edges)
  {
    m := n;
    var i := 0;
    while i < EdgeCount(n)
      invariant 0 <= i <= EdgeCount(n) && i % 2 == 0
      invariant m == n.(flow := m.flow) && |m.flow| == |n.flow|
      invariant forall k :: 0 <= k < i / 2 ==> m.flow[k] == n.flow[k] + (if n.edges[k].hasAction then 1 else 0)
      invariant forall k :: i / 2 <= k < |n.flow| ==> m.flow[k] == n.flow[k]
    {
      var fwd := GetEdge(m, i);
      if fwd.hasAction {
        m := IncFlow(m, i, 1);
      }
      i := i + 2;
    }
    CirculationLength(n.edges, n.flow);
  }

  /** The +1 step raises the total length by exactly the number of action edges. */
  lemma {:induction false} CirculationLength(edges: seq<EdgeRecord>, flow: seq<int>)
    requires |flow| == |edges|
    ensures TotalLengthOf(edges, CirculatedFlow(edges, flow)) == TotalLengthOf(edges, flow) + ActionCountOf(edges)
    decreases |edges|
  {
    if |edges| > 0 {
      var k := |edges| - 1;
      CirculationLength(edges[..k], flow[..k]);
      assert CirculatedFlow(edges, flow)[..k] == CirculatedFlow(edges[..k], flow[..k]);
    }
  }

  // ---------------------------------------------------------------------------
  // The cycle check

  /** The node view e ends at, or -1 when e is not an edge index. */
  function Head(n: Network, e: int): int {
    if 0 <= e < EdgeCount(n) then ViewTo(n, e) else -1
  }

  /** The forward views the cycle check follows: no return edge into root, no edge into the sink, no self-loop. */
  predicate Followed(n: Network, e: int) {
    && 0 <= e < EdgeCount(n) && |n.adj| > 0
    && e % 2 == 0
    && !(ViewTo(n, e) == n.root && !n.edges[e / 2].hasAction)
    && ViewTo(n, e) != Sink(n)
    && ViewTo(n, e) != ViewFrom(n, e)
  }

  /** A followed edge leads from u to w. */
  ghost predicate Step(n: Network, u: int, w: int) {
    0 <= u < |n.adj| && exists j :: 0 <= j < |n.adj[u]| && Followed(n, n.adj[u][j]) && Head(n, n.adj[u][j]) == w
  }

  /** A non-empty node sequence whose neighbours are joined by followed edges. */
  ghost predicate IsStepPath(n: Network, p: seq<int>) {
    |p| > 0 && forall i :: 0 <= i < |p| - 1 ==> Step(n, p[i], p[i + 1])
  }

  /** A closed walk of followed edges through c[0], c[1], ... back to c[0]. */
  ghost predicate IsCycle(n: Network, c: seq<int>) {
    IsStepPath(n, c) && Step(n, c[|c| - 1], c[0])
  }

  /** Some cycle of followed edges can be reached from root. */
  ghost predicate CycleReachable(n: Network) {
    exists c, p :: IsCycle(n, c) && IsStepPath(n, p) && p[0] == n.root && p[|p| - 1] == c[0]
  }

  /** White 0, gray 1, black 2, one colour per node. */
  ghost predicate Colouring(n: Network, color: seq<int>) {
    |color| == |n.adj| && forall u :: 0 <= u < |color| ==> 0 <= color[u] <= 2
  }

  /**
   * The black nodes, with the order they finished in, every followed edge
   * from a black node ending at a black node that finished earlier.
   */
  ghost predicate Ranked(n: Network, color: seq<int>, fin: map<int, nat>, clock: nat) {
    && (forall u :: 0 <= u < |color| ==> (color[u] == 2 <==> u in fin))
    && (forall u :: u in fin ==> 0 <= u < |color| && fin[u] < clock)
    && (forall u, j :: u in fin && 0 <= u < |n.adj| && 0 <= j < |n.adj[u]| && Followed(n, n.adj[u][j]) ==>
          Head(n, n.adj[u][j]) in fin && fin[Head(n, n.adj[u][j])] < fin[u])
  }

  /** The gray nodes are exactly those of `path`, a followed path from root. */
  ghost predicate GrayPath(n: Network, color: seq<int>, path: seq<int>) {
    && (forall u :: 0 <= u < |color| ==> (color[u] == 1 <==> u in path))
    && (|path| > 0 ==> IsStepPath(n, path) && path[0] == n.root)
  }

  /** The number of white nodes. */
  function WhiteCount(color: seq<int>): nat {
    if |color| == 0 then 0 else WhiteCount(color[..|color| - 1]) + (if color[|color| - 1] == 0 then 1 else 0)
  }

  /** Darkening colours never adds white nodes, and darkening a white one removes it. */
  lemma {:induction false} WhiteCountShrinks(c1: seq<int>, c2: seq<int>, v: int)
    requires |c1| == |c2|
    requires forall u :: 0 <= u < |c1| ==> 0 <= c1[u] <= c2[u]
    ensures WhiteCount(c2) <= WhiteCount(c1)
    ensures 0 <= v < |c1| && c1[v] == 0 && c2[v] != 0 ==> WhiteCount(c2) < WhiteCount(c1)
    decreases |c1|
  {
    if |c1| > 0 {
      var k := |c1| - 1;
      WhiteCountShrinks(c1[..k], c2[..k], v);
    }
  }

  /** Colouring a white node gray extends the gray path by that node. */
  lemma GrayStart(n: Network, color: seq<int>, path: seq<int>, v: int)
    requires Colouring(n, color) && GrayPath(n, color, path)
    requires 0 <= v < |color| && color[v] == 0
    requires |path| == 0 ==> v == n.root
    requires |path| > 0 ==> Step(n, path[|path| - 1], v)
    ensures Colouring(n, color[v := 1]) && GrayPath(n, color[v := 1], path + [v])
  {
    var gray := path + [v];
    forall i | 0 <= i < |gray| - 1 ensures Step(n, gray[i], gray[i + 1]) {
      if i < |path| - 1 {
        assert gray[i] == path[i] && gray[i + 1] == path[i + 1];
      }
    }
    var c := color[v := 1];
    forall u | 0 <= u < |c| ensures (c[u] == 1 <==> u in gray) {
      assert u in gray <==> u in path || u == v;
    }
  }

  /** Colouring the last gray node black leaves the rest of the gray path. */
  lemma GrayFinish(n: Network, color: seq<int>, path: seq<int>, v: int)
    requires Colouring(n, color) && GrayPath(n, color, path + [v])
    requires 0 <= v < |color| && v !in path
    requires |path| > 0 ==> path[0] == n.root
    ensures Colouring(n, color[v := 2]) && GrayPath(n, color[v := 2], path)
  {
    var gray := path + [v];
    if |path| > 0 {
      forall i | 0 <= i < |path| - 1 ensures Step(n, path[i], path[i + 1]) {
        assert gray[i] == path[i] && gray[i + 1] == path[i + 1];
      }
    }
    var c := color[v := 2];
    forall u | 0 <= u < |c| ensures (c[u] == 1 <==> u in path) {
      assert u in gray <==> u in path || u == v;
    }
  }

  /** Finishing v, all of whose followed successors are black, keeps the ranking. */
  lemma FinishRanked(n: Network, color: seq<int>, fin: map<int, nat>, clock: nat, v: int)
    requires Ready(n) && Colouring(n, color) && Ranked(n, color, fin, clock)
    requires 0 <= v < |color| && color[v] == 1
    requires forall j :: 0 <= j < |n.adj[v]| && Followed(n, n.adj[v][j]) ==> color[Head(n, n.adj[v][j])] == 2
    ensures Colouring(n, color[v := 2]) && Ranked(n, color[v := 2], fin[v := clock], clock + 1)
  {
    var c, f := color[v := 2], fin[v := clock];
    forall u, j | u in f && 0 <= u < |n.adj| && 0 <= j < |n.adj[u]| && Followed(n, n.adj[u][j])
      ensures Head(n, n.adj[u][j]) in f && f[Head(n, n.adj[u][j])] < f[u]
    {
      var w := Head(n, n.adj[u][j]);
      if u == v {
        assert color[w] == 2 && w in fin;
      } else {
        assert u in fin;
        assert w in fin;
      }
    }
  }

  /** The gray node `to` sits on the gray path. */
  lemma GrayIndex(n: Network, color: seq<int>, gray: seq<int>, to: int) returns (k: int)
    requires Colouring(n, color) && GrayPath(n, color, gray)
    requires 0 <= to < |color| && color[to] == 1
    ensures 0 <= k < |gray| && gray[k] == to
  {
    k :| 0 <= k < |gray| && gray[k] == to;
  }

  /** A followed edge from the end of a path back onto it closes a cycle. */
  lemma CycleFromGrayPath(n: Network, gray: seq<int>, k: int, to: int)
    requires IsStepPath(n, gray)
    requires 0 <= k < |gray| && gray[k] == to
    requires Step(n, gray[|gray| - 1], to)
    ensures IsCycle(n, gray[k..])
    ensures IsStepPath(n, gray[..k + 1]) && gray[..k + 1][k] == gray[k..][0]
  {
    var c := gray[k..];
    forall i | 0 <= i < |c| - 1 ensures Step(n, c[i], c[i + 1]) {
      assert c[i] == gray[k + i] && c[i + 1] == gray[k + i + 1];
    }
    var p := gray[..k + 1];
    forall i | 0 <= i < |p| - 1 ensures Step(n, p[i], p[i + 1]) {
      assert p[i] == gray[i] && p[i + 1] == gray[i + 1];
    }
  }

  /** What one call of the depth-first search promises about the colouring and its witnesses. */
  ghost predicate DfsOutcome(n: Network, v: int, color: seq<int>, path: seq<int>, ok: bool, color': seq<int>,
                             fin': map<int, nat>, clock': nat, cyc: seq<int>, pre: seq<int>)
  {
    && Colouring(n, color')
    && |color| == |color'|
    && (forall u :: 0 <= u < |color| ==> color[u] <= color'[u])
    && (ok ==> 0 <= v < |color'| && color'[v] == 2 && Ranked(n, color', fin', clock') && GrayPath(n, color', path))
    && (!ok ==> IsCycle(n, cyc) && IsStepPath(n, pre) && pre[0] == n.root && pre[|pre| - 1] == cyc[0])
  }

  /**
   * `checkAcyclicDfs(v, color)`: colours v gray, follows its forward edges
   * (skipping return edges into root, edges into the sink and self-loops),
   * fails on reaching a gray node and colours v black when done.
   */
  method CheckAcyclicDfs(n: Network, v: int, color: seq<int>, ghost path: seq<int>, ghost fin: map<int, nat>, ghost clock: nat)
    returns (ok: bool, color': seq<int>, ghost fin': map<int, nat>, ghost clock': nat, ghost cyc: seq<int>, ghost pre: seq<int>)
    requires Ready(n) && Colouring(n, color)
    requires 0 <= v < |color| && color[v] == 0
    requires Ranked(n, color, fin, clock) && GrayPath(n, color, path)
    requires |path| == 0 ==> v == n.root
    requires |path| > 0 ==> Step(n, path[|path| - 1], v)
    ensures DfsOutcome(n, v, color, path, ok, color', fin', clock', cyc, pre)
    ensures Colouring(n, color') && forall u :: 0 <= u < |color| ==> color[u] <= color'[u]
    ensures ok ==> color'[v] == 2
    decreases WhiteCount(color), 0, 0
  {
    GrayStart(n, color, path, v);
    WhiteCountShrinks(color, color[v := 1], v);
    ok, color', fin', clock', cyc, pre := VisitEdges(n, v, 0, color[v := 1], path + [v], fin, clock);
    if ok {
      assert v !in path;
      GrayFinish(n, color', path, v);
      FinishRanked(n, color', fin', clock', v);
      color' := color'[v := 2];
      fin' := fin'[v := clock'];
      clock' := clock' + 1;
    }
  }

  /** The edge loop of `checkAcyclicDfs(v, color)` from position i of v's adjacency list on. */
  method VisitEdges(n: Network, v: int, i: nat, color: seq<int>, ghost gray: seq<int>, ghost fin: map<int, nat>, ghost clock: nat)
    returns (ok: bool, color': seq<int>, ghost fin': map<int, nat>, ghost clock': nat, ghost cyc: seq<int>, ghost pre: seq<int>)
    requires Ready(n) && Colouring(n, color)
    requires 0 <= v < |n.adj| && i <= |n.adj[v]| && color[v] == 1
    requires Ranked(n, color, fin, clock) && GrayPath(n, color, gray)
    requires |gray| > 0 && gray[|gray| - 1] == v
    requires forall j :: 0 <= j < i && Followed(n, n.adj[v][j]) ==> color[Head(n, n.adj[v][j])] == 2
    ensures Colouring(n, color') && forall u :: 0 <= u < |color| ==> color[u] <= color'[u]
    ensures ok ==> color'[v] == 1 && Ranked(n, color', fin', clock') && GrayPath(n, color', gray)
    ensures ok ==> forall j :: 0 <= j < |n.adj[v]| && Followed(n, n.adj[v][j]) ==> color'[Head(n, n.adj[v][j])] == 2
    ensures !ok ==> IsCycle(n, cyc) && IsStepPath(n, pre) && pre[0] == n.root && pre[|pre| - 1] == cyc[0]
    decreases WhiteCount(color), 2, |n.adj[v]| - i
  {
    if i == |n.adj[v]| {
      return true, color, fin, clock, [], [];
    }
    var sub: bool;
    sub, color', fin', clock', cyc, pre := VisitEdge(n, v, n.adj[v][i], color, gray, fin, clock);
    if !sub {
      return false, color', fin', clock', cyc, pre;
    }
    WhiteCountShrinks(color, color', v);
    ok, color', fin', clock', cyc, pre := VisitEdges(n, v, i + 1, color', gray, fin', clock');
  }

  /**
   * One iteration of the edge loop of `checkAcyclicDfs`: skip the edge if it
   * is not followed, fail on a gray target, descend into a white one.
   */
  method VisitEdge(n: Network, v: int, eId: int, color: seq<int>, ghost gray: seq<int>, ghost fin: map<int, nat>, ghost clock: nat)
    returns (ok: bool, color': seq<int>, ghost fin': map<int, nat>, ghost clock': nat, ghost cyc: seq<int>, ghost pre: seq<int>)
    requires Ready(n) && Colouring(n, color)
    requires 0 <= v < |n.adj| && eId in n.adj[v] && color[v] == 1
    requires Ranked(n, color, fin, clock) && GrayPath(n, color, gray)
    requires |gray| > 0 && gray[|gray| - 1] == v
    ensures Colouring(n, color') && forall u :: 0 <= u < |color| ==> color[u] <= color'[u]
    ensures ok ==> color'[v] == 1 && Ranked(n, color', fin', clock') && GrayPath(n, color', gray)
    ensures ok && Followed(n, eId) ==> color'[Head(n, eId)] == 2
    ensures !ok ==> IsCycle(n, cyc) && IsStepPath(n, pre) && pre[0] == n.root && pre[|pre| - 1] == cyc[0]
    decreases WhiteCount(color), 1, 0
  {
    color', fin', clock', cyc, pre := color, fin, clock, [], [];
    if !Followed(n, eId) {
      return true, color', fin', clock', cyc, pre;
    }
    var to := ViewTo(n, eId);
    var j :| 0 <= j < |n.adj[v]| && n.adj[v][j] == eId;
    assert Step(n, v, to) by {
      assert Followed(n, n.adj[v][j]) && Head(n, n.adj[v][j]) == to;
    }
    if color[to] == 1 {
      // a back edge: `to` is on the gray path, which closes a cycle
      var k := GrayIndex(n, color, gray, to);
      CycleFromGrayPath(n, gray, k, to);
      return false, color, fin, clock, gray[k..], gray[..k + 1];
    }
    if color[to] == 0 {
      ok, color', fin', clock', cyc, pre := CheckAcyclicDfs(n, to, color, gray, fin, clock);
      if ok {
        assert v in gray;
      }
      return;
    }
    ok := true;
  }

  /** A step out of a finished node leads to a node that finished earlier. */
  lemma StepRanked(n: Network, color: seq<int>, fin: map<int, nat>, clock: nat, u: int, w: int)
    requires Ranked(n, color, fin, clock)
    requires u in fin && Step(n, u, w)
    ensures w in fin && fin[w] < fin[u]
  {
    var j :| 0 <= j < |n.adj[u]| && Followed(n, n.adj[u][j]) && Head(n, n.adj[u][j]) == w;
  }

  /** Finishing ranks strictly fall along a followed path. */
  lemma RanksFall(n: Network, color: seq<int>, fin: map<int, nat>, clock: nat, p: seq<int>)
    requires Ranked(n, color, fin, clock)
    requires IsStepPath(n, p) && p[0] in fin
    ensures p[|p| - 1] in fin && fin[p[|p| - 1]] + |p| - 1 <= fin[p[0]]
  {
    var i := 0;
    while i < |p| - 1
      invariant 0 <= i <= |p| - 1
      invariant p[i] in fin && fin[p[i]] + i <= fin[p[0]]
    {
      StepRanked(n, color, fin, clock, p[i], p[i + 1]);
      i := i + 1;
    }
  }

  /** So no cycle runs through a black node. */
  lemma NoBlackCycle(n: Network, color: seq<int>, fin: map<int, nat>, clock: nat, c: seq<int>)
    requires Ranked(n, color, fin, clock)
    requires IsCycle(n, c)
    ensures c[0] !in fin
  {
    if c[0] in fin {
      var first, last := c[0], c[|c| - 1];
      RanksFall(n, color, fin, clock, c);
      StepRanked(n, color, fin, clock, last, first);
      assert false;
    }
  }

  /** `isGraphAcyclic()`: true exactly when no cycle of followed edges is reachable from root. */
  method IsGraphAcyclic(n: Network) returns (acyclic: bool)
    requires Ready(n)
    ensures acyclic <==> !CycleReachable(n)
  {
    var color := seq(NodeCount(n), _ => 0);
    ghost var cyc, pre, fin, clock;
    acyclic, color, fin, clock, cyc, pre := CheckAcyclicDfs(n, n.root, color, [], map[], 0);
    if acyclic {
      if CycleReachable(n) {
        var c, p :| IsCycle(n, c) && IsStepPath(n, p) && p[0] == n.root && p[|p| - 1] == c[0];
        RanksFall(n, color, fin, clock, p);
        NoBlackCycle(n, color, fin, clock, c);
      }
    }
  }

  /** With no record leaving the root, the cycle check has nowhere to go: no cycle is reachable. */
  lemma NoEdgeFromRoot(n: Network)
    requires Ready(n) && forall k :: 0 <= k < |n.edges| ==> n.edges[k].from != n.root
    ensures !CycleReachable(n)
  {
    forall c, p | IsCycle(n, c) && IsStepPath(n, p) && p[0] == n.root && p[|p| - 1] == c[0]
      ensures exists w :: Step(n, n.root, w)
    {
      if |p| > 1 {
        assert Step(n, p[0], p[1]);
      } else if |c| > 1 {
        assert Step(n, c[0], c[1]);
      }
    }
    forall w
      ensures !Step(n, n.root, w)
    {
      forall j | 0 <= j < |n.adj[n.root]|
        ensures !Followed(n, n.adj[n.root][j])
      {
        AdjView(n, n.root, j);
      }
    }
  }

  /** An action record between two different nodes, not into the sink, is a step the cycle check follows. */
  lemma ActionIsStep(n: Network, k: int)
    requires Valid(n) && |n.adj| > 0 && 0 <= k < |n.edges| && n.edges[k].hasAction
    requires n.edges[k].to != Sink(n) && n.edges[k].from != n.edges[k].to
    ensures Step(n, n.edges[k].from, n.edges[k].to)
  {
    ListedView(n, 2 * k);
    var j :| 0 <= j < |n.adj[n.edges[k].from]| && n.adj[n.edges[k].from][j] == 2 * k;
    assert Followed(n, n.adj[n.edges[k].from][j]);
  }

  /** When no action record ends at the sink, a path of action records is a path the cycle check follows. */
  lemma ActionPathIsStepPath(n: Network, p: seq<int>)
    requires Valid(n) && |n.adj| > 0 && NaiveMaxFlowSolver.ActionPath(n.edges, p)
    requires forall k :: 0 <= k < |n.edges| && n.edges[k].hasAction ==> n.edges[k].to != Sink(n)
    ensures IsStepPath(n, p)
  {
    forall i | 0 <= i < |p| - 1
      ensures Step(n, p[i], p[i + 1])
    {
      assert NaiveMaxFlowSolver.ActionStep(n.edges, p[i], p[i + 1]);
      var k :| 0 <= k < |n.edges| && n.edges[k].hasAction && n.edges[k].from == p[i] && n.edges[k].to == p[i + 1];
      ActionIsStep(n, k);
    }
  }

  /** An action record back into the root from a reached node other than the root closes a cycle the check can reach. */
  lemma ReturnActionCycles(n: Network, k: int)
    requires Ready(n) && 0 <= k < |n.edges| && n.edges[k].hasAction
    requires forall j :: 0 <= j < |n.edges| && n.edges[j].hasAction ==> n.edges[j].to != Sink(n)
    requires n.edges[k].to == n.root && n.edges[k].from != n.root
    requires NaiveMaxFlowSolver.Reached(n.edges, n.root, n.edges[k].from)
    ensures CycleReachable(n)
  {
    var p :| NaiveMaxFlowSolver.ActionPath(n.edges, p) && p[0] == n.root && p[|p| - 1] == n.edges[k].from;
    ActionPathIsStepPath(n, p);
    ActionIsStep(n, k);
    assert IsCycle(n, p);
    assert IsStepPath(n, [n.root]);
  }

  /**
   * On a reduced network of at least one state with no reachable cycle, every
   * action record leaving a reached node ends at a node with a record into
   * the root: a return edge, or the record itself when it is a self-loop on
   * the root.
   */
  lemma AcyclicHomeBound(n0: Network, m: Network)
    requires Unreduced(n0) && NodeCount(n0) >= 2
    requires Valid(m) && NodeCount(m) == NodeCount(n0) + 1 && m.source == 0 && m.sink == -1 && m.root == 1
    requires |m.edges| >= |n0.edges| && m.edges[..|n0.edges|] == n0.edges
    requires forall e :: e in m.edges[|n0.edges|..] <==>
      IsReductionEdge(DiffsOf(n0.edges, NodeCount(m)), Source(m), Sink(m), m.root, NodeCount(m), e)
    requires !CycleReachable(m)
    ensures NaiveMaxFlowSolver.HomeBound(m.edges, m.root)
  {
    var count := NodeCount(m);
    var added := m.edges[|n0.edges|..];
    assert Source(m) == 0 && Sink(m) == count - 1;
    forall k | |n0.edges| <= k < |m.edges|
      ensures !m.edges[k].hasAction
    {
      assert m.edges[k] == added[k - |n0.edges|] && added[k - |n0.edges|] in added;
    }
    forall k | 0 <= k < |m.edges| && m.edges[k].hasAction
      ensures k < |n0.edges| && m.edges[k] == n0.edges[k] && 1 <= m.edges[k].from < count - 1 && 1 <= m.edges[k].to < count - 1
    {
      assert m.edges[k] == m.edges[..|n0.edges|][k];
    }
    forall k | 0 <= k < |m.edges| && m.edges[k].hasAction && NaiveMaxFlowSolver.Reached(m.edges, m.root, m.edges[k].from)
      ensures NaiveMaxFlowSolver.Homes(m.edges, m.root, m.edges[k].to)
    {
      var e := m.edges[k];
      if e.to != m.root {
        var ret := EdgeRecord(e.to, m.root, INF / 2, false);
        assert IsReductionEdge(DiffsOf(n0.edges, count), Source(m), Sink(m), m.root, count, ret);
        var i :| 0 <= i < |added| && added[i] == ret;
        assert m.edges[|n0.edges| + i] == ret;
      } else if e.from != m.root {
        ReturnActionCycles(m, k);
        assert false;
      }
    }
  }

  // ---------------------------------------------------------------------------
  // The pipeline

  /** What `extractPaths()` returns: the path extractor that suits the graph's shape. */
  datatype PathSource =
    | Acyclic(acyclic: AcyclicFlowPathExtractor.Extractor)
    | Euler(euler: EulerFlowPathExtractor.Extractor)

  /** A reachable cycle starts with a step out of the root, so the root has an adjacent edge for the Euler extractor. */
  lemma CycleLeavesRoot(n: Network)
    requires CycleReachable(n)
    ensures 0 <= n.root < |n.adj| && |n.adj[n.root]| > 0
  {
    var c, p :| IsCycle(n, c) && IsStepPath(n, p) && p[0] == n.root && p[|p| - 1] == c[0];
    if |p| > 1 {
      assert Step(n, p[0], p[1]);
    } else if |c| > 1 {
      assert Step(n, c[0], c[1]);
    } else {
      assert Step(n, c[0], c[0]);
    }
  }

  /** The network with one extra unit on every action edge, as `Circulate` leaves it. */
  function Circulated(n: Network): (c: Network)
    requires |n.flow| == |n.edges|
    ensures c == n.(flow := c.flow) && |c.flow| == |n.flow|
    ensures forall k :: 0 <= k < |n.flow| ==> c.flow[k] == n.flow[k] + (if n.edges[k].hasAction then 1 else 0)
  {
    n.(flow := CirculatedFlow(n.edges, n.flow))
  }

  /**
   * `extractPaths()`: reduces the graph to a flow network, tests it for
   * cycles, routes a maximum flow (the naive solver on an acyclic graph,
   * Dinic's otherwise), on an acyclic graph lets the heuristic optimizer
   * reroute paths for min(8, depth - 1) rounds and keeps the smaller path
   * count, turns the flow into a circulation and hands the network to the
   * acyclic or the Eulerian extractor. `depth` is the model checker's trace
   * depth (INF when it has none); `fuel` bounds Dinic's phases together
   * with the pushes of each blocking flow, one unit per push. The ghost
   * results are the reduced network, the network after the solver and the
   * network after the optimizer.
   */
  method ExtractPaths(x: Extractor, depth: int, fuel: nat)
    returns (r: Result<PathSource>, ghost built: Network, ghost flowed: Network, ghost solved: Network)
    requires Built(x) && NodeCount(x.net) + 1 < INF
    ensures r.Fail? <==> x.net.shutDown
    ensures x.net.shutDown ==> r == Fail(IllegalState(ShutDownMessage))
    ensures !x.net.shutDown ==>
      && Ready(built) && built.shutDown && NodeCount(built) == NodeCount(x.net) + 1
      && |built.edges| >= |x.net.edges| && built.edges[..|x.net.edges|] == x.net.edges
      && flowed == built.(flow := flowed.flow) && solved == built.(flow := solved.flow)
      && FlowBounded(built) && |flowed.flow| == |solved.flow| == |built.flow|
    ensures r.Ok? ==> (r.value.Acyclic? <==> !CycleReachable(built))
    ensures r.Ok? && r.value.Acyclic? && NodeCount(x.net) >= 2 ==>
      && Conserved(flowed, Source(built), Sink(built))
      && forall k :: 0 <= k < |built.edges| && built.edges[k].hasAction && !NaiveMaxFlowSolver.Entered(built, built.edges[k].from) ==>
           flowed.flow[k] == -1
    ensures r.Ok? && r.value.Acyclic? && NodeCount(x.net) >= 2 ==>
      forall k :: 0 <= k < |built.edges| && built.edges[k].hasAction && NaiveMaxFlowSolver.Reached(built.edges, built.root, built.edges[k].from) ==>
        Circulated(solved).flow[k] >= 1
    ensures r.Ok? && r.value.Acyclic? && NodeCount(x.net) >= 2 && AllReached(x.net) ==>
      forall k :: 0 <= k < |built.edges| && built.edges[k].hasAction ==> Circulated(solved).flow[k] >= 1
    ensures r.Ok? && r.value.Acyclic? ==>
      && (FlowBounded(flowed) ==> HeuristicNetworkPathOptimizer.Rerouted(flowed, solved))
      && (!FlowBounded(flowed) ==> solved == flowed)
      && r.value.acyclic.pathCount == Min(PathCount(flowed), PathCount(solved))
      && r.value.acyclic == AcyclicFlowPathExtractor.New(Circulated(solved), r.value.acyclic.pathCount)
    ensures r.Ok? && r.value.Euler? ==> 0 <= built.root < |built.adj| && |built.adj[built.root]| > 0
    ensures r.Ok? && r.value.Euler? ==>
      && DinicMaxFlowSolver.Improves(built, flowed) && solved == flowed
      && r.value.euler == EulerFlowPathExtractor.New(Circulated(solved))
  {
    built, flowed, solved := x.net, x.net, x.net;
    var c :- ConstructNetwork(x.net);
    built := c;
    var acyclic := IsGraphAcyclic(c);
    var m, f, pathCount;
    if acyclic {
      f, m, pathCount := SolveAcyclic(x.net, c, depth);
    } else {
      var done;
      m, done := DinicMaxFlowSolver.FindMaxFlow(c, fuel);
      f := m;
      pathCount := CalculatePathCount(m);
    }
    flowed, solved := f, m;
    m := Circulate(m);
    if acyclic {
      r := Ok(Acyclic(AcyclicFlowPathExtractor.New(m, pathCount)));
    } else {
      CycleLeavesRoot(c);
      r := Ok(Euler(EulerFlowPathExtractor.New(m)));
    }
  }

  /**
   * The acyclic branch of `extractPaths()` up to the circulation: the naive
   * solver, then, on a flow within bounds, the heuristic optimizer for
   * min(8, depth - 1) rounds, keeping the smaller of the two path counts.
   * `c` is what `constructNetwork()` made of the built network `n0`.
   */
  method SolveAcyclic(n0: Network, c: Network, depth: int) returns (flowed: Network, solved: Network, pathCount: int)
    requires Unreduced(n0) && Ready(c) && !CycleReachable(c)
    requires NodeCount(c) == NodeCount(n0) + 1 && c.root == n0.root && c.source == n0.source && c.sink == n0.sink
    requires |c.edges| >= |n0.edges| && c.edges[..|n0.edges|] == n0.edges
    requires |c.flow| == |c.edges| && c.flow[..|n0.edges|] == n0.flow && forall k :: |n0.edges| <= k < |c.flow| ==> c.flow[k] == 0
    requires forall e :: e in c.edges[|n0.edges|..] <==>
      IsReductionEdge(DiffsOf(n0.edges, NodeCount(c)), Source(c), Sink(c), c.root, NodeCount(c), e)
    requires c.edges == n0.edges + Reduction(DiffsOf(n0.edges, NodeCount(c)), Source(c), Sink(c), n0.root, NodeCount(c))
    ensures flowed == c.(flow := flowed.flow) && solved == c.(flow := solved.flow) && |flowed.flow| == |solved.flow| == |c.flow|
    ensures NodeCount(n0) >= 2 ==>
      && Conserved(flowed, Source(c), Sink(c))
      && forall k :: 0 <= k < |c.edges| && c.edges[k].hasAction && !NaiveMaxFlowSolver.Entered(c, c.edges[k].from) ==>
           flowed.flow[k] == -1
    ensures NodeCount(n0) >= 2 ==>
      forall k :: 0 <= k < |c.edges| && c.edges[k].hasAction && NaiveMaxFlowSolver.Reached(c.edges, c.root, c.edges[k].from) ==>
        Circulated(solved).flow[k] >= 1
    ensures NodeCount(n0) >= 2 && AllReached(n0) ==>
      forall k :: 0 <= k < |c.edges| && c.edges[k].hasAction ==> Circulated(solved).flow[k] >= 1
    ensures FlowBounded(flowed) ==> HeuristicNetworkPathOptimizer.Rerouted(flowed, solved)
    ensures !FlowBounded(flowed) ==> solved == flowed
    ensures pathCount == Min(PathCount(flowed), PathCount(solved))
  {
    if NodeCount(n0) >= 2 {
      ReducedShape(n0, c);
      AcyclicHomeBound(n0, c);
    }
    var m, searched := NaiveMaxFlowSolver.FindMaxFlow(c);
    flowed := m;
    pathCount := CalculatePathCount(m);
    var newPathCount := pathCount;
    if FlowBounded(m) {
      m := HeuristicNetworkPathOptimizer.OptimizePaths(m, Min(8, depth - 1));
      newPathCount := CalculatePathCount(m);
    }
    solved := m;
    if newPathCount < pathCount {
      pathCount := newPathCount;
    }
    if NodeCount(n0) >= 2 {
      ReachedCircled(c, searched, flowed, solved);
      if AllReached(n0) {
        AllReachedActions(n0, c);
      }
    }
  }

  /**
   * After the naive solver on a reduced network where every action record
   * leaving a reached node has a way home, and after the optimizer (or
   * without it), every action record leaving a reached node carries at least
   * one unit in the circulation: the search gave it one, the closing pass
   * took one off, and the circulation puts it back.
   */
  lemma ReachedCircled(c: Network, searched: Network, flowed: Network, solved: Network)
    requires NaiveMaxFlowSolver.Shaped(c) && NaiveMaxFlowSolver.HomeBound(c.edges, c.root)
    requires NaiveMaxFlowSolver.FlowsGrow(c, searched)
    requires flowed == c.(flow := flowed.flow) && |flowed.flow| == |c.flow|
    requires forall k :: 0 <= k < |c.edges| ==> flowed.flow[k] == searched.flow[k] + NaiveMaxFlowSolver.PostShift(c, k)
    requires forall k :: 0 <= k < |c.edges| && c.edges[k].hasAction && NaiveMaxFlowSolver.Reached(c.edges, c.root, c.edges[k].from) ==>
      searched.flow[k] >= 1
    requires solved == c.(flow := solved.flow) && |solved.flow| == |c.flow|
    requires (FlowBounded(flowed) ==> HeuristicNetworkPathOptimizer.Rerouted(flowed, solved)) && (!FlowBounded(flowed) ==> solved == flowed)
    ensures forall k :: 0 <= k < |c.edges| && c.edges[k].hasAction && NaiveMaxFlowSolver.Reached(c.edges, c.root, c.edges[k].from) ==>
      Circulated(solved).flow[k] >= 1
  {
    forall k | 0 <= k < |c.edges| && c.edges[k].hasAction && NaiveMaxFlowSolver.Reached(c.edges, c.root, c.edges[k].from)
      ensures Circulated(solved).flow[k] >= 1
    {
      assert NaiveMaxFlowSolver.ShapedRecord(c.edges[k], Source(c), Sink(c), c.root);
      assert flowed.flow[k] >= 0;
    }
  }

  /** The records the reduction appends carry no action, so an action record of the reduced network is one of the built network's. */
  lemma ReductionActionFree(n0: Network, c: Network, k: int)
    requires NodeCount(c) > 0 && |c.edges| >= |n0.edges| && 0 <= k < |c.edges|
    requires forall e :: e in c.edges[|n0.edges|..] <==>
      IsReductionEdge(DiffsOf(n0.edges, NodeCount(c)), Source(c), Sink(c), c.root, NodeCount(c), e)
    ensures c.edges[k].hasAction ==> k < |n0.edges|
  {
    if k >= |n0.edges| {
      var e := c.edges[|n0.edges|..][k - |n0.edges|];
      assert c.edges[k] == e && e in c.edges[|n0.edges|..];
      assert IsReductionEdge(DiffsOf(n0.edges, NodeCount(c)), Source(c), Sink(c), c.root, NodeCount(c), e);
    }
  }

  /** When the builder reached every state from the root, every action record of the reduced network leaves a reached node. */
  lemma AllReachedActions(n0: Network, c: Network)
    requires Unreduced(n0) && AllReached(n0) && NodeCount(c) > 0 && c.root == n0.root
    requires |c.edges| >= |n0.edges| && c.edges[..|n0.edges|] == n0.edges
    requires forall e :: e in c.edges[|n0.edges|..] <==>
      IsReductionEdge(DiffsOf(n0.edges, NodeCount(c)), Source(c), Sink(c), c.root, NodeCount(c), e)
    ensures forall k :: 0 <= k < |c.edges| && c.edges[k].hasAction ==> NaiveMaxFlowSolver.Reached(c.edges, c.root, c.edges[k].from)
  {
    forall k | 0 <= k < |c.edges| && c.edges[k].hasAction
      ensures NaiveMaxFlowSolver.Reached(c.edges, c.root, c.edges[k].from)
    {
      ReductionActionFree(n0, c, k);
      assert c.edges[k] == c.edges[..|n0.edges|][k] == n0.edges[k];
      assert NaiveMaxFlowSolver.Reached(n0.edges, n0.root, n0.edges[k].from);
      ReachedExtends(n0.edges, c.edges, c.root, c.edges[k].from);
    }
  }

  /** The graph of the example below: states 1, 2 and 3 and the one action 2 -> 3. */
  method UnreachedActionGraph() returns (x: Extractor)
    ensures Built(x) && !x.net.shutDown && NodeCount(x.net) == 4 && x.net.root == 1
    ensures x.net.edges == [EdgeRecord(2, 3, INF, true)]
  {
    x := NewExtractor();
    var (x1, s1) := AddState(x, 1).value;
    var (x2, s2) := AddState(x1, 2).value;
    var (x3, t) := AddState(x2, 3).value;
    var (x4, a) := AddAction(x3, 2, 3);
    x := x4;
  }

  /** In the reduced example graph no record leaves the root and only the first is an action. */
  lemma UnreachedActionRecords(n0: Network, m: Network)
    requires n0.edges == [EdgeRecord(2, 3, INF, true)] && m.root == 1 && NodeCount(m) == 5
    requires Source(m) == 0 && Sink(m) == 4
    requires |m.edges| >= 1 && m.edges[..1] == n0.edges
    requires forall e :: e in m.edges[1..] ==>
      IsReductionEdge(DiffsOf(n0.edges, NodeCount(m)), Source(m), Sink(m), m.root, NodeCount(m), e)
    ensures forall k :: 0 <= k < |m.edges| ==> m.edges[k].from != m.root
    ensures forall k :: 1 <= k < |m.edges| ==> !m.edges[k].hasAction
  {
    assert m.edges[0] == n0.edges[0];
    assert DiffsOf(n0.edges, NodeCount(m))[1] == InMinusOut(n0.edges, 1) == 0;
    forall k | 1 <= k < |m.edges|
      ensures m.edges[k].from != m.root && !m.edges[k].hasAction
    {
      assert m.edges[k] in m.edges[1..];
    }
  }

  /**
   * Two initial states s1 and s2 (nodes 1 and 2) and one action from s2 to
   * a state t (node 3). s1 is the root and nothing leads from it to s2, so
   * the graph counts as acyclic, the naive search never reaches the action
   * and the solver leaves -1 on its record: a flow out of bounds, which the
   * Java `extractPaths()` hands to the heuristic optimizer. After the
   * circulation the action carries no unit, so no extracted trail covers it.
   */
  method UnreachedActionExample() returns (acyclic: bool, flowed: Network, circulated: Network)
    ensures acyclic
    ensures |flowed.edges| == |flowed.flow| > 0 && flowed.edges[0] == EdgeRecord(2, 3, INF, true)
    ensures flowed.flow[0] == -1 && !FlowBounded(flowed)
    ensures circulated.edges == flowed.edges && |circulated.flow| == |flowed.flow| && circulated.flow[0] == 0
  {
    var x := UnreachedActionGraph();
    var c := ConstructNetwork(x.net);
    var built := c.value;
    UnreachedActionRecords(x.net, built);
    NoEdgeFromRoot(built);
    acyclic := IsGraphAcyclic(built);
    ReducedShape(x.net, built);
    var searched;
    flowed, searched := NaiveMaxFlowSolver.FindMaxFlow(built);
    assert !NaiveMaxFlowSolver.Entered(built, 2);
    circulated := Circulate(flowed);
  }

  /** States 1 and 2, both initial: the second is linked to the root. */
  method TwoInitialStates() returns (x: Extractor)
    ensures Built(x) && !x.net.shutDown && NodeCount(x.net) == 3 && x.net.root == 1
    ensures x.net.edges == [EdgeRecord(1, 2, INF, true)] && x.net.fpToId == map[1 := 1, 2 := 2]
    ensures AllReached(x.net)
  {
    x := NewExtractor();
    var (x1, s1) := AddInitialState(x, 1).value;
    assert x1.net.edges == [] && AllReached(x1.net);
    var (x2, s2) := AddInitialState(x1, 2).value;
    x := x2;
  }

  /**
   * The same three states built the way `JsonStateWriter` calls the corrected
   * builder: states 1 and 2 are initial and 3 is the successor of 2. The
   * second initial state gets a link from the root, so every state is
   * reached, and by `ExtractPaths` the action 2 -> 3 is covered.
   */
  method ReachedActionGraph() returns (x: Extractor)
    ensures Built(x) && !x.net.shutDown && NodeCount(x.net) == 4 && x.net.root == 1
    ensures x.net.edges == [EdgeRecord(1, 2, INF, true), EdgeRecord(2, 3, INF, true)]
    ensures AllReached(x.net)
  {
    x := TwoInitialStates();
    x := AddSuccessor(x, 2, 3, false, false).value;
  }
}
