/**
 * The flow network (`StateNetwork`): dense node ids with one adjacency list
 * each, and edge records stored once. Edge index 2k is the forward view of
 * record k and 2k+1 its backward (residual) view; both views are listed, the
 * forward one in the adjacency of the record's origin and the backward one in
 * that of its target.
 *
 * The parallel arrays from/to/capacity/hasAction are one sequence of records
 * here, and the flow array is kept apart because `incFlow` is the only thing
 * that changes it: an algorithm that only moves flow returns `n.(flow := f)`.
 */
module StateNetwork {
  import opened Errors
  import opened Sequences

  /** `Integer.MAX_VALUE`, used as "infinite" capacity and as the unreached-distance sentinel. */
  const INF: int := 0x7fff_ffff

  /** `Math.min`. */
  function Min(a: int, b: int): (r: int)
    ensures r <= a && r <= b && (r == a || r == b)
  {
    if a < b then a else b
  }

  /** The structural part of an inserted edge. */
  datatype EdgeRecord = EdgeRecord(from: int, to: int, capacity: int, hasAction: bool)

  datatype Network = Network(
    adj: seq<seq<int>>,
    edges: seq<EdgeRecord>,
    flow: seq<int>,
    fpToId: map<int, int>,
    shutDown: bool,
    source: int,
    sink: int,
    root: int)

  /** What `getEdge(i)` reports about view i. */
  datatype Edge = Edge(from: int, to: int, flow: int, capacity: int, hasAction: bool, isForward: bool)

  /** An entry of an extracted trail (`StateGraphPathExtractor.Edge`): action id and state ids. */
  datatype TrailEdge = TrailEdge(id: int, from: int, to: int)

  /** `getNodeCount()`. */
  function NodeCount(n: Network): nat {
    |n.adj|
  }

  /** `getEdgeCount()`: twice the number of records, so always even. */
  function EdgeCount(n: Network): nat {
    2 * |n.edges|
  }

  /** The index of the other view of the same record (`i ^ 1`). */
  function Twin(i: nat): (j: nat)
    ensures j / 2 == i / 2 && j % 2 != i % 2
  {
    if i % 2 == 0 then i + 1 else i - 1
  }

  /** The other view of the other view is the view itself, and never the same view. */
  lemma TwinInvolution(i: nat)
    ensures Twin(Twin(i)) == i
    ensures Twin(i) != i
  {
  }

  /** Two views of the same record are the same view or twins. */
  lemma SameRecord(i: nat, j: nat)
    requires i / 2 == j / 2
    ensures i == j || i == Twin(j)
  {
  }

  /** A view id of the network. */
  ghost predicate ViewIndex(n: Network, i: int) {
    0 <= i < EdgeCount(n)
  }

  /** `getEdge(i)`: even indices read the record forward, odd ones backward. */
  function GetEdge(n: Network, i: int): (e: Edge)
    requires |n.flow| == |n.edges| && 0 <= i < EdgeCount(n)
    ensures e.isForward <==> i % 2 == 0
    ensures e.capacity == n.edges[i / 2].capacity
  {
    var r := n.edges[i / 2];
    var f := n.flow[i / 2];
    if i % 2 == 0 then Edge(r.from, r.to, f, r.capacity, r.hasAction, true)
    else Edge(r.to, r.from, r.capacity - f, r.capacity, false, false)
  }

  /** The node view i starts at, read off the records alone. */
  function Origin(edges: seq<EdgeRecord>, i: int): int
    requires 0 <= i < 2 * |edges|
  {
    if i % 2 == 0 then edges[i / 2].from else edges[i / 2].to
  }

  /** The node view i ends at. */
  function Target(edges: seq<EdgeRecord>, i: int): int
    requires 0 <= i < 2 * |edges|
  {
    if i % 2 == 0 then edges[i / 2].to else edges[i / 2].from
  }

  /** `getEdge(i).getFrom()`. */
  function ViewFrom(n: Network, i: int): int
    requires 0 <= i < EdgeCount(n)
  {
    Origin(n.edges, i)
  }

  /** `getEdge(i).getTo()`. */
  function ViewTo(n: Network, i: int): int
    requires 0 <= i < EdgeCount(n)
  {
    Target(n.edges, i)
  }

  /** The unused capacity of view i: `capacity - flow` as the view reports them. */
  function Residual(n: Network, i: int): int
    requires |n.flow| == |n.edges| && 0 <= i < EdgeCount(n)
  {
    if i % 2 == 0 then n.edges[i / 2].capacity - n.flow[i / 2] else n.flow[i / 2]
  }

  /** The flow view i reports. */
  function ViewFlow(n: Network, i: int): int
    requires |n.flow| == |n.edges| && 0 <= i < EdgeCount(n)
  {
    if i % 2 == 0 then n.flow[i / 2] else n.edges[i / 2].capacity - n.flow[i / 2]
  }

  /** Whether view i or its twin is an action edge, i.e. whether the record is. */
  function RecordHasAction(n: Network, i: int): bool
    requires 0 <= i < 2 * |n.edges|
  {
    n.edges[i / 2].hasAction
  }

  /** The helpers above agree with the view objects. */
  lemma GetEdgeParts(n: Network, i: int)
    requires |n.flow| == |n.edges| && 0 <= i < EdgeCount(n)
    ensures GetEdge(n, i).from == ViewFrom(n, i)
    ensures GetEdge(n, i).to == ViewTo(n, i)
    ensures GetEdge(n, i).flow == ViewFlow(n, i)
    ensures GetEdge(n, i).capacity - GetEdge(n, i).flow == Residual(n, i)
    ensures GetEdge(n, i).hasAction <==> i % 2 == 0 && RecordHasAction(n, i)
  {
  }

  /**
   * The twin view: endpoints swapped, same capacity, the two reported flows
   * add up to the capacity, and only the forward one can carry the action.
   */
  lemma TwinViews(n: Network, i: int)
    requires |n.flow| == |n.edges| && 0 <= i < EdgeCount(n)
    ensures Twin(i) < EdgeCount(n)
    ensures GetEdge(n, Twin(i)).from == GetEdge(n, i).to
    ensures GetEdge(n, Twin(i)).to == GetEdge(n, i).from
    ensures GetEdge(n, Twin(i)).capacity == GetEdge(n, i).capacity
    ensures GetEdge(n, Twin(i)).flow + GetEdge(n, i).flow == GetEdge(n, i).capacity
    ensures GetEdge(n, Twin(i)).isForward != GetEdge(n, i).isForward
    ensures !(GetEdge(n, Twin(i)).hasAction && GetEdge(n, i).hasAction)
    ensures Residual(n, Twin(i)) == ViewFlow(n, i)
  {
  }

  /** Java's `%` on ints: truncates toward zero, so the remainder takes the sign of `a`. */
  function JavaRem(a: int, b: int): (r: int)
    requires b > 0
    ensures -b < r < b
    ensures a >= 0 ==> r == a % b
    ensures a < 0 ==> r == -((-a) % b)
  {
    if a >= 0 then a % b else -((-a) % b)
  }

  /** `mod(a, b)` as written: adds `b` whenever `a` is negative. */
  function ModAsWritten(a: int, b: int): int
    requires b > 0
  {
    var res := JavaRem(a, b);
    if a < 0 then res + b else res
  }

  /** For a negative multiple of `b` the written `mod` returns `b`, outside [0, b). */
  lemma ModAsWrittenLeavesRange(b: int)
    requires b > 0
    ensures ModAsWritten(-b, b) == b
    ensures ModAsWritten(-1, 1) == 1
  {
    assert (-(-b)) % b == 0;
  }

  /** A positive multiple of b is at least b. */
  lemma {:induction false} MulAtLeast(d: int, b: int)
    requires d >= 1 && b > 0
    ensures d * b >= b
    decreases d
  {
    if d > 1 {
      MulAtLeast(d - 1, b);
      assert d * b == (d - 1) * b + b;
    }
  }

  /** Euclidean division is determined by quotient and remainder. */
  lemma ModUnique(a: int, b: int, q: int, r: int)
    requires b > 0 && 0 <= r < b && a == q * b + r
    ensures a % b == r
  {
    var q', r' := a / b, a % b;
    assert a == q' * b + r';
    assert (q - q') * b == q * b - q' * b;
    assert (q - q') * b == r' - r;
    if q > q' {
      MulAtLeast(q - q', b);
    } else if q < q' {
      assert (q' - q) * b == r - r';
      MulAtLeast(q' - q, b);
    }
  }

  /** For negative `a`, Java's remainder is Dafny's Euclidean one shifted down by `b`, or both are 0. */
  lemma JavaRemNegative(a: int, b: int)
    requires b > 0 && a < 0
    ensures JavaRem(a, b) == 0 <==> a % b == 0
    ensures JavaRem(a, b) < 0 ==> JavaRem(a, b) + b == a % b
  {
    var m, q := (-a) % b, (-a) / b;
    assert -a == q * b + m;
    if m == 0 {
      ModUnique(a, b, -q, 0);
    } else {
      ModUnique(a, b, -q - 1, b - m);
    }
  }

  /** `mod` as evidently intended: Euclidean, always in [0, b). */
  function Mod(a: int, b: int): (r: int)
    requires b > 0
    ensures 0 <= r < b
    ensures r == a % b
  {
    var res := JavaRem(a, b);
    if a < 0 then JavaRemNegative(a, b); if res < 0 then res + b else res
    else res
  }

  /** The two agree except on negative multiples of `b`; in particular on the sink id -1 once there are two nodes. */
  lemma ModAgrees(a: int, b: int)
    requires b > 0
    ensures ModAsWritten(a, b) == Mod(a, b) <==> a >= 0 || a % b != 0
    ensures b >= 2 ==> ModAsWritten(-1, b) == Mod(-1, b) == b - 1
  {
    if a < 0 {
      JavaRemNegative(a, b);
    }
    if b >= 2 {
      JavaRemNegative(-1, b);
      assert 1 % b == 1;
    }
  }

  /** `getSource()`. */
  function Source(n: Network): (r: int)
    requires |n.adj| > 0
    ensures 0 <= r < |n.adj|
    ensures n.source >= 0 ==> r == n.source % |n.adj|
  {
    Mod(n.source, |n.adj|)
  }

  /** `getSink()`: with the initial sink id -1 this is the last node. */
  function Sink(n: Network): (r: int)
    requires |n.adj| > 0
    ensures 0 <= r < |n.adj|
    ensures n.sink == -1 ==> r == |n.adj| - 1
  {
    Mod(n.sink, |n.adj|)
  }

  /**
   * How adjacency lists and records fit together: endpoints are nodes, every
   * listed view starts at the node that lists it, every view is listed there,
   * and no list repeats a view.
   */
  ghost predicate Wired(adj: seq<seq<int>>, edges: seq<EdgeRecord>) {
    && (forall k :: 0 <= k < |edges| ==> 0 <= edges[k].from < |adj| && 0 <= edges[k].to < |adj|)
    && (forall v, j :: 0 <= v < |adj| && 0 <= j < |adj[v]| ==>
          0 <= adj[v][j] < 2 * |edges| && Origin(edges, adj[v][j]) == v)
    && (forall i {:trigger Listed(adj, edges, i)} :: 0 <= i < 2 * |edges| ==> Listed(adj, edges, i))
    && (forall v, j1, j2 :: 0 <= v < |adj| && 0 <= j1 < j2 < |adj[v]| ==> adj[v][j1] != adj[v][j2])
  }

  /**
   * View i is listed at the node it starts from. Kept as its own predicate so
   * that the fact is only unfolded for views a proof names.
   */
  predicate Listed(adj: seq<seq<int>>, edges: seq<EdgeRecord>, i: int) {
    0 <= i < 2 * |edges| && 0 <= Origin(edges, i) < |adj| && i in adj[Origin(edges, i)]
  }

  /** In a valid network every view is listed at the node it starts from. */
  lemma ListedView(n: Network, i: int)
    requires Valid(n) && 0 <= i < 2 * |n.edges|
    ensures 0 <= ViewFrom(n, i) < |n.adj| && i in n.adj[ViewFrom(n, i)]
  {
    assert Listed(n.adj, n.edges, i);
  }

  /** The structural invariant: one flow per record, wired adjacency, registered fingerprints name nodes. */
  ghost predicate Valid(n: Network) {
    && |n.flow| == |n.edges|
    && Wired(n.adj, n.edges)
    && (forall fp :: fp in n.fpToId ==> 0 <= n.fpToId[fp] < |n.adj|)
  }

  /** A network after the reduction: at least one node and the root is one of them. */
  ghost predicate Ready(n: Network) {
    && Valid(n)
    && |n.adj| > 0
    && 0 <= n.root < |n.adj|
  }

  /** The constructor: no nodes, source 0, sink -1 (the last node), root 1. */
  function Init(): (n: Network)
    ensures Valid(n) && NodeCount(n) == 0 && EdgeCount(n) == 0 && !n.shutDown
    ensures n.source == 0 && n.sink == -1 && n.root == 1
  {
    Network([], [], [], map[], false, 0, -1, 1)
  }

  const ShutDownMessage: string := "network is already shut down"

  /** `ensureNotShutDown()`. */
  function EnsureNotShutDown(n: Network): (r: Result<()>)
    ensures r.Fail? <==> n.shutDown
    ensures r.Fail? ==> r == Fail(IllegalState(ShutDownMessage))
  {
    if n.shutDown then Fail(IllegalState(ShutDownMessage)) else Ok(())
  }

  /**
   * `addNode(state)`: a new empty adjacency list whose id is the previous node
   * count; a given fingerprint is registered for it. Fails after shutdown.
   */
  function AddNode(n: Network, fp: Option<int>): (r: Result<(Network, int)>)
    requires Valid(n)
    ensures r.Fail? <==> n.shutDown
    ensures r.Fail? ==> r == Fail(IllegalState(ShutDownMessage))
    ensures r.Ok? ==> var (m, id) := r.value;
      && Valid(m)
      && id == NodeCount(n) && NodeCount(m) == NodeCount(n) + 1
      && m.adj == n.adj + [[]]
      && m.edges == n.edges && m.flow == n.flow
      && (fp.Some? ==> m.fpToId == n.fpToId[fp.value := id])
      && (fp.None? ==> m.fpToId == n.fpToId)
      && m.shutDown == n.shutDown && m.source == n.source && m.sink == n.sink && m.root == n.root
  {
    var _ :- EnsureNotShutDown(n);
    var id := |n.adj|;
    var m := n.(adj := n.adj + [[]], fpToId := if fp.Some? then n.fpToId[fp.value := id] else n.fpToId);
    WiredAddNode(n.adj, n.edges);
    Ok((m, id))
  }

  /** `shutdown()`: freezes the network and forgets the fingerprints; a second call fails. */
  function Shutdown(n: Network): (r: Result<Network>)
    requires Valid(n)
    ensures r.Fail? <==> n.shutDown
    ensures r.Fail? ==> r == Fail(IllegalState(ShutDownMessage))
    ensures r.Ok? ==> Valid(r.value) && r.value.shutDown && r.value.fpToId == map[]
    ensures r.Ok? ==> r.value == n.(shutDown := true, fpToId := map[])
  {
    var _ :- EnsureNotShutDown(n);
    Ok(n.(shutDown := true, fpToId := map[]))
  }

  /** `setSource(id)`: fails after shutdown. */
  function SetSource(n: Network, id: int): (r: Result<Network>)
    ensures r.Fail? <==> n.shutDown
    ensures r.Ok? ==> r.value == n.(source := id)
  {
    var _ :- EnsureNotShutDown(n);
    Ok(n.(source := id))
  }

  /** `setSink(id)`: fails after shutdown. */
  function SetSink(n: Network, id: int): (r: Result<Network>)
    ensures r.Fail? <==> n.shutDown
    ensures r.Ok? ==> r.value == n.(sink := id)
  {
    var _ :- EnsureNotShutDown(n);
    Ok(n.(sink := id))
  }

  /** `setRoot(id)`: fails after shutdown. */
  function SetRoot(n: Network, id: int): (r: Result<Network>)
    ensures r.Fail? <==> n.shutDown
    ensures r.Ok? ==> r.value == n.(root := id)
  {
    var _ :- EnsureNotShutDown(n);
    Ok(n.(root := id))
  }

  /**
   * The private `addEdge(from, to, cap, hasAction)`: stores one record with
   * flow 0, returns the previous edge count, lists the forward view at `from`
   * and the backward one at `to`. It does not check for shutdown.
   */
  function AddEdgeWith(n: Network, from: int, to: int, cap: int, hasAction: bool): (r: (Network, int))
    requires Valid(n)
    requires 0 <= from < NodeCount(n) && 0 <= to < NodeCount(n)
    ensures var (m, id) := r;
      && Valid(m)
      && id == EdgeCount(n) && EdgeCount(m) == EdgeCount(n) + 2
      && GetEdge(m, id) == Edge(from, to, 0, cap, hasAction, true)
      && GetEdge(m, id + 1) == Edge(to, from, cap, cap, false, false)
      && (forall j :: 0 <= j < id ==> GetEdge(m, j) == GetEdge(n, j))
      && |m.adj| == |n.adj|
      && (from != to ==> m.adj[from] == n.adj[from] + [id] && m.adj[to] == n.adj[to] + [id + 1])
      && (from == to ==> m.adj[from] == n.adj[from] + [id, id + 1])
      && (forall v :: 0 <= v < |n.adj| && v != from && v != to ==> m.adj[v] == n.adj[v])
      && m.edges == n.edges + [EdgeRecord(from, to, cap, hasAction)]
      && m.flow == n.flow + [0]
      && m.fpToId == n.fpToId && m.shutDown == n.shutDown
      && m.source == n.source && m.sink == n.sink && m.root == n.root
  {
    var id := EdgeCount(n);
    var adj1 := n.adj[from := n.adj[from] + [id]];
    var adj2 := adj1[to := adj1[to] + [id + 1]];
    var m := n.(adj := adj2, edges := n.edges + [EdgeRecord(from, to, cap, hasAction)], flow := n.flow + [0]);
    AddEdgeValid(n, m, from, to, id);
    (m, id)
  }

  /** A new node with an empty list keeps the wiring. */
  lemma WiredAddNode(adj: seq<seq<int>>, edges: seq<EdgeRecord>)
    requires Wired(adj, edges)
    ensures Wired(adj + [[]], edges)
  {
    var adj' := adj + [[]];
    assert forall v :: 0 <= v < |adj| ==> adj'[v] == adj[v];
    forall i | 0 <= i < 2 * |edges|
      ensures Listed(adj', edges, i)
    {
      assert Listed(adj, edges, i);
    }
  }

  /** Adding a record and listing its two views keeps the network valid. */
  lemma AddEdgeValid(n: Network, m: Network, from: int, to: int, id: int)
    requires Valid(n)
    requires 0 <= from < NodeCount(n) && 0 <= to < NodeCount(n)
    requires id == EdgeCount(n)
    requires |m.edges| == |n.edges| + 1 && m.edges[..|n.edges|] == n.edges
    requires m.edges[|n.edges|].from == from && m.edges[|n.edges|].to == to
    requires |m.flow| == |m.edges| && m.fpToId == n.fpToId
    requires var adj1 := n.adj[from := n.adj[from] + [id]]; m.adj == adj1[to := adj1[to] + [id + 1]]
    ensures Valid(m)
  {
    assert forall k :: 0 <= k < |n.edges| ==> m.edges[k] == n.edges[k];
    assert forall i :: 0 <= i < EdgeCount(n) ==> Origin(m.edges, i) == Origin(n.edges, i);
    assert Origin(m.edges, id) == from && Origin(m.edges, id + 1) == to;
    AddEdgeSound(n, m, from, to, id);
    AddEdgeComplete(n, m, from, to, id);
    AddEdgeDistinct(n, m, from, to, id);
  }

  /** After adding a record every listed view still starts at the node that lists it. */
  lemma AddEdgeSound(n: Network, m: Network, from: int, to: int, id: int)
    requires Valid(n)
    requires 0 <= from < NodeCount(n) && 0 <= to < NodeCount(n)
    requires id == EdgeCount(n) && |m.edges| == |n.edges| + 1
    requires forall i :: 0 <= i < EdgeCount(n) ==> Origin(m.edges, i) == Origin(n.edges, i)
    requires Origin(m.edges, id) == from && Origin(m.edges, id + 1) == to
    requires var adj1 := n.adj[from := n.adj[from] + [id]]; m.adj == adj1[to := adj1[to] + [id + 1]]
    ensures forall v, j :: 0 <= v < |m.adj| && 0 <= j < |m.adj[v]| ==>
          0 <= m.adj[v][j] < 2 * |m.edges| && Origin(m.edges, m.adj[v][j]) == v
  {
    forall v, j | 0 <= v < |m.adj| && 0 <= j < |m.adj[v]|
      ensures 0 <= m.adj[v][j] < 2 * |m.edges| && Origin(m.edges, m.adj[v][j]) == v
    {
      if j < |n.adj[v]| {
        assert m.adj[v][j] == n.adj[v][j];
      } else if v == to && j == |m.adj[v]| - 1 {
        assert m.adj[v][j] == id + 1;
      } else {
        assert v == from && m.adj[v][j] == id;
      }
    }
  }

  /** After adding a record every view, old or new, is listed at its origin. */
  lemma AddEdgeComplete(n: Network, m: Network, from: int, to: int, id: int)
    requires Valid(n)
    requires 0 <= from < NodeCount(n) && 0 <= to < NodeCount(n)
    requires id == EdgeCount(n) && |m.edges| == |n.edges| + 1
    requires forall i :: 0 <= i < EdgeCount(n) ==> Origin(m.edges, i) == Origin(n.edges, i)
    requires Origin(m.edges, id) == from && Origin(m.edges, id + 1) == to
    requires var adj1 := n.adj[from := n.adj[from] + [id]]; m.adj == adj1[to := adj1[to] + [id + 1]]
    ensures forall i :: 0 <= i < 2 * |m.edges| ==> Listed(m.adj, m.edges, i)
  {
    var adj1 := n.adj[from := n.adj[from] + [id]];
    forall i | 0 <= i < 2 * |m.edges|
      ensures Listed(m.adj, m.edges, i)
    {
      var v := Origin(m.edges, i);
      if i < id {
        assert Listed(n.adj, n.edges, i);
        var j :| 0 <= j < |n.adj[v]| && n.adj[v][j] == i;
        assert m.adj[v][j] == i;
      } else if i == id {
        assert adj1[from][|adj1[from]| - 1] == id;
        assert m.adj[from][|adj1[from]| - 1] == id;
      } else {
        assert m.adj[to][|m.adj[to]| - 1] == id + 1;
      }
    }
  }

  /** After adding a record no adjacency list repeats a view. */
  lemma AddEdgeDistinct(n: Network, m: Network, from: int, to: int, id: int)
    requires Valid(n)
    requires 0 <= from < NodeCount(n) && 0 <= to < NodeCount(n)
    requires id == EdgeCount(n)
    requires var adj1 := n.adj[from := n.adj[from] + [id]]; m.adj == adj1[to := adj1[to] + [id + 1]]
    ensures forall v, j1, j2 :: 0 <= v < |m.adj| && 0 <= j1 < j2 < |m.adj[v]| ==> m.adj[v][j1] != m.adj[v][j2]
  {
    forall v, j1, j2 | 0 <= v < |m.adj| && 0 <= j1 < j2 < |m.adj[v]|
      ensures m.adj[v][j1] != m.adj[v][j2]
    {
      if j2 < |n.adj[v]| {
        assert m.adj[v][j1] == n.adj[v][j1] && m.adj[v][j2] == n.adj[v][j2];
      } else if j1 < |n.adj[v]| {
        assert m.adj[v][j1] == n.adj[v][j1] < id;
      }
    }
  }

  /** `addEdge(from, to, cap)`: a structural edge without action; usable even after shutdown. */
  function AddEdge(n: Network, from: int, to: int, cap: int): (r: (Network, int))
    requires Valid(n)
    requires 0 <= from < NodeCount(n) && 0 <= to < NodeCount(n)
    ensures var (m, id) := r;
      && Valid(m)
      && id == EdgeCount(n) && EdgeCount(m) == EdgeCount(n) + 2 && EdgeCount(m) % 2 == 0
      && GetEdge(m, id) == Edge(from, to, 0, cap, false, true)
      && GetEdge(m, id + 1) == Edge(to, from, cap, cap, false, false)
      && m.edges == n.edges + [EdgeRecord(from, to, cap, false)]
      && m.flow == n.flow + [0]
      && (forall j :: 0 <= j < id ==> GetEdge(m, j) == GetEdge(n, j))
      && |m.adj| == |n.adj|
      && (from != to ==> m.adj[from] == n.adj[from] + [id] && m.adj[to] == n.adj[to] + [id + 1])
      && (from == to ==> m.adj[from] == n.adj[from] + [id, id + 1])
      && (forall v :: 0 <= v < |n.adj| && v != from && v != to ==> m.adj[v] == n.adj[v])
      && m.fpToId == n.fpToId && m.shutDown == n.shutDown
      && m.source == n.source && m.sink == n.sink && m.root == n.root
  {
    AddEdgeWith(n, from, to, cap, false)
  }

  /**
   * `addEdge(fromState, toState, cap)`: an action edge between two registered
   * states, found by fingerprint (the wait for an unregistered one is left out).
   */
  function AddActionEdge(n: Network, fromFp: int, toFp: int, cap: int): (r: (Network, int))
    requires Valid(n)
    requires fromFp in n.fpToId && toFp in n.fpToId
    ensures var (m, id) := r;
      && Valid(m)
      && id == EdgeCount(n) && EdgeCount(m) == EdgeCount(n) + 2
      && GetEdge(m, id) == Edge(n.fpToId[fromFp], n.fpToId[toFp], 0, cap, true, true)
      && GetEdge(m, id + 1) == Edge(n.fpToId[toFp], n.fpToId[fromFp], cap, cap, false, false)
      && m.edges == n.edges + [EdgeRecord(n.fpToId[fromFp], n.fpToId[toFp], cap, true)]
      && m.flow == n.flow + [0]
      && |m.adj| == |n.adj|
      && (var from, to := n.fpToId[fromFp], n.fpToId[toFp];
          && (from != to ==> m.adj[from] == n.adj[from] + [id] && m.adj[to] == n.adj[to] + [id + 1])
          && (from == to ==> m.adj[from] == n.adj[from] + [id, id + 1])
          && (forall v :: 0 <= v < |n.adj| && v != from && v != to ==> m.adj[v] == n.adj[v]))
      && m.fpToId == n.fpToId && m.shutDown == n.shutDown
      && m.source == n.source && m.sink == n.sink && m.root == n.root
  {
    AddEdgeWith(n, n.fpToId[fromFp], n.fpToId[toFp], cap, true)
  }

  /**
   * `incFlow(i, d)`: adds `d` to the stored flow for a forward index and
   * subtracts it for a backward one, so the view i reports `d` more flow, its
   * twin `d` less, and every other view is unchanged.
   */
  function IncFlow(n: Network, i: int, d: int): (m: Network)
    requires |n.flow| == |n.edges| && 0 <= i < EdgeCount(n)
    ensures m == n.(flow := m.flow) && |m.flow| == |n.flow|
    ensures GetEdge(m, i).flow == GetEdge(n, i).flow + d
    ensures GetEdge(m, Twin(i)).flow == GetEdge(n, Twin(i)).flow - d
    ensures Residual(m, i) == Residual(n, i) - d
    ensures Residual(m, Twin(i)) == Residual(n, Twin(i)) + d
    ensures forall j :: 0 <= j < EdgeCount(n) && j / 2 != i / 2 ==> GetEdge(m, j) == GetEdge(n, j)
    ensures forall k :: 0 <= k < |n.flow| && k != i / 2 ==> m.flow[k] == n.flow[k]
  {
    var k := i / 2;
    n.(flow := n.flow[k := n.flow[k] + (if i % 2 == 0 then d else -d)])
  }

  /** Every flow within [0, capacity]: both views then report non-negative residuals. */
  predicate FlowBounded(n: Network) {
    && |n.flow| == |n.edges|
    && forall k :: 0 <= k < |n.edges| ==> 0 <= n.flow[k] <= n.edges[k].capacity
  }

  /** With flows within capacity, no view has a negative residual or flow. */
  lemma BoundedResiduals(n: Network, i: int)
    requires FlowBounded(n) && 0 <= i < EdgeCount(n)
    ensures 0 <= Residual(n, i) && 0 <= ViewFlow(n, i)
  {
  }

  /** Moving at most the residual along a view keeps every flow within bounds. */
  lemma IncFlowBounded(n: Network, i: int, d: int)
    requires FlowBounded(n) && 0 <= i < EdgeCount(n)
    requires 0 <= d <= Residual(n, i)
    ensures FlowBounded(IncFlow(n, i, d))
  {
  }

  /** Cancelling at most the reported flow of a view keeps every flow within bounds. */
  lemma CancelFlowBounded(n: Network, i: int, d: int)
    requires FlowBounded(n) && 0 <= i < EdgeCount(n)
    requires 0 <= d <= ViewFlow(n, i)
    ensures FlowBounded(IncFlow(n, i, -d))
  {
  }

  /** The records a sequence of views touches. */
  function RecordsOf(p: seq<int>): set<int> {
    set i | 0 <= i < |p| :: p[i] / 2
  }

  /** The records of a walk with one more view in front. */
  lemma RecordsOfCons(x: int, p: seq<int>)
    ensures RecordsOf([x] + p) == {x / 2} + RecordsOf(p)
  {
    var q := [x] + p;
    forall k | k in RecordsOf(q) ensures k in {x / 2} + RecordsOf(p) {
      var i :| 0 <= i < |q| && q[i] / 2 == k;
      if i > 0 {
        assert p[i - 1] == q[i];
      }
    }
    forall k | k in RecordsOf(p) ensures k in RecordsOf(q) {
      var i :| 0 <= i < |p| && p[i] / 2 == k;
      assert q[i + 1] == p[i];
    }
    assert q[0] == x;
  }

  /** Applies `IncFlow(_, p[i], d)` along p, the last view first. */
  function ApplyPath(n: Network, p: seq<int>, d: int): (m: Network)
    requires |n.flow| == |n.edges|
    requires forall i :: 0 <= i < |p| ==> 0 <= p[i] < EdgeCount(n)
    ensures m == n.(flow := m.flow) && |m.flow| == |n.flow|
    ensures forall k :: 0 <= k < |n.flow| && k !in RecordsOf(p) ==> m.flow[k] == n.flow[k]
    decreases |p|
  {
    if |p| == 0 then n
    else
      var m := IncFlow(ApplyPath(n, p[1..], d), p[0], d);
      RecordsOfCons(p[0], p[1..]);
      assert [p[0]] + p[1..] == p;
      m
  }

  /** Applying a path with one more view at the end is applying that view first. */
  lemma {:induction false} ApplyPathSnoc(n: Network, q: seq<int>, j: int, d: int)
    requires |n.flow| == |n.edges| && 0 <= j < EdgeCount(n)
    requires forall i :: 0 <= i < |q| ==> 0 <= q[i] < EdgeCount(n)
    ensures ApplyPath(n, q + [j], d) == ApplyPath(IncFlow(n, j, d), q, d)
    decreases |q|
  {
    var r := q + [j];
    if |q| == 0 {
      assert r[1..] == [];
    } else {
      assert r[0] == q[0] && r[1..] == q[1..] + [j];
      ApplyPathSnoc(n, q[1..], j, d);
    }
  }

  /** A walk of views from s to t, each listed at its origin. */
  ghost predicate IsWalk(n: Network, s: int, p: seq<int>, t: int)
    requires Valid(n)
  {
    && (forall i :: 0 <= i < |p| ==> 0 <= p[i] < EdgeCount(n))
    && (|p| == 0 ==> s == t)
    && (|p| > 0 ==> ViewFrom(n, p[0]) == s && ViewTo(n, p[|p| - 1]) == t)
    && (forall i :: 0 <= i < |p| - 1 ==> ViewTo(n, p[i]) == ViewFrom(n, p[i + 1]))
  }

  /** A walk whose every view has residual capacity left. */
  ghost predicate IsResidualPath(n: Network, s: int, p: seq<int>, t: int)
    requires Valid(n)
  {
    && IsWalk(n, s, p, t)
    && (forall i :: 0 <= i < |p| ==> Residual(n, p[i]) > 0)
  }

  /** Both ends of every view are nodes. */
  lemma ViewEnds(n: Network, i: int)
    requires Valid(n) && 0 <= i < EdgeCount(n)
    ensures 0 <= ViewFrom(n, i) < |n.adj| && 0 <= ViewTo(n, i) < |n.adj|
  {
    assert 0 <= i / 2 < |n.edges|;
  }

  /** The j-th view listed at v is a view leaving v. */
  lemma AdjView(n: Network, v: int, j: int)
    requires Valid(n) && 0 <= v < |n.adj| && 0 <= j < |n.adj[v]|
    ensures 0 <= n.adj[v][j] < EdgeCount(n) && ViewFrom(n, n.adj[v][j]) == v
    ensures 0 <= ViewTo(n, n.adj[v][j]) < |n.adj|
  {
    ViewEnds(n, n.adj[v][j]);
  }

  /** One cursor per node, each within its adjacency list (the solvers' and extractors' `adjListPt`). */
  ghost predicate Cursors(n: Network, ptr: seq<int>) {
    && |ptr| == |n.adj|
    && forall u :: 0 <= u < |ptr| ==> 0 <= ptr[u] <= |n.adj[u]|
  }

  /** The node the j-th view listed at u leads to. */
  function AdjTarget(n: Network, u: int, j: int): (v: int)
    requires Valid(n) && 0 <= u < |n.adj| && 0 <= j < |n.adj[u]|
    ensures 0 <= v < |n.adj| && v == ViewTo(n, n.adj[u][j])
  {
    AdjView(n, u, j);
    ViewTo(n, n.adj[u][j])
  }

  /** A set of nodes no residual view leaves. */
  ghost predicate ResidualClosed(n: Network, s: set<int>)
    requires Valid(n)
  {
    forall v, j :: v in s && 0 <= v < |n.adj| && 0 <= j < |n.adj[v]| && Residual(n, n.adj[v][j]) > 0 ==>
      ViewTo(n, n.adj[v][j]) in s
  }

  /** A residual path that starts in a closed set stays in it. */
  lemma {:induction false} ClosedSetTraps(n: Network, s: set<int>, a: int, p: seq<int>, b: int)
    requires Valid(n) && ResidualClosed(n, s)
    requires a in s && IsResidualPath(n, a, p, b)
    ensures b in s
    decreases |p|
  {
    if |p| > 0 {
      var e := p[0];
      ListedView(n, e);
      var j :| 0 <= j < |n.adj[a]| && n.adj[a][j] == e;
      assert ViewTo(n, e) in s;
      var q := p[1..];
      assert IsResidualPath(n, ViewTo(n, e), q, b) by {
        if |q| > 0 {
          assert ViewFrom(n, q[0]) == ViewTo(n, p[0]);
        }
      }
      ClosedSetTraps(n, s, ViewTo(n, e), q, b);
    }
  }

  // ---------------------------------------------------------------------------
  // Conservation

  /** Flow leaving v minus flow entering v, over the records' stored flows. */
  function NetOutOf(edges: seq<EdgeRecord>, flow: seq<int>, v: int): int
    requires |flow| == |edges|
  {
    if |edges| == 0 then 0
    else
      var k := |edges| - 1;
      NetOutOf(edges[..k], flow[..k], v)
        + (if edges[k].from == v then flow[k] else 0) - (if edges[k].to == v then flow[k] else 0)
  }

  /** The net flow out of v: flow leaving minus flow entering. */
  function NetOut(n: Network, v: int): int
    requires |n.flow| == |n.edges|
  {
    NetOutOf(n.edges, n.flow, v)
  }

  /** Changing one stored flow by x moves x out of that record's origin and into its target. */
  lemma {:induction false} NetOutUpdate(edges: seq<EdgeRecord>, flow: seq<int>, k: int, x: int, v: int)
    requires |flow| == |edges| && 0 <= k < |edges|
    ensures NetOutOf(edges, flow[k := flow[k] + x], v)
      == NetOutOf(edges, flow, v) + (if edges[k].from == v then x else 0) - (if edges[k].to == v then x else 0)
    decreases |edges|
  {
    var last := |edges| - 1;
    var f := flow[k := flow[k] + x];
    if k < last {
      assert f[..last] == flow[..last][k := flow[k] + x];
      NetOutUpdate(edges[..last], flow[..last], k, x, v);
    } else {
      assert f[..last] == flow[..last];
    }
  }

  /** Balances add up: the net outflow under record-wise summed flows is the sum of the net outflows. */
  lemma {:induction false} NetOutOfSum(edges: seq<EdgeRecord>, f: seq<int>, g: seq<int>, h: seq<int>, v: int)
    requires |f| == |edges| && |g| == |edges| && |h| == |edges|
    requires forall k :: 0 <= k < |edges| ==> h[k] == f[k] + g[k]
    ensures NetOutOf(edges, h, v) == NetOutOf(edges, f, v) + NetOutOf(edges, g, v)
    decreases |edges|
  {
    if |edges| > 0 {
      var k := |edges| - 1;
      NetOutOfSum(edges[..k], f[..k], g[..k], h[..k], v);
    }
  }

  /** The balance over two runs of records is the sum of their balances. */
  lemma {:induction false} NetOutOfAppend(a: seq<EdgeRecord>, fa: seq<int>, b: seq<EdgeRecord>, fb: seq<int>, v: int)
    requires |fa| == |a| && |fb| == |b|
    ensures NetOutOf(a + b, fa + fb, v) == NetOutOf(a, fa, v) + NetOutOf(b, fb, v)
    decreases |b|
  {
    if |b| == 0 {
      assert a + b == a && fa + fb == fa;
    } else {
      var k := |b| - 1;
      assert (a + b)[..|a| + k] == a + b[..k];
      assert (fa + fb)[..|a| + k] == fa + fb[..k];
      NetOutOfAppend(a, fa, b[..k], fb[..k], v);
    }
  }

  /** With no flow anywhere every node is balanced. */
  lemma {:induction false} NoFlowNetOut(edges: seq<EdgeRecord>, flow: seq<int>, v: int)
    requires |flow| == |edges| && forall k :: 0 <= k < |flow| ==> flow[k] == 0
    ensures NetOutOf(edges, flow, v) == 0
    decreases |edges|
  {
    if |edges| > 0 {
      NoFlowNetOut(edges[..|edges| - 1], flow[..|edges| - 1], v);
    }
  }

  /** `incFlow(i, d)` moves d out of view i's origin and into its target. */
  lemma IncFlowNetOut(n: Network, i: int, d: int, v: int)
    requires |n.flow| == |n.edges| && 0 <= i < EdgeCount(n)
    ensures NetOut(IncFlow(n, i, d), v)
      == NetOut(n, v) + (if ViewFrom(n, i) == v then d else 0) - (if ViewTo(n, i) == v then d else 0)
  {
    NetOutUpdate(n.edges, n.flow, i / 2, if i % 2 == 0 then d else -d, v);
  }

  /** Pushing d along a walk from s to t moves d out of s and into t; every other node keeps its balance. */
  lemma {:induction false} ApplyPathNetOut(n: Network, s: int, p: seq<int>, t: int, d: int, v: int)
    requires Valid(n) && IsWalk(n, s, p, t)
    ensures NetOut(ApplyPath(n, p, d), v) == NetOut(n, v) + (if s == v then d else 0) - (if t == v then d else 0)
    decreases |p|
  {
    if |p| > 0 {
      var mid := ViewTo(n, p[0]);
      var q := p[1..];
      assert IsWalk(n, mid, q, t) by {
        if |q| > 0 {
          assert ViewFrom(n, q[0]) == ViewTo(n, p[0]);
        }
      }
      ApplyPathNetOut(n, mid, q, t, d, v);
      var m := ApplyPath(n, q, d);
      IncFlowNetOut(m, p[0], d, v);
    }
  }

  /** Every node other than s and t is balanced. */
  ghost predicate Conserved(n: Network, s: int, t: int)
    requires |n.flow| == |n.edges|
  {
    forall v :: 0 <= v < |n.adj| && v != s && v != t ==> NetOut(n, v) == 0
  }

  /** Augmenting along an s-t walk keeps every other node balanced and raises the value at s by d. */
  lemma AugmentConserves(n: Network, s: int, p: seq<int>, t: int, d: int)
    requires Valid(n) && IsWalk(n, s, p, t) && s != t
    requires Conserved(n, s, t)
    ensures Conserved(ApplyPath(n, p, d), s, t)
    ensures NetOut(ApplyPath(n, p, d), s) == NetOut(n, s) + d
  {
    forall v | 0 <= v < |n.adj| && v != s && v != t
      ensures NetOut(ApplyPath(n, p, d), v) == 0
    {
      ApplyPathNetOut(n, s, p, t, d, v);
    }
    ApplyPathNetOut(n, s, p, t, d, s);
  }

  /**
   * m differs from n by x units routed from a to b: a sends x more, b
   * receives x more, every other node keeps its balance.
   */
  ghost predicate Routed(n: Network, m: Network, a: int, b: int, x: int)
    requires |n.flow| == |n.edges| && |m.flow| == |m.edges|
  {
    forall w :: NetOut(m, w) == NetOut(n, w) + (if w == a then x else 0) - (if w == b then x else 0)
  }

  /** Changing nothing routes zero units. */
  lemma RoutedNothing(n: Network, a: int, b: int)
    requires |n.flow| == |n.edges|
    ensures Routed(n, n, a, b, 0)
  {
  }

  /** `incFlow(i, d)` routes d from the view's origin to its target. */
  lemma IncFlowRouted(n: Network, i: int, d: int)
    requires |n.flow| == |n.edges| && 0 <= i < EdgeCount(n)
    ensures Routed(n, IncFlow(n, i, d), ViewFrom(n, i), ViewTo(n, i), d)
  {
    forall w ensures NetOut(IncFlow(n, i, d), w)
      == NetOut(n, w) + (if w == ViewFrom(n, i) then d else 0) - (if w == ViewTo(n, i) then d else 0)
    {
      IncFlowNetOut(n, i, d, w);
    }
  }

  /** Two routings between the same ends add up. */
  lemma RoutedAdd(n: Network, m1: Network, m: Network, a: int, b: int, x: int, y: int)
    requires |n.flow| == |n.edges| && |m1.flow| == |m1.edges| && |m.flow| == |m.edges|
    requires Routed(n, m1, a, b, x) && Routed(m1, m, a, b, y)
    ensures Routed(n, m, a, b, x + y)
  {
  }

  /** Routing x from c to b after routing x from a to c routes x from a to b. */
  lemma RoutedChain(n: Network, m1: Network, m: Network, a: int, c: int, b: int, x: int)
    requires |n.flow| == |n.edges| && |m1.flow| == |m1.edges| && |m.flow| == |m.edges|
    requires Routed(n, m1, c, b, x) && Routed(m1, m, a, c, x)
    ensures Routed(n, m, a, b, x)
  {
  }

  // ---------------------------------------------------------------------------
  // Labels of the breadth-first searches

  /** The number of unlabelled (INF) entries. */
  function Unlabelled(dist: seq<int>): nat {
    if |dist| == 0 then 0 else Unlabelled(dist[..|dist| - 1]) + (if dist[|dist| - 1] == INF then 1 else 0)
  }

  /** Labelling an unlabelled node removes one unlabelled node. */
  lemma {:induction false} LabelOne(dist: seq<int>, v: int, x: int)
    requires 0 <= v < |dist| && dist[v] == INF && x != INF
    ensures Unlabelled(dist[v := x]) + 1 == Unlabelled(dist)
    decreases |dist|
  {
    var k := |dist| - 1;
    var d := dist[v := x];
    if v < k {
      assert d[..k] == dist[..k][v := x];
      LabelOne(dist[..k], v, x);
    } else {
      assert d[..k] == dist[..k];
    }
  }

  /** Before the search every node is unlabelled. */
  lemma {:induction false} AllUnlabelled(k: nat)
    ensures Unlabelled(seq(k, _ => INF)) == k
  {
    if k > 0 {
      assert seq(k, _ => INF)[..k - 1] == seq(k - 1, _ => INF);
      AllUnlabelled(k - 1);
    }
  }

  /** Some label is set, so fewer than all entries are unlabelled. */
  lemma {:induction false} LabelledCount(dist: seq<int>, v: int)
    requires 0 <= v < |dist| && dist[v] != INF
    ensures Unlabelled(dist) < |dist|
    decreases |dist|
  {
    var k := |dist| - 1;
    if v < k {
      LabelledCount(dist[..k], v);
    } else {
      UnlabelledAtMost(dist[..k]);
    }
  }

  /** There are never more unlabelled nodes than nodes. */
  lemma {:induction false} UnlabelledAtMost(dist: seq<int>)
    ensures Unlabelled(dist) <= |dist|
    decreases |dist|
  {
    if |dist| > 0 {
      UnlabelledAtMost(dist[..|dist| - 1]);
    }
  }

  // ---------------------------------------------------------------------------
  // Consuming flow along trails

  /** The trail edge an extractor emits for view e: `(e / 2, from - 1, to - 1)`. */
  function TrailEdgeOf(n: Network, e: int): (t: TrailEdge)
    requires 0 <= e < EdgeCount(n)
    ensures t.id == e / 2 && t.from + 1 == ViewFrom(n, e) && t.to + 1 == ViewTo(n, e)
  {
    TrailEdge(e / 2, ViewFrom(n, e) - 1, ViewTo(n, e) - 1)
  }

  /** Takes one unit off each view of w, first view first: what the extractors do as they walk. */
  function Consume(n: Network, w: seq<int>): (m: Network)
    requires |n.flow| == |n.edges| && forall i :: 0 <= i < |w| ==> 0 <= w[i] < EdgeCount(n)
    ensures m == n.(flow := m.flow) && |m.flow| == |n.flow|
    decreases |w|
  {
    if |w| == 0 then n else Consume(IncFlow(n, w[0], -1), w[1..])
  }

  /** Consuming forward views takes off each record's flow exactly as often as its forward view occurs. */
  lemma {:induction false} ConsumeFlow(n: Network, w: seq<int>, k: int)
    requires |n.flow| == |n.edges| && 0 <= k < |n.edges|
    requires forall i :: 0 <= i < |w| ==> 0 <= w[i] < EdgeCount(n) && w[i] % 2 == 0
    ensures Consume(n, w).flow[k] == n.flow[k] - multiset(w)[2 * k]
    decreases |w|
  {
    if |w| > 0 {
      assert w == [w[0]] + w[1..];
      ConsumeFlow(IncFlow(n, w[0], -1), w[1..], k);
    }
  }

  /** Consuming a single view is one `incFlow(j, -1)`. */
  lemma ConsumeOne(n: Network, j: int)
    requires |n.flow| == |n.edges| && 0 <= j < EdgeCount(n)
    ensures Consume(n, [j]) == IncFlow(n, j, -1)
  {
    assert [j][1..] == [];
  }

  /** Consuming w and then one more view is consuming w + [j]. */
  lemma {:induction false} ConsumeSnoc(n: Network, w: seq<int>, j: int)
    requires |n.flow| == |n.edges| && 0 <= j < EdgeCount(n)
    requires forall i :: 0 <= i < |w| ==> 0 <= w[i] < EdgeCount(n)
    ensures Consume(n, w + [j]) == IncFlow(Consume(n, w), j, -1)
    decreases |w|
  {
    var r := w + [j];
    if |w| == 0 {
      assert r[1..] == [];
    } else {
      assert r[0] == w[0] && r[1..] == w[1..] + [j];
      ConsumeSnoc(IncFlow(n, w[0], -1), w[1..], j);
    }
  }

  /** The sum of the positive stored flows: what is left to consume. */
  function PositiveFlow(flow: seq<int>): nat {
    if |flow| == 0 then 0 else PositiveFlow(flow[..|flow| - 1]) + (if flow[|flow| - 1] > 0 then flow[|flow| - 1] else 0)
  }

  /** Taking one unit off a positive flow lowers the positive total by one. */
  lemma {:induction false} PositiveFlowDrop(flow: seq<int>, k: int)
    requires 0 <= k < |flow| && flow[k] > 0
    ensures PositiveFlow(flow[k := flow[k] - 1]) + 1 == PositiveFlow(flow)
    decreases |flow|
  {
    var last := |flow| - 1;
    if k < last {
      assert flow[k := flow[k] - 1][..last] == flow[..last][k := flow[k] - 1];
      PositiveFlowDrop(flow[..last], k);
    } else {
      assert flow[k := flow[k] - 1][..last] == flow[..last];
    }
  }

  /** A view an extractor may take a unit from: forward, not into the sink, and carrying flow. */
  predicate Takeable(n: Network, j: int)
    requires |n.flow| == |n.edges| && |n.adj| > 0 && 0 <= j < EdgeCount(n)
  {
    j % 2 == 0 && ViewTo(n, j) != Sink(n) && n.flow[j / 2] > 0
  }

  /** Only cursors move, forward, within their lists. */
  ghost predicate Advanced(n: Network, ptr: seq<int>, ptr': seq<int>) {
    && Cursors(n, ptr) && Cursors(n, ptr')
    && forall u :: 0 <= u < |ptr| ==> ptr[u] <= ptr'[u]
  }

  /** Two advances in a row are one. */
  lemma AdvancedTrans(n: Network, ptr: seq<int>, ptr1: seq<int>, ptr': seq<int>)
    requires Advanced(n, ptr, ptr1) && Advanced(n, ptr1, ptr')
    ensures Advanced(n, ptr, ptr')
  {
  }

  /** Moving one cursor forward within its list. */
  lemma AdvanceCursor(n: Network, ptr: seq<int>, v: int, k: int)
    requires Cursors(n, ptr) && 0 <= v < |n.adj| && ptr[v] <= k <= |n.adj[v]|
    ensures Advanced(n, ptr, ptr[v := k])
  {
  }

  /** Consuming a + b is consuming a, then b. */
  lemma {:induction false} ConsumeAppend(n: Network, a: seq<int>, b: seq<int>)
    requires |n.flow| == |n.edges|
    requires forall i :: 0 <= i < |a| ==> 0 <= a[i] < EdgeCount(n)
    requires forall i :: 0 <= i < |b| ==> 0 <= b[i] < EdgeCount(n)
    ensures Consume(n, a + b) == Consume(Consume(n, a), b)
    decreases |a|
  {
    if |a| == 0 {
      assert a + b == b;
    } else {
      assert (a + b)[0] == a[0] && (a + b)[1..] == a[1..] + b;
      ConsumeAppend(IncFlow(n, a[0], -1), a[1..], b);
    }
  }
}
