/**
 * `NaiveMaxFlowSolver`, the solver for acyclic state graphs: a depth-first
 * walk from the root along forward action edges that visits each node's
 * action edges once, sends one unit home to the root from every dead end,
 * and sets each traversed edge's flow to what came back through it; then a
 * pass over all records takes the extra unit off every action edge and
 * fills every source and sink edge to capacity.
 */
module NaiveMaxFlowSolver {
  import opened StateNetwork

  /** The number of nodes not yet marked in `used`. */
  function Unused(used: seq<bool>): nat {
    if |used| == 0 then 0 else Unused(used[..|used| - 1]) + (if used[|used| - 1] then 0 else 1)
  }

  /** Marking an unused record removes one unused record. */
  lemma {:induction false} MarkUnused(used: seq<bool>, u: int)
    requires 0 <= u < |used| && !used[u]
    ensures Unused(used[u := true]) + 1 == Unused(used)
    decreases |used|
  {
    var k := |used| - 1;
    if u < k {
      assert used[u := true][..k] == used[..k][u := true];
      MarkUnused(used[..k], u);
    } else {
      assert used[u := true][..k] == used[..k];
    }
  }

  /** Marks are never removed. */
  ghost predicate Marked(used: seq<bool>, used': seq<bool>) {
    && |used'| == |used|
    && forall i :: 0 <= i < |used| && used[i] ==> used'[i]
  }

  /** Marking never adds unused records. */
  lemma {:induction false} UnusedShrinks(used: seq<bool>, used': seq<bool>)
    requires Marked(used, used')
    ensures Unused(used') <= Unused(used)
    decreases |used|
  {
    if |used| > 0 {
      var k := |used| - 1;
      UnusedShrinks(used[..k], used'[..k]);
    }
  }

  /** A forward view of an action edge: what `naiveDfs` descends along. */
  predicate ActionView(edges: seq<EdgeRecord>, j: int) {
    0 <= j < 2 * |edges| && j % 2 == 0 && edges[j / 2].hasAction
  }

  /** A forward view into the root: what a dead end feeds. */
  predicate RootView(edges: seq<EdgeRecord>, root: int, j: int) {
    0 <= j < 2 * |edges| && j % 2 == 0 && edges[j / 2].to == root
  }

  /** How many of the views listed in `views` from position i on are forward views into the root. */
  function RootViewsFrom(edges: seq<EdgeRecord>, root: int, views: seq<int>, i: nat): nat
    decreases |views| - i
  {
    if i >= |views| then 0 else (if RootView(edges, root, views[i]) then 1 else 0) + RootViewsFrom(edges, root, views, i + 1)
  }

  /** Flows only go up and nothing but flows changes. */
  ghost predicate FlowsGrow(n: Network, m: Network) {
    && m == n.(flow := m.flow) && |m.flow| == |n.flow|
    && forall k :: 0 <= k < |n.flow| ==> n.flow[k] <= m.flow[k]
  }

  /** Two rounds of growing flows are one. */
  lemma FlowsGrowTrans(n: Network, m1: Network, m: Network)
    requires FlowsGrow(n, m1) && FlowsGrow(m1, m)
    ensures FlowsGrow(n, m)
  {
  }

  /** The root, or a node some action record ends at: the only nodes the search can enter. */
  ghost predicate Entered(n: Network, v: int) {
    v == n.root || exists k :: 0 <= k < |n.edges| && n.edges[k].hasAction && n.edges[k].to == v
  }

  /** A record the search may change: it leaves an enterable node and is an action edge or leads into the root. */
  ghost predicate SearchRecord(n: Network, k: int)
    requires 0 <= k < |n.edges|
  {
    Entered(n, n.edges[k].from) && (n.edges[k].hasAction || n.edges[k].to == n.root)
  }

  /** Between n and m only search records changed their flow. */
  ghost predicate SearchFrame(n: Network, m: Network)
    requires |n.flow| == |n.edges| && |m.flow| == |n.flow|
  {
    forall k :: 0 <= k < |n.flow| && m.flow[k] != n.flow[k] ==> SearchRecord(n, k)
  }

  /** An action record joins u to a different node w: a step the search can descend along. */
  ghost predicate ActionStep(edges: seq<EdgeRecord>, u: int, w: int) {
    u != w && exists k :: 0 <= k < |edges| && edges[k].hasAction && edges[k].from == u && edges[k].to == w
  }

  /** A non-empty node sequence whose neighbours are joined by action records. */
  ghost predicate ActionPath(edges: seq<EdgeRecord>, p: seq<int>) {
    |p| > 0 && forall i :: 0 <= i < |p| - 1 ==> ActionStep(edges, p[i], p[i + 1])
  }

  /** Some path of action records leads from the root to v. */
  ghost predicate Reached(edges: seq<EdgeRecord>, root: int, v: int) {
    exists p :: ActionPath(edges, p) && p[0] == root && p[|p| - 1] == v
  }

  /** The root is reached by the one-node path. */
  lemma RootReached(edges: seq<EdgeRecord>, root: int)
    ensures Reached(edges, root, root)
  {
    assert ActionPath(edges, [root]);
  }

  /** The head of an action record leaving a reached node is reached. */
  lemma ReachedStep(edges: seq<EdgeRecord>, root: int, k: int)
    requires 0 <= k < |edges| && edges[k].hasAction && Reached(edges, root, edges[k].from)
    ensures Reached(edges, root, edges[k].to)
  {
    var p :| ActionPath(edges, p) && p[0] == root && p[|p| - 1] == edges[k].from;
    if edges[k].to != edges[k].from {
      var q := p + [edges[k].to];
      forall i | 0 <= i < |q| - 1
        ensures ActionStep(edges, q[i], q[i + 1])
      {
        if i < |p| - 1 {
          assert q[i] == p[i] && q[i + 1] == p[i + 1];
        }
      }
      assert ActionPath(edges, q) && q[0] == root && q[|q| - 1] == edges[k].to;
    }
  }

  /** Some record leads from u into the root: a dead end at u sends at least one unit home. */
  ghost predicate Homes(edges: seq<EdgeRecord>, root: int, u: int) {
    exists k :: 0 <= k < |edges| && edges[k].from == u && edges[k].to == root
  }

  /** Every action record leaving a reached node ends at a node that has a way home. */
  ghost predicate HomeBound(edges: seq<EdgeRecord>, root: int) {
    forall k {:trigger Reached(edges, root, edges[k].from)} ::
      0 <= k < |edges| && edges[k].hasAction && Reached(edges, root, edges[k].from) ==> Homes(edges, root, edges[k].to)
  }

  /** An action record whose tail is marked and no longer being explored. */
  ghost predicate Settled(edges: seq<EdgeRecord>, used: seq<bool>, open: set<int>, k: int)
    requires 0 <= k < |edges|
  {
    edges[k].hasAction && 0 <= edges[k].from < |used| && used[edges[k].from] && edges[k].from !in open
  }

  /**
   * The search's progress invariant, with `open` the nodes whose exploration
   * is under way: flows are not negative, and every settled action record
   * carries at least one unit and leads to a marked node.
   */
  ghost predicate Searching(n: Network, used: seq<bool>, open: set<int>) {
    && |n.flow| == |n.edges| && |used| == |n.adj|
    && (forall k :: 0 <= k < |n.flow| ==> n.flow[k] >= 0)
    && forall k {:trigger Settled(n.edges, used, open, k)} :: 0 <= k < |n.edges| && Settled(n.edges, used, open, k) ==>
         n.flow[k] >= 1 && 0 <= n.edges[k].to < |used| && used[n.edges[k].to]
  }

  /** Marking a reached node and opening it keeps the invariant. */
  lemma OpenNode(n: Network, used: seq<bool>, open: set<int>, u: int)
    requires Searching(n, used, open) && 0 <= u < |used|
    ensures Searching(n, used[u := true], open + {u})
  {
    forall k | 0 <= k < |n.edges| && Settled(n.edges, used[u := true], open + {u}, k)
      ensures n.flow[k] >= 1 && 0 <= n.edges[k].to < |used| && used[u := true][n.edges[k].to]
    {
      assert Settled(n.edges, used, open, k);
    }
  }

  /** Once every action view listed at u is covered and leads to a marked node, u can be closed. */
  lemma SettleNode(n: Network, used: seq<bool>, open: set<int>, u: int)
    requires Valid(n) && Searching(n, used, open + {u}) && 0 <= u < |n.adj|
    requires forall j :: 0 <= j < |n.adj[u]| && ActionView(n.edges, n.adj[u][j]) ==>
      n.flow[n.adj[u][j] / 2] >= 1 && used[ViewTo(n, n.adj[u][j])]
    ensures Searching(n, used, open)
  {
    forall k | 0 <= k < |n.edges| && Settled(n.edges, used, open, k)
      ensures n.flow[k] >= 1 && 0 <= n.edges[k].to < |used| && used[n.edges[k].to]
    {
      if n.edges[k].from == u {
        ListedView(n, 2 * k);
        var j :| 0 <= j < |n.adj[u]| && n.adj[u][j] == 2 * k;
        assert ActionView(n.edges, n.adj[u][j]);
      } else {
        assert Settled(n.edges, used, open + {u}, k);
      }
    }
  }

  /** Raising flows keeps the invariant. */
  lemma GrowSearching(n: Network, m: Network, used: seq<bool>, open: set<int>)
    requires Searching(n, used, open) && FlowsGrow(n, m)
    ensures Searching(m, used, open)
  {
  }

  /** Raising flows and then putting d >= 1 more units on an action view keeps the invariant and covers its record. */
  lemma PushSearching(n: Network, n': Network, used: seq<bool>, open: set<int>, e: int, d: int, m: Network)
    requires Searching(n, used, open) && FlowsGrow(n, n') && 0 <= e < EdgeCount(n') && e % 2 == 0 && d >= 1
    requires m == IncFlow(n', e, d)
    ensures Searching(m, used, open) && m.flow[e / 2] >= 1
  {
    GrowSearching(n, n', used, open);
    assert m.flow[e / 2] == n'.flow[e / 2] + d;
  }

  /** A view into the root listed at position j or later is counted from position i on. */
  lemma RootViewsAt(edges: seq<EdgeRecord>, root: int, views: seq<int>, i: nat, j: nat)
    requires i <= j < |views| && RootView(edges, root, views[j])
    ensures RootViewsFrom(edges, root, views, i) >= 1
    decreases j - i
  {
    if i < j {
      RootViewsAt(edges, root, views, i + 1, j);
    }
  }

  /** A node with a way home feeds at least one unit when it is a dead end. */
  lemma HomesFeeds(n: Network, u: int)
    requires Valid(n) && 0 <= u < |n.adj| && Homes(n.edges, n.root, u)
    ensures RootViewsFrom(n.edges, n.root, n.adj[u], 0) >= 1
  {
    var k :| 0 <= k < |n.edges| && n.edges[k].from == u && n.edges[k].to == n.root;
    ListedView(n, 2 * k);
    var j :| 0 <= j < |n.adj[u]| && n.adj[u][j] == 2 * k;
    RootViewsAt(n.edges, n.root, n.adj[u], 0, j);
  }

  /** The search descends along an action view from a reached node: the head is reached and, as a dead end, would feed the root. */
  lemma EnterHead(n: Network, e: int)
    requires Valid(n) && 0 <= e < EdgeCount(n) && e % 2 == 0 && n.edges[e / 2].hasAction
    requires HomeBound(n.edges, n.root) && Reached(n.edges, n.root, ViewFrom(n, e))
    ensures Reached(n.edges, n.root, ViewTo(n, e)) && RootViewsFrom(n.edges, n.root, n.adj[ViewTo(n, e)], 0) >= 1
  {
    ReachedStep(n.edges, n.root, e / 2);
    ViewEnds(n, e);
    HomesFeeds(n, ViewTo(n, e));
  }

  /** With nothing open, every node reached from a marked node is marked. */
  lemma {:induction false} PathMarked(n: Network, used: seq<bool>, p: seq<int>)
    requires Searching(n, used, {}) && ActionPath(n.edges, p) && 0 <= p[0] < |used| && used[p[0]]
    ensures 0 <= p[|p| - 1] < |used| && used[p[|p| - 1]]
    decreases |p|
  {
    if |p| > 1 {
      var q := p[..|p| - 1];
      assert ActionPath(n.edges, q) by {
        forall i | 0 <= i < |q| - 1
          ensures ActionStep(n.edges, q[i], q[i + 1])
        {
          assert q[i] == p[i] && q[i + 1] == p[i + 1];
        }
      }
      PathMarked(n, used, q);
      assert ActionStep(n.edges, p[|p| - 2], p[|p| - 1]);
      var k :| 0 <= k < |n.edges| && n.edges[k].hasAction && n.edges[k].from == p[|p| - 2] && n.edges[k].to == p[|p| - 1];
      assert Settled(n.edges, used, {}, k);
    }
  }

  /** Before the search only the root is marked, and it is open: nothing is settled yet. */
  lemma StartSearching(n: Network, used: seq<bool>)
    requires Ready(n) && (forall k :: 0 <= k < |n.flow| ==> n.flow[k] >= 0)
    requires used == seq(|n.adj|, _ => false)[n.root := true]
    ensures Searching(n, used, {n.root})
  {
  }

  /** Once the search is over with the root marked, every action record leaving a reached node carries a unit. */
  lemma ReachedCovered(n: Network, used: seq<bool>)
    requires Searching(n, used, {}) && 0 <= n.root < |used| && used[n.root]
    ensures forall k :: 0 <= k < |n.edges| && n.edges[k].hasAction && Reached(n.edges, n.root, n.edges[k].from) ==> n.flow[k] >= 1
  {
    forall k | 0 <= k < |n.edges| && n.edges[k].hasAction && Reached(n.edges, n.root, n.edges[k].from)
      ensures n.flow[k] >= 1
    {
      var p :| ActionPath(n.edges, p) && p[0] == n.root && p[|p| - 1] == n.edges[k].from;
      PathMarked(n, used, p);
      assert Settled(n.edges, used, {}, k);
    }
  }

  /**
   * The dead-end loop of `naiveDfs` at u, from position i: every forward
   * view into the root gains one unit, and the count is returned. The
   * units travel from u to the root.
   */
  method FeedRoot(n: Network, u: int, i: int) returns (sum: int, m: Network)
    requires Valid(n) && 0 <= u < |n.adj| && 0 <= i <= |n.adj[u]|
    ensures sum == RootViewsFrom(n.edges, n.root, n.adj[u], i)
    ensures FlowsGrow(n, m) && Routed(n, m, u, n.root, sum)
    ensures forall k :: 0 <= k < |n.flow| && m.flow[k] != n.flow[k] ==> n.edges[k].from == u && n.edges[k].to == n.root
    decreases |n.adj[u]| - i
  {
    if i == |n.adj[u]| {
      RoutedNothing(n, u, n.root);
      return 0, n;
    }
    var j := n.adj[u][i];
    AdjView(n, u, i);
    if RootView(n.edges, n.root, j) {
      var m1 := IncFlow(n, j, 1);
      IncFlowRouted(n, j, 1);
      var s;
      s, m := FeedRoot(m1, u, i + 1);
      RoutedAdd(n, m1, m, u, n.root, 1, s);
      sum := 1 + s;
    } else {
      sum, m := FeedRoot(n, u, i + 1);
    }
  }

  /** Whether some view listed in `views` from position i on is an action view. */
  function HasActionFrom(edges: seq<EdgeRecord>, views: seq<int>, i: nat): bool
    decreases |views| - i
  {
    i < |views| && (ActionView(edges, views[i]) || HasActionFrom(edges, views, i + 1))
  }

  /**
   * The first half of `naiveDfs` along view e, at its target u: if u is not
   * yet marked, mark it and descend along each of its action edges; `found`
   * reports whether there was one. What comes back arrives at the root.
   */
  method FirstVisit(n: Network, used: seq<bool>, e: int, ghost open: set<int>, ghost home: bool)
    returns (sum: int, m: Network, used': seq<bool>, found: bool)
    requires Valid(n) && |used| == |n.adj| && 0 <= e < EdgeCount(n) && e % 2 == 0 && n.edges[e / 2].hasAction
    requires home ==> Searching(n, used, open) && HomeBound(n.edges, n.root) && Reached(n.edges, n.root, ViewFrom(n, e))
    ensures FlowsGrow(n, m) && Routed(n, m, ViewTo(n, e), n.root, sum) && sum >= 0 && SearchFrame(n, m)
    ensures Marked(used, used') && used'[ViewTo(n, e)]
    ensures found == (!used[ViewTo(n, e)] && HasActionFrom(n.edges, n.adj[ViewTo(n, e)], 0))
    ensures !found ==> sum == 0 && m == n
    ensures used[ViewTo(n, e)] ==> used' == used
    ensures home ==> Searching(m, used', open) && (found ==> sum >= 1)
    ensures home && !found ==> RootViewsFrom(n.edges, n.root, n.adj[ViewTo(n, e)], 0) >= 1
    decreases Unused(used), 0
  {
    ViewEnds(n, e);
    var u := ViewTo(n, e);
    if home {
      EnterHead(n, e);
    }
    if used[u] {
      RoutedNothing(n, u, n.root);
      return 0, n, used, false;
    }
    MarkUnused(used, u);
    if home {
      OpenNode(n, used, open, u);
    }
    sum, m, used', found := VisitActions(n, used[u := true], u, 0, open + {u}, home);
    if home {
      SettleNode(m, used', open, u);
    }
  }

  /**
   * `naiveDfs(eId)`: on the first visit of the edge's target u, explore
   * u's action edges; if there were none, or u had been visited before,
   * feed the root from u. The edge then carries the total that reached the
   * root through it. The total leaves the edge's origin and arrives at the
   * root; every other node keeps its balance.
   */
  method NaiveDfs(n: Network, used: seq<bool>, e: int, ghost open: set<int>, ghost home: bool)
    returns (sum: int, m: Network, used': seq<bool>)
    requires Valid(n) && |used| == |n.adj| && 0 <= e < EdgeCount(n) && e % 2 == 0 && n.edges[e / 2].hasAction
    requires home ==> Searching(n, used, open) && HomeBound(n.edges, n.root) && Reached(n.edges, n.root, ViewFrom(n, e))
    ensures FlowsGrow(n, m) && Routed(n, m, ViewFrom(n, e), n.root, sum) && sum >= 0
    ensures forall k :: 0 <= k < |n.flow| && m.flow[k] != n.flow[k] ==> k == e / 2 || SearchRecord(n, k)
    ensures Marked(used, used') && used'[ViewTo(n, e)]
    ensures used[ViewTo(n, e)] ==> used' == used && sum == RootViewsFrom(n.edges, n.root, n.adj[ViewTo(n, e)], 0)
    ensures home ==> Searching(m, used', open) && sum >= 1 && m.flow[e / 2] >= 1
    decreases Unused(used), 1
  {
    ViewEnds(n, e);
    var u := ViewTo(n, e);
    var s1, m1, used1, found := FirstVisit(n, used, e, open, home);
    used' := used1;
    var s2, m2 := 0, m1;
    RoutedNothing(m1, u, n.root);
    if !found {
      s2, m2 := FeedRoot(m1, u, 0);
    }
    sum := s1 + s2;
    m := IncFlow(m2, e, sum);
    CloseEdge(n, m1, m2, e, s1, s2);
    if home {
      PushSearching(m1, m2, used', open, e, sum, m);
    }
  }

  /** The bookkeeping at the end of `naiveDfs`: what came back from u is put on the traversed edge. */
  lemma CloseEdge(n: Network, m1: Network, m2: Network, e: int, s1: int, s2: int)
    requires Valid(n) && 0 <= e < EdgeCount(n) && e % 2 == 0 && n.edges[e / 2].hasAction && s1 >= 0 && s2 >= 0
    requires FlowsGrow(n, m1) && FlowsGrow(m1, m2) && SearchFrame(n, m1)
    requires forall k :: 0 <= k < |m1.flow| && m2.flow[k] != m1.flow[k] ==> m1.edges[k].from == ViewTo(n, e) && m1.edges[k].to == n.root
    requires Routed(n, m1, ViewTo(n, e), n.root, s1) && Routed(m1, m2, ViewTo(n, e), n.root, s2)
    ensures FlowsGrow(n, IncFlow(m2, e, s1 + s2))
    ensures Routed(n, IncFlow(m2, e, s1 + s2), ViewFrom(n, e), n.root, s1 + s2)
    ensures forall k :: 0 <= k < |n.flow| && IncFlow(m2, e, s1 + s2).flow[k] != n.flow[k] ==> k == e / 2 || SearchRecord(n, k)
  {
    ViewEnds(n, e);
    RoutedAdd(n, m1, m2, ViewTo(n, e), n.root, s1, s2);
    FlowsGrowTrans(n, m1, m2);
    IncFlowRouted(m2, e, s1 + s2);
    RoutedChain(n, m2, IncFlow(m2, e, s1 + s2), ViewFrom(n, e), ViewTo(n, e), n.root, s1 + s2);
  }

  /**
   * The loop of `naiveDfs` over the views of a freshly marked node u, from
   * position i: descend along every action view. `found` reports whether
   * there was one (the negation of `deadEnd`).
   */
  method VisitActions(n: Network, used: seq<bool>, u: int, i: int, ghost open: set<int>, ghost home: bool)
    returns (sum: int, m: Network, used': seq<bool>, found: bool)
    requires Valid(n) && |used| == |n.adj| && 0 <= u < |n.adj| && 0 <= i <= |n.adj[u]| && Entered(n, u)
    requires home ==> Searching(n, used, open) && HomeBound(n.edges, n.root) && Reached(n.edges, n.root, u)
    ensures FlowsGrow(n, m) && Routed(n, m, u, n.root, sum) && sum >= 0 && SearchFrame(n, m)
    ensures Marked(used, used')
    ensures found == HasActionFrom(n.edges, n.adj[u], i)
    ensures !found ==> sum == 0 && m == n
    ensures home ==> Searching(m, used', open) && (found ==> sum >= 1)
    ensures home ==> forall j :: i <= j < |m.adj[u]| && ActionView(m.edges, m.adj[u][j]) ==>
      m.flow[m.adj[u][j] / 2] >= 1 && used'[ViewTo(m, m.adj[u][j])]
    decreases Unused(used), 2, |n.adj[u]| - i
  {
    if i == |n.adj[u]| {
      RoutedNothing(n, u, n.root);
      return 0, n, used, false;
    }
    var j := n.adj[u][i];
    AdjView(n, u, i);
    if ActionView(n.edges, j) {
      var s1, m1, used1 := NaiveDfs(n, used, j, open, home);
      UnusedShrinks(used, used1);
      var s2, used2, f;
      s2, m, used2, f := VisitActions(m1, used1, u, i + 1, open, home);
      RoutedAdd(n, m1, m, u, n.root, s1, s2);
      FlowsGrowTrans(n, m1, m);
      if home {
        CoverFrom(n, m1, m, used1, used2, u, i);
      }
      return s1 + s2, m, used2, true;
    }
    sum, m, used', found := VisitActions(n, used, u, i + 1, open, home);
    if home {
      CoverFrom(n, n, m, used, used', u, i);
    }
  }

  /** The view at position i, covered by the descent along it, joins the covered views after it. */
  lemma CoverFrom(n: Network, m1: Network, m: Network, used1: seq<bool>, used': seq<bool>, u: int, i: int)
    requires Valid(n) && FlowsGrow(n, m1) && FlowsGrow(m1, m) && |used1| == |n.adj| && Marked(used1, used')
    requires 0 <= u < |n.adj| && 0 <= i < |n.adj[u]|
    requires ActionView(n.edges, n.adj[u][i]) ==> m1.flow[n.adj[u][i] / 2] >= 1 && used1[ViewTo(n, n.adj[u][i])]
    requires forall j :: i + 1 <= j < |m.adj[u]| && ActionView(m.edges, m.adj[u][j]) ==>
      m.flow[m.adj[u][j] / 2] >= 1 && used'[ViewTo(m, m.adj[u][j])]
    ensures forall j :: i <= j < |m.adj[u]| && ActionView(m.edges, m.adj[u][j]) ==>
      m.flow[m.adj[u][j] / 2] >= 1 && used'[ViewTo(m, m.adj[u][j])]
  {
    AdjView(n, u, i);
  }

  /**
   * The loop of `findMaxFlow` over the root's views, from position i: a
   * search down every forward action edge. Whatever leaves the root comes
   * back to it, so every node keeps its balance.
   */
  method FromRoot(n: Network, used: seq<bool>, i: int, ghost home: bool) returns (m: Network, used': seq<bool>)
    requires Ready(n) && |used| == |n.adj| && 0 <= i <= |n.adj[n.root]|
    requires home ==> Searching(n, used, {n.root}) && HomeBound(n.edges, n.root)
    ensures FlowsGrow(n, m) && Routed(n, m, n.root, n.root, 0) && Marked(used, used') && SearchFrame(n, m)
    ensures home ==> Searching(m, used', {n.root})
    ensures home ==> forall j :: i <= j < |m.adj[m.root]| && ActionView(m.edges, m.adj[m.root][j]) ==>
      m.flow[m.adj[m.root][j] / 2] >= 1 && used'[ViewTo(m, m.adj[m.root][j])]
    decreases |n.adj[n.root]| - i
  {
    if i == |n.adj[n.root]| {
      RoutedNothing(n, n.root, n.root);
      return n, used;
    }
    var e := n.adj[n.root][i];
    AdjView(n, n.root, i);
    if ActionView(n.edges, e) {
      if home {
        RootReached(n.edges, n.root);
      }
      var s, m1, used1 := NaiveDfs(n, used, e, {n.root}, home);
      m, used' := FromRoot(m1, used1, i + 1, home);
      assert Routed(n, m1, n.root, n.root, 0);
      RoutedAdd(n, m1, m, n.root, n.root, 0, 0);
      FlowsGrowTrans(n, m1, m);
    } else {
      m, used' := FromRoot(n, used, i + 1, home);
    }
  }

  /** What the closing pass adds to a record: one unit off an action edge, capacity onto a source or sink edge. */
  function ShiftOf(e: EdgeRecord, src: int, snk: int): int {
    (if e.hasAction then -1 else 0) + (if e.from == src || e.to == snk then e.capacity else 0)
  }

  /** The closing pass's additions, record by record. */
  function Shifts(edges: seq<EdgeRecord>, src: int, snk: int): (d: seq<int>)
    ensures |d| == |edges|
  {
    seq(|edges|, k requires 0 <= k < |edges| => ShiftOf(edges[k], src, snk))
  }

  /** What the closing pass does to record k of n. */
  function PostShift(n: Network, k: int): int
    requires 0 <= k < |n.edges| && |n.adj| > 0
  {
    ShiftOf(n.edges[k], Source(n), Sink(n))
  }

  /** The body of the closing loop for record k (forward view 2k). */
  function CloseRecord(n: Network, k: int): (m: Network)
    requires Valid(n) && |n.adj| > 0 && 0 <= k < |n.edges|
    ensures m == n.(flow := n.flow[k := n.flow[k] + PostShift(n, k)])
  {
    var m1 := if n.edges[k].hasAction then IncFlow(n, 2 * k, -1) else n;
    if n.edges[k].from == Source(n) || n.edges[k].to == Sink(n) then IncFlow(m1, 2 * k, n.edges[k].capacity) else m1
  }

  /** The closing loop of `findMaxFlow` over the records from k on. */
  method ClosingPass(n: Network, k: int) returns (m: Network)
    requires Valid(n) && |n.adj| > 0 && 0 <= k <= |n.edges|
    ensures m == n.(flow := m.flow) && |m.flow| == |n.flow|
    ensures forall r :: 0 <= r < k ==> m.flow[r] == n.flow[r]
    ensures forall r :: k <= r < |n.edges| ==> m.flow[r] == n.flow[r] + PostShift(n, r)
    decreases |n.edges| - k
  {
    if k == |n.edges| {
      return n;
    }
    m := ClosingPass(CloseRecord(n, k), k + 1);
  }

  /** The closing pass alone would leave every node but the source and the sink balanced. */
  ghost predicate Balanced(n: Network)
    requires Ready(n)
  {
    forall v :: 0 <= v < |n.adj| && v != Source(n) && v != Sink(n) ==>
      NetOut(n, v) + NetOutOf(n.edges, Shifts(n.edges, Source(n), Sink(n)), v) == 0
  }

  /**
   * A record of the reduced network: an action edge between inner nodes, or
   * a source edge, a sink edge or a return edge into the root, with a
   * capacity that is not negative.
   */
  predicate ShapedRecord(e: EdgeRecord, src: int, snk: int, root: int) {
    && e.capacity >= 0
    && if e.hasAction then e.from != src && e.from != snk && e.to != src && e.to != snk
       else e.from == src || e.to == snk || e.to == root
  }

  /** The shape the reduction leaves: no flow yet, the root is neither source nor sink, and every record is shaped. */
  ghost predicate Shaped(n: Network) {
    && Ready(n)
    && Source(n) != n.root && Sink(n) != n.root
    && (forall k :: 0 <= k < |n.edges| ==> ShapedRecord(n.edges[k], Source(n), Sink(n), n.root))
    && forall k :: 0 <= k < |n.flow| ==> n.flow[k] == 0
  }

  /** The search put at least one unit on every action record. */
  ghost predicate Covered(n: Network, searched: Network)
    requires |searched.flow| == |n.edges|
  {
    forall k :: 0 <= k < |n.edges| && n.edges[k].hasAction ==> searched.flow[k] >= 1
  }

  /** No searched flow went past what the record can hold once the closing pass has run (Java's int range is not exceeded). */
  ghost predicate Capped(n: Network, searched: Network)
    requires |searched.flow| == |n.edges|
  {
    forall k :: 0 <= k < |n.edges| ==> searched.flow[k] <= n.edges[k].capacity + (if n.edges[k].hasAction then 1 else 0)
  }

  /**
   * The closing pass after a search of a shaped network: source and sink
   * edges end up full, a return edge keeps what the search sent, an action
   * edge loses a unit. So the result is within bounds exactly when the
   * search covered every action record (and nothing overflowed), and an
   * action record leaving a node the search cannot enter ends at -1.
   */
  lemma ClosingBounds(n: Network, searched: Network, m: Network)
    requires Shaped(n) && FlowsGrow(n, searched) && SearchFrame(n, searched)
    requires m == n.(flow := m.flow) && |m.flow| == |n.flow|
    requires forall k :: 0 <= k < |n.edges| ==> m.flow[k] == searched.flow[k] + PostShift(n, k)
    ensures FlowBounded(m) <==> Covered(n, searched) && Capped(n, searched)
    ensures forall k :: 0 <= k < |n.edges| && n.edges[k].hasAction && !Entered(n, n.edges[k].from) ==> m.flow[k] == -1
  {
    assert !Entered(n, Source(n)) by {
      forall k | 0 <= k < |n.edges| && n.edges[k].hasAction
        ensures n.edges[k].to != Source(n)
      {
        assert ShapedRecord(n.edges[k], Source(n), Sink(n), n.root);
      }
    }
    forall k | 0 <= k < |n.edges|
      ensures 0 <= m.flow[k] <= n.edges[k].capacity <==>
        (n.edges[k].hasAction ==> searched.flow[k] >= 1)
        && searched.flow[k] <= n.edges[k].capacity + (if n.edges[k].hasAction then 1 else 0)
      ensures n.edges[k].hasAction && !Entered(n, n.edges[k].from) ==> m.flow[k] == -1
    {
      assert ShapedRecord(n.edges[k], Source(n), Sink(n), n.root);
    }
  }

  /** The closing pass moves exactly its additions' balances; on a balanced network the result is conserved. */
  lemma ClosingNetOut(n: Network, searched: Network, m: Network)
    requires Ready(n) && FlowsGrow(n, searched) && Routed(n, searched, n.root, n.root, 0)
    requires m == n.(flow := m.flow) && |m.flow| == |n.flow|
    requires forall k :: 0 <= k < |n.edges| ==> m.flow[k] == searched.flow[k] + PostShift(n, k)
    ensures forall v :: NetOut(m, v) == NetOut(n, v) + NetOutOf(n.edges, Shifts(n.edges, Source(n), Sink(n)), v)
    ensures Balanced(n) ==> Conserved(m, Source(n), Sink(n))
  {
    forall v
      ensures NetOut(m, v) == NetOut(n, v) + NetOutOf(n.edges, Shifts(n.edges, Source(n), Sink(n)), v)
    {
      NetOutOfSum(n.edges, searched.flow, Shifts(n.edges, Source(n), Sink(n)), m.flow, v);
    }
  }

  /**
   * `findMaxFlow`: mark the root, search from each of its forward action
   * edges, then run the closing pass. The search phase leaves every node's
   * balance as it was and only raises flows.
   */
  method FindMaxFlow(n: Network) returns (m: Network, searched: Network)
    requires Ready(n)
    ensures FlowsGrow(n, searched) && Routed(n, searched, n.root, n.root, 0) && SearchFrame(n, searched)
    ensures m == n.(flow := m.flow) && |m.flow| == |n.flow|
    ensures forall k :: 0 <= k < |n.edges| ==> m.flow[k] == searched.flow[k] + PostShift(n, k)
    ensures forall v :: NetOut(m, v) == NetOut(n, v) + NetOutOf(n.edges, Shifts(n.edges, Source(n), Sink(n)), v)
    ensures Balanced(n) ==> Conserved(m, Source(n), Sink(n))
    ensures Shaped(n) ==> (FlowBounded(m) <==> Covered(n, searched) && Capped(n, searched))
    ensures Shaped(n) ==> forall k :: 0 <= k < |n.edges| && n.edges[k].hasAction && !Entered(n, n.edges[k].from) ==>
      m.flow[k] == -1
    ensures HomeBound(n.edges, n.root) && (forall k :: 0 <= k < |n.flow| ==> n.flow[k] >= 0) ==>
      forall k :: 0 <= k < |n.edges| && n.edges[k].hasAction && Reached(n.edges, n.root, n.edges[k].from) ==> searched.flow[k] >= 1
  {
    ghost var home := HomeBound(n.edges, n.root) && forall k :: 0 <= k < |n.flow| ==> n.flow[k] >= 0;
    var used := seq(|n.adj|, _ => false)[n.root := true];
    if home {
      StartSearching(n, used);
    }
    var used';
    searched, used' := FromRoot(n, used, 0, home);
    if home {
      assert {} + {n.root} == {n.root};
      SettleNode(searched, used', {}, n.root);
      ReachedCovered(searched, used');
    }
    m := ClosingPass(searched, 0);
    ClosingNetOut(n, searched, m);
    if Shaped(n) {
      ClosingBounds(n, searched, m);
    }
  }
}
