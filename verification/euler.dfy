/**
 * `EulerFlowPathExtractor`: reads the paths of a flow cover off a network
 * that may have cycles, Hierholzer-style. A stack of views (a
 * `FileIntStack`) holds the walk from the root being extended; the view on
 * top is extended by the first forward view out of its target that still
 * carries flow and does not enter the sink, taking a unit from it, and when
 * its target's cursor is exhausted it is popped. Popped action views are
 * collected; a path ends when a view leaving the root is popped after
 * something was collected, and is returned in reverse order of popping.
 */
module EulerFlowPathExtractor {
  import opened StateNetwork
  import opened Sequences
  import FileIntStack

  /** The extractor's state: the network it consumes, the edge stack and the cursors (`adjListPt`). */
  datatype Extractor = Extractor(net: Network, stack: FileIntStack.Stack, ptr: seq<int>)

  /**
   * The stack read bottom to top is a walk from the root, and every view
   * above the bottom one was taken by an extension: forward and not into
   * the sink.
   */
  ghost predicate StackWalk(n: Network, c: seq<int>)
    requires |n.adj| > 0
  {
    && (forall i :: 0 <= i < |c| ==> 0 <= c[i] < EdgeCount(n))
    && (|c| > 0 ==> ViewFrom(n, c[0]) == n.root)
    && (forall i :: 0 <= i < |c| - 1 ==> ViewTo(n, c[i]) == ViewFrom(n, c[i + 1]))
    && (forall i :: 0 < i < |c| ==> c[i] % 2 == 0 && ViewTo(n, c[i]) != Sink(n))
  }

  /** The extractor's invariant. */
  ghost predicate Sound(x: Extractor) {
    && Ready(x.net) && Cursors(x.net, x.ptr)
    && FileIntStack.Valid(x.stack) && StackWalk(x.net, FileIntStack.Contents(x.stack))
  }

  /** Every extension takes a positive unit and pushes one view; every other step pops one. */
  function Measure(x: Extractor): nat
    requires FileIntStack.Valid(x.stack)
  {
    2 * PositiveFlow(x.net.flow) + FileIntStack.Size(x.stack)
  }

  /** The constructor: takes a unit from the first view listed at the root and pushes it. */
  function New(n: Network): (x: Extractor)
    requires Ready(n) && |n.adj[n.root]| > 0
    ensures Sound(x)
    ensures FileIntStack.Contents(x.stack) == [n.adj[n.root][0]]
    ensures x.net == IncFlow(n, n.adj[n.root][0], -1)
    ensures forall u :: 0 <= u < |x.ptr| ==> x.ptr[u] == 0
  {
    var first := n.adj[n.root][0];
    AdjView(n, n.root, 0);
    var s := FileIntStack.Push(FileIntStack.New(FileIntStack.DefaultBatchSize), first);
    var x := Extractor(IncFlow(n, first, -1), s, seq(|n.adj|, _ => 0));
    NewSound(n, x);
    x
  }

  /** The state the constructor builds satisfies the invariant. */
  lemma NewSound(n: Network, x: Extractor)
    requires Ready(n) && |n.adj[n.root]| > 0 && 0 <= n.adj[n.root][0] < EdgeCount(n)
    requires x.net == IncFlow(n, n.adj[n.root][0], -1) && x.ptr == seq(|n.adj|, _ => 0)
    requires FileIntStack.Valid(x.stack) && FileIntStack.Contents(x.stack) == [] + [n.adj[n.root][0]]
    ensures Sound(x) && FileIntStack.Contents(x.stack) == [n.adj[n.root][0]]
  {
    var first := n.adj[n.root][0];
    assert [] + [first] == [first];
    ConsumeOne(n, first);
    ReadyFrame(n, x.net);
  }

  /** `hasNext()`: the stack is not empty. */
  function HasNext(x: Extractor): (r: bool)
    requires FileIntStack.Valid(x.stack)
    ensures r <==> FileIntStack.Contents(x.stack) != []
  {
    !FileIntStack.IsEmpty(x.stack)
  }

  /** The cursor loop at v from position k: the first position holding a takeable view, or the end of the list. */
  function FirstTakeable(n: Network, v: int, k: int): (r: int)
    requires Valid(n) && 0 <= v < |n.adj| && 0 <= k <= |n.adj[v]|
    ensures k <= r <= |n.adj[v]|
    ensures forall i :: k <= i < r ==> !Takeable(n, n.adj[v][i])
    ensures r < |n.adj[v]| ==> Takeable(n, n.adj[v][r])
    decreases |n.adj[v]| - k
  {
    if k == |n.adj[v]| then k
    else if Takeable(n, n.adj[v][k]) then k
    else FirstTakeable(n, v, k + 1)
  }

  /** The trail edges popping the views of es in order collects: one per action view. */
  function Emitted(n: Network, es: seq<int>): seq<TrailEdge>
    requires forall i :: 0 <= i < |es| ==> 0 <= es[i] < 2 * |n.edges|
    decreases |es|
  {
    if |es| == 0 then []
    else (if es[0] % 2 == 0 && RecordHasAction(n, es[0]) then [TrailEdgeOf(n, es[0])] else []) + Emitted(n, es[1..])
  }

  /** What popping collects depends on the records only, not on flows or lists. */
  lemma {:induction false} EmittedFrame(n: Network, m: Network, es: seq<int>)
    requires m.edges == n.edges && EdgeCount(m) == EdgeCount(n)
    requires forall i :: 0 <= i < |es| ==> 0 <= es[i] < EdgeCount(n)
    ensures Emitted(m, es) == Emitted(n, es)
    decreases |es|
  {
    if |es| > 0 {
      EmittedFrame(n, m, es[1..]);
    }
  }

  /** The views pushed were taken by extensions: forward, not into the sink, one unit each, none overdrawn. */
  ghost predicate Took(n: Network, pushed: seq<int>, m: Network)
    requires |n.adj| > 0 && |n.flow| == |n.edges|
  {
    && (forall i :: 0 <= i < |pushed| ==> 0 <= pushed[i] < EdgeCount(n) && pushed[i] % 2 == 0 && ViewTo(n, pushed[i]) != Sink(n))
    && m == Consume(n, pushed)
    && (forall k :: 0 <= k < |n.flow| && n.flow[k] >= 0 ==> m.flow[k] >= 0)
  }

  /** Every view on the stack before or pushed since is on the stack after or was popped, and nothing else is. */
  ghost predicate Kept(c: seq<int>, pushed: seq<int>, c': seq<int>, popped: seq<int>) {
    multiset(c) + multiset(pushed) == multiset(c') + multiset(popped)
  }

  /** The popped action views are collected, in order of popping. */
  ghost predicate Collected(n: Network, popped: seq<int>, path: seq<TrailEdge>, path': seq<TrailEdge>) {
    && (forall i :: 0 <= i < |popped| ==> 0 <= popped[i] < EdgeCount(n))
    && path' == path + Emitted(n, popped)
  }

  /** Cursors only advance, and the target of every popped view has an exhausted cursor. */
  ghost predicate Moved(n: Network, ptr: seq<int>, ptr': seq<int>, popped: seq<int>) {
    && Advanced(n, ptr, ptr')
    && (forall i :: 0 <= i < |popped| ==>
          0 <= popped[i] < EdgeCount(n) && 0 <= ViewTo(n, popped[i]) < |ptr'| && ptr'[ViewTo(n, popped[i])] == |n.adj[ViewTo(n, popped[i])]|)
  }

  /** The loop stops on an empty stack or right after a pop from the root that found something collected. */
  ghost predicate Stopped(n: Network, c': seq<int>, popped: seq<int>, path': seq<TrailEdge>) {
    c' == [] || (|popped| > 0 && 0 <= popped[|popped| - 1] < EdgeCount(n) && ViewFrom(n, popped[|popped| - 1]) == n.root && |path'| > 0)
  }

  /**
   * What a run of the loop of `next()` does, from x with `path` collected
   * so far to x' with `path'`; on a stack that is not empty it makes
   * progress.
   */
  ghost predicate LoopResult(x: Extractor, path: seq<TrailEdge>, path': seq<TrailEdge>, x': Extractor,
                             pushed: seq<int>, popped: seq<int>)
    requires Sound(x)
  {
    && Sound(x')
    && Took(x.net, pushed, x'.net)
    && Kept(FileIntStack.Contents(x.stack), pushed, FileIntStack.Contents(x'.stack), popped)
    && Collected(x.net, popped, path, path')
    && Moved(x.net, x.ptr, x'.ptr, popped)
    && Stopped(x.net, FileIntStack.Contents(x'.stack), popped, path')
    && Measure(x') <= Measure(x)
    && (FileIntStack.Contents(x.stack) != [] ==> Measure(x') < Measure(x))
  }

  /**
   * The loop of `next()` from x, with `path` collected so far: while the
   * stack is not empty, look at the view on top and run the cursor of its
   * target; extend if that found a takeable view, retreat otherwise.
   */
  method Loop(x: Extractor, path: seq<TrailEdge>)
    returns (path': seq<TrailEdge>, x': Extractor, ghost pushed: seq<int>, ghost popped: seq<int>)
    requires Sound(x)
    ensures LoopResult(x, path, path', x', pushed, popped)
    ensures Sound(x') && |path| <= |path'| && path'[..|path|] == path
    ensures FileIntStack.Contents(x'.stack) == [] || |path'| > 0
    decreases Measure(x), 1
  {
    if FileIntStack.IsEmpty(x.stack) {
      EmptyLoop(x, path);
      return path, x, [], [];
    }
    var (top, s1) := FileIntStack.Peek(x.stack).value;
    var edge := GetEdge(x.net, top);
    GetEdgeParts(x.net, top);
    ViewEnds(x.net, top);
    var v := edge.to;
    var k := FirstTakeable(x.net, v, x.ptr[v]);
    if k < |x.net.adj[v]| {
      path', x', pushed, popped := ExtendAndLoop(x, path, s1, top, v, k);
    } else {
      path', x', pushed, popped := RetreatAndLoop(x, path, s1, top, edge);
    }
  }

  /** The cursor of v, the target of `top`, stopped at position k on a takeable view: take it, push it, go on. */
  method ExtendAndLoop(x: Extractor, path: seq<TrailEdge>, s1: FileIntStack.Stack, top: int, v: int, k: int)
    returns (path': seq<TrailEdge>, x': Extractor, ghost pushed: seq<int>, ghost popped: seq<int>)
    requires Sound(x) && FileIntStack.Valid(s1) && FileIntStack.Contents(s1) == FileIntStack.Contents(x.stack)
    requires |FileIntStack.Contents(s1)| > 0 && top == FileIntStack.Contents(s1)[|FileIntStack.Contents(s1)| - 1]
    requires 0 <= top < EdgeCount(x.net) && v == ViewTo(x.net, top) && 0 <= v < |x.net.adj|
    requires x.ptr[v] <= k < |x.net.adj[v]| && Takeable(x.net, x.net.adj[v][k])
    ensures LoopResult(x, path, path', x', pushed, popped)
    decreases Measure(x), 0
  {
    var j := x.net.adj[v][k];
    AdjView(x.net, v, k);
    var x1 := Extractor(IncFlow(x.net, j, -1), FileIntStack.Push(s1, j), x.ptr[v := k]);
    Extend(x, s1, top, v, k, x1);
    AdvanceCursor(x.net, x.ptr, v, k);
    ghost var pushed1;
    path', x', pushed1, popped := Loop(x1, path);
    pushed := [j] + pushed1;
    ExtendLoop(x, x1, j, path, path', x', pushed1, popped);
  }

  /**
   * The cursor of the target of `top` (read as `edge`) is exhausted: pop
   * `top`, collect it if it is an action view, and stop if it leaves the
   * root and something was collected.
   */
  method RetreatAndLoop(x: Extractor, path: seq<TrailEdge>, s1: FileIntStack.Stack, top: int, edge: Edge)
    returns (path': seq<TrailEdge>, x': Extractor, ghost pushed: seq<int>, ghost popped: seq<int>)
    requires Sound(x) && FileIntStack.Valid(s1) && FileIntStack.Contents(s1) == FileIntStack.Contents(x.stack)
    requires |FileIntStack.Contents(s1)| > 0 && top == FileIntStack.Contents(s1)[|FileIntStack.Contents(s1)| - 1]
    requires 0 <= top < EdgeCount(x.net) && edge == GetEdge(x.net, top)
    requires edge.to == ViewTo(x.net, top) && edge.from == ViewFrom(x.net, top) && 0 <= edge.to < |x.net.adj|
    ensures LoopResult(x, path, path', x', pushed, popped)
    decreases Measure(x), 0
  {
    var v := edge.to;
    var (e, s2) := FileIntStack.Pop(s1).value;
    var path1 := path + (if edge.hasAction then [TrailEdge(e / 2, edge.from - 1, edge.to - 1)] else []);
    var x1 := Extractor(x.net, s2, x.ptr[v := |x.net.adj[v]|]);
    Retreat(x, s1, top, e, s2, v);
    EmittedOne(x.net, e, edge);
    if edge.from == x.net.root && |path1| > 0 {
      RetreatLast(x, x1, e, path, path1);
      return path1, x1, [], [e];
    }
    ghost var popped1;
    path', x', pushed, popped1 := Loop(x1, path1);
    popped := [e] + popped1;
    RetreatLoop(x, x1, e, path, path1, path', x', pushed, popped1);
  }

  /** What popping one view collects. */
  lemma EmittedOne(n: Network, e: int, edge: Edge)
    requires 0 <= e < EdgeCount(n) && |n.flow| == |n.edges| && edge == GetEdge(n, e)
    ensures Emitted(n, [e]) == (if edge.hasAction then [TrailEdge(e / 2, edge.from - 1, edge.to - 1)] else [])
  {
    assert [e][1..] == [];
    GetEdgeParts(n, e);
  }

  /** On an empty stack the loop does nothing. */
  lemma EmptyLoop(x: Extractor, path: seq<TrailEdge>)
    requires Sound(x) && FileIntStack.Contents(x.stack) == []
    ensures LoopResult(x, path, path, x, [], [])
  {
    assert Consume(x.net, []) == x.net;
  }

  /** Pushing a view that leaves the top's target keeps the stack a walk from the root. */
  lemma ExtendWalk(n: Network, m: Network, c: seq<int>, j: int)
    requires |n.adj| > 0 && m.adj == n.adj && m.edges == n.edges && m.sink == n.sink && m.root == n.root
    requires StackWalk(n, c) && |c| > 0 && 0 <= j < EdgeCount(n)
    requires ViewFrom(n, j) == ViewTo(n, c[|c| - 1]) && j % 2 == 0 && ViewTo(n, j) != Sink(n)
    ensures StackWalk(m, c + [j])
  {
    assert forall i :: 0 <= i < |c| ==> (c + [j])[i] == c[i];
  }

  /** Popping keeps the stack a walk from the root. */
  lemma PopWalk(n: Network, c: seq<int>, e: int)
    requires |n.adj| > 0 && StackWalk(n, c + [e])
    ensures StackWalk(n, c)
  {
    assert forall i :: 0 <= i < |c| ==> (c + [e])[i] == c[i];
  }

  /** A network that differs in flows only is as ready. */
  lemma ReadyFrame(n: Network, m: Network)
    requires Ready(n) && m == n.(flow := m.flow) && |m.flow| == |n.flow|
    ensures Ready(m)
  {
  }

  /** An extension: the view found at position k of v's list is taken and pushed on top of `top`. */
  lemma Extend(x: Extractor, s1: FileIntStack.Stack, top: int, v: int, k: int, x1: Extractor)
    requires Sound(x) && FileIntStack.Valid(s1) && FileIntStack.Contents(s1) == FileIntStack.Contents(x.stack)
    requires |FileIntStack.Contents(s1)| > 0 && top == FileIntStack.Contents(s1)[|FileIntStack.Contents(s1)| - 1]
    requires 0 <= top < EdgeCount(x.net) && v == ViewTo(x.net, top) && 0 <= v < |x.net.adj|
    requires x.ptr[v] <= k < |x.net.adj[v]| && 0 <= x.net.adj[v][k] < EdgeCount(x.net)
    requires ViewFrom(x.net, x.net.adj[v][k]) == v && Takeable(x.net, x.net.adj[v][k])
    requires x1 == Extractor(IncFlow(x.net, x.net.adj[v][k], -1), FileIntStack.Push(s1, x.net.adj[v][k]), x.ptr[v := k])
    ensures Sound(x1) && Measure(x1) < Measure(x)
  {
    var j := x.net.adj[v][k];
    var m := IncFlow(x.net, j, -1);
    assert m.flow == x.net.flow[j / 2 := x.net.flow[j / 2] - 1];
    PositiveFlowDrop(x.net.flow, j / 2);
    ReadyFrame(x.net, m);
    AdvanceCursor(x.net, x.ptr, v, k);
    ExtendWalk(x.net, m, FileIntStack.Contents(s1), j);
  }

  /** Consuming one more view in front. */
  lemma TookCons(n: Network, j: int, n1: Network, pushed1: seq<int>, m: Network)
    requires |n.adj| > 0 && |n.flow| == |n.edges|
    requires 0 <= j < EdgeCount(n) && j % 2 == 0 && ViewTo(n, j) != Sink(n) && n.flow[j / 2] > 0
    requires n1 == IncFlow(n, j, -1) && Took(n1, pushed1, m)
    ensures Took(n, [j] + pushed1, m)
  {
    var pushed := [j] + pushed1;
    assert pushed[0] == j && pushed[1..] == pushed1;
    assert forall i :: 0 < i < |pushed| ==> pushed[i] == pushed1[i - 1];
  }

  /** Prepending an extension to the rest of the loop. */
  lemma ExtendLoop(x: Extractor, x1: Extractor, j: int, path: seq<TrailEdge>, path': seq<TrailEdge>, x': Extractor,
                   pushed1: seq<int>, popped: seq<int>)
    requires Sound(x) && Sound(x1) && FileIntStack.Contents(x.stack) != []
    requires 0 <= j < 2 * |x.net.edges| && Takeable(x.net, j)
    requires x1.net == IncFlow(x.net, j, -1) && FileIntStack.Contents(x1.stack) == FileIntStack.Contents(x.stack) + [j]
    requires Advanced(x.net, x.ptr, x1.ptr) && Measure(x1) < Measure(x)
    requires LoopResult(x1, path, path', x', pushed1, popped)
    ensures LoopResult(x, path, path', x', [j] + pushed1, popped)
  {
    TookCons(x.net, j, x1.net, pushed1, x'.net);
    KeptPush(FileIntStack.Contents(x.stack), FileIntStack.Contents(x1.stack), j, pushed1, FileIntStack.Contents(x'.stack), popped);
    FlowFrame(x.net, x1.net, x1.ptr, x'.ptr, popped, path, path', FileIntStack.Contents(x'.stack));
    MovedAfter(x.net, x.ptr, x1.ptr, x'.ptr, popped);
  }

  /** The stack accounting with one more push in front. */
  lemma KeptPush(c: seq<int>, c1: seq<int>, j: int, pushed1: seq<int>, c': seq<int>, popped: seq<int>)
    requires c1 == c + [j] && Kept(c1, pushed1, c', popped)
    ensures Kept(c, [j] + pushed1, c', popped)
  {
    assert multiset(c1) == multiset(c) + multiset{j};
    assert multiset([j] + pushed1) == multiset{j} + multiset(pushed1);
    assert multiset(c) + multiset([j] + pushed1) == multiset(c1) + multiset(pushed1);
  }

  /** What the loop says about popped views depends on the network's structure, not on its flows. */
  lemma FlowFrame(n: Network, m: Network, ptr: seq<int>, ptr': seq<int>, popped: seq<int>,
                  path: seq<TrailEdge>, path': seq<TrailEdge>, c': seq<int>)
    requires m == n.(flow := m.flow) && |m.flow| == |n.flow|
    requires Collected(m, popped, path, path') && Moved(m, ptr, ptr', popped) && Stopped(m, c', popped, path')
    ensures Collected(n, popped, path, path') && Moved(n, ptr, ptr', popped) && Stopped(n, c', popped, path')
  {
    EmittedFrame(n, m, popped);
  }

  /** Cursors advanced before a run stay advanced after it. */
  lemma MovedAfter(n: Network, ptr: seq<int>, ptr1: seq<int>, ptr': seq<int>, popped: seq<int>)
    requires Advanced(n, ptr, ptr1) && Moved(n, ptr1, ptr', popped)
    ensures Moved(n, ptr, ptr', popped)
  {
    AdvancedTrans(n, ptr, ptr1, ptr');
  }

  /** A retreat: the target of `top` is exhausted, so `top` is popped. */
  lemma Retreat(x: Extractor, s1: FileIntStack.Stack, top: int, e: int, s2: FileIntStack.Stack, v: int)
    requires Sound(x) && FileIntStack.Valid(s1) && FileIntStack.Contents(s1) == FileIntStack.Contents(x.stack)
    requires |FileIntStack.Contents(s1)| > 0 && top == FileIntStack.Contents(s1)[|FileIntStack.Contents(s1)| - 1]
    requires FileIntStack.Valid(s2) && FileIntStack.Contents(s1) == FileIntStack.Contents(s2) + [e]
    requires 0 <= top < EdgeCount(x.net) && v == ViewTo(x.net, top) && 0 <= v < |x.net.adj|
    ensures e == top
    ensures Sound(Extractor(x.net, s2, x.ptr[v := |x.net.adj[v]|]))
    ensures Measure(Extractor(x.net, s2, x.ptr[v := |x.net.adj[v]|])) < Measure(x)
    ensures Advanced(x.net, x.ptr, x.ptr[v := |x.net.adj[v]|])
  {
    PopWalk(x.net, FileIntStack.Contents(s2), e);
  }

  /** The pop that ends a path: a view from the root, with something collected. */
  lemma RetreatLast(x: Extractor, x1: Extractor, e: int, path: seq<TrailEdge>, path1: seq<TrailEdge>)
    requires Sound(x) && Sound(x1) && x1.net == x.net && FileIntStack.Contents(x.stack) != []
    requires 0 <= e < EdgeCount(x.net) && FileIntStack.Contents(x.stack) == FileIntStack.Contents(x1.stack) + [e]
    requires 0 <= ViewTo(x.net, e) < |x.net.adj|
    requires Advanced(x.net, x.ptr, x1.ptr) && x1.ptr[ViewTo(x.net, e)] == |x.net.adj[ViewTo(x.net, e)]|
    requires Measure(x1) < Measure(x)
    requires path1 == path + Emitted(x.net, [e]) && ViewFrom(x.net, e) == x.net.root && |path1| > 0
    ensures LoopResult(x, path, path1, x1, [], [e])
  {
    assert Consume(x.net, []) == x.net;
  }

  /** Popping one more view in front. */
  lemma CollectedCons(n: Network, e: int, path: seq<TrailEdge>, path1: seq<TrailEdge>, popped1: seq<int>, path': seq<TrailEdge>)
    requires 0 <= e < EdgeCount(n) && path1 == path + Emitted(n, [e])
    requires Collected(n, popped1, path1, path')
    ensures Collected(n, [e] + popped1, path, path')
  {
    var popped := [e] + popped1;
    assert popped[0] == e && popped[1..] == popped1 && [e][1..] == [];
    assert forall i :: 0 < i < |popped| ==> popped[i] == popped1[i - 1];
  }

  /** The stack accounting with one more pop in front. */
  lemma KeptPop(c: seq<int>, c1: seq<int>, e: int, pushed: seq<int>, c': seq<int>, popped1: seq<int>)
    requires c == c1 + [e] && Kept(c1, pushed, c', popped1)
    ensures Kept(c, pushed, c', [e] + popped1)
  {
    var l, r := multiset(c) + multiset(pushed), multiset(c') + multiset([e] + popped1);
    assert multiset(c) == multiset(c1) + multiset{e};
    assert multiset([e] + popped1) == multiset{e} + multiset(popped1);
    assert l == (multiset(c1) + multiset(pushed)) + multiset{e};
    assert r == (multiset(c') + multiset(popped1)) + multiset{e};
  }

  /** The cursor facts with one more pop in front. */
  lemma MovedPop(n: Network, ptr: seq<int>, ptr1: seq<int>, ptr': seq<int>, e: int, popped1: seq<int>)
    requires Advanced(n, ptr, ptr1) && 0 <= e < EdgeCount(n) && 0 <= ViewTo(n, e) < |ptr1|
    requires ptr1[ViewTo(n, e)] == |n.adj[ViewTo(n, e)]|
    requires Moved(n, ptr1, ptr', popped1)
    ensures Moved(n, ptr, ptr', [e] + popped1)
  {
    AdvancedTrans(n, ptr, ptr1, ptr');
    var popped := [e] + popped1;
    assert forall i :: 0 < i < |popped| ==> popped[i] == popped1[i - 1];
  }

  /** The stopping condition with one more pop in front. */
  lemma StoppedPop(n: Network, c': seq<int>, e: int, popped1: seq<int>, path': seq<TrailEdge>)
    requires 0 <= e < EdgeCount(n) && Stopped(n, c', popped1, path')
    ensures Stopped(n, c', [e] + popped1, path')
  {
    if |popped1| > 0 {
      assert ([e] + popped1)[|popped1|] == popped1[|popped1| - 1];
    }
  }

  /** Prepending a pop to the rest of the loop. */
  lemma RetreatLoop(x: Extractor, x1: Extractor, e: int, path: seq<TrailEdge>, path1: seq<TrailEdge>,
                    path': seq<TrailEdge>, x': Extractor, pushed: seq<int>, popped1: seq<int>)
    requires Sound(x) && Sound(x1) && x1.net == x.net && FileIntStack.Contents(x.stack) != []
    requires 0 <= e < EdgeCount(x.net) && FileIntStack.Contents(x.stack) == FileIntStack.Contents(x1.stack) + [e]
    requires 0 <= ViewTo(x.net, e) < |x.net.adj|
    requires Advanced(x.net, x.ptr, x1.ptr) && x1.ptr[ViewTo(x.net, e)] == |x.net.adj[ViewTo(x.net, e)]|
    requires Measure(x1) < Measure(x)
    requires path1 == path + Emitted(x.net, [e])
    requires LoopResult(x1, path1, path', x', pushed, popped1)
    ensures LoopResult(x, path, path', x', pushed, [e] + popped1)
  {
    ViewEnds(x.net, e);
    CollectedCons(x.net, e, path, path1, popped1, path');
    KeptPop(FileIntStack.Contents(x.stack), FileIntStack.Contents(x1.stack), e, pushed, FileIntStack.Contents(x'.stack), popped1);
    MovedPop(x.net, x.ptr, x1.ptr, x'.ptr, e, popped1);
    StoppedPop(x.net, FileIntStack.Contents(x'.stack), e, popped1, path');
  }

  /**
   * `next()`: runs the loop with nothing collected and returns what it
   * collected, last pop first.
   */
  method Next(x: Extractor) returns (path: seq<TrailEdge>, x': Extractor, ghost pushed: seq<int>, ghost popped: seq<int>)
    requires Sound(x)
    ensures LoopResult(x, [], Reverse(path), x', pushed, popped)
    ensures Sound(x') && (FileIntStack.Contents(x'.stack) == [] || |path| > 0)
  {
    var collected;
    collected, x', pushed, popped := Loop(x, []);
    path := Reverse(collected);
    ReverseTwice(collected);
  }

  /** All paths one after the other. */
  function Flatten(paths: seq<seq<TrailEdge>>): seq<TrailEdge>
    decreases |paths|
  {
    if |paths| == 0 then [] else paths[0] + Flatten(paths[1..])
  }

  /** Popping two runs of views collects what each collects, in order. */
  lemma {:induction false} EmittedAppend(n: Network, a: seq<int>, b: seq<int>)
    requires forall i :: 0 <= i < |a| ==> 0 <= a[i] < 2 * |n.edges|
    requires forall i :: 0 <= i < |b| ==> 0 <= b[i] < 2 * |n.edges|
    ensures Emitted(n, a + b) == Emitted(n, a) + Emitted(n, b)
    decreases |a|
  {
    if |a| == 0 {
      assert a + b == b;
    } else {
      assert (a + b)[0] == a[0] && (a + b)[1..] == a[1..] + b;
      EmittedAppend(n, a[1..], b);
    }
  }

  /**
   * Record k's transition is collected exactly as often as its forward view
   * is popped when k carries an action: backward views are never collected
   * and no other record yields the same trail edge.
   */
  lemma {:induction false} EmittedCount(n: Network, es: seq<int>, k: int)
    requires forall i :: 0 <= i < |es| ==> 0 <= es[i] < 2 * |n.edges|
    requires 0 <= k < |n.edges| && n.edges[k].hasAction
    ensures multiset(Emitted(n, es))[TrailEdgeOf(n, 2 * k)] == multiset(es)[2 * k]
    decreases |es|
  {
    if |es| > 0 {
      var e, rest := es[0], es[1..];
      var t := TrailEdgeOf(n, 2 * k);
      EmittedCount(n, rest, k);
      EmitsRecord(n, e, k);
      var head := if e % 2 == 0 && RecordHasAction(n, e) then [TrailEdgeOf(n, e)] else [];
      assert Emitted(n, es) == head + Emitted(n, rest);
      assert multiset(head)[t] == if e == 2 * k then 1 else 0;
      assert multiset(Emitted(n, es))[t] == multiset(head)[t] + multiset(Emitted(n, rest))[t];
      assert es == [e] + rest;
      assert multiset(es)[2 * k] == multiset([e])[2 * k] + multiset(rest)[2 * k];
    }
  }

  /** A popped view yields record k's trail edge exactly when it is k's forward view. */
  lemma EmitsRecord(n: Network, e: int, k: int)
    requires 0 <= e < 2 * |n.edges| && 0 <= k < |n.edges| && n.edges[k].hasAction
    ensures (e % 2 == 0 && RecordHasAction(n, e) && TrailEdgeOf(n, e) == TrailEdgeOf(n, 2 * k)) <==> e == 2 * k
  {
    if e % 2 == 0 && TrailEdgeOf(n, e) == TrailEdgeOf(n, 2 * k) {
      assert TrailEdgeOf(n, e).id == e / 2 && TrailEdgeOf(n, 2 * k).id == k;
    }
  }

  /** Two runs in a row take what each took. */
  lemma TookChain(n: Network, pushed1: seq<int>, m1: Network, pushed2: seq<int>, m: Network)
    requires |n.adj| > 0 && |n.flow| == |n.edges|
    requires Took(n, pushed1, m1) && Took(m1, pushed2, m)
    ensures Took(n, pushed1 + pushed2, m)
  {
    ConsumeAppend(n, pushed1, pushed2);
    var p := pushed1 + pushed2;
    assert forall i :: 0 <= i < |p| ==> p[i] == if i < |pushed1| then pushed1[i] else pushed2[i - |pushed1|];
  }

  /** Two runs in a row keep the stack accounting. */
  lemma KeptChain(c: seq<int>, pushed1: seq<int>, c1: seq<int>, popped1: seq<int>,
                  pushed2: seq<int>, c': seq<int>, popped2: seq<int>)
    requires Kept(c, pushed1, c1, popped1) && Kept(c1, pushed2, c', popped2)
    ensures Kept(c, pushed1 + pushed2, c', popped1 + popped2)
  {
    var l := multiset(c) + multiset(pushed1 + pushed2);
    var r := multiset(c') + multiset(popped1 + popped2);
    assert multiset(pushed1 + pushed2) == multiset(pushed1) + multiset(pushed2);
    assert multiset(popped1 + popped2) == multiset(popped1) + multiset(popped2);
    forall y ensures l[y] == r[y] {
      assert (multiset(c) + multiset(pushed1))[y] == (multiset(c1) + multiset(popped1))[y];
      assert (multiset(c1) + multiset(pushed2))[y] == (multiset(c') + multiset(popped2))[y];
    }
    assert l == r;
  }

  /**
   * Draining the iterator: `next()` while `hasNext()`. At the end the stack
   * is empty, every view that was on it or was pushed has been popped, and
   * the paths hold exactly the collected trail edges.
   */
  method ExtractAll(x: Extractor) returns (paths: seq<seq<TrailEdge>>, x': Extractor, ghost pushed: seq<int>, ghost popped: seq<int>)
    requires Sound(x)
    ensures Sound(x') && FileIntStack.Contents(x'.stack) == []
    ensures Took(x.net, pushed, x'.net)
    ensures Kept(FileIntStack.Contents(x.stack), pushed, [], popped)
    ensures forall i :: 0 <= i < |popped| ==> 0 <= popped[i] < EdgeCount(x.net)
    ensures multiset(Flatten(paths)) == multiset(Emitted(x.net, popped))
    decreases Measure(x)
  {
    if !HasNext(x) {
      assert Consume(x.net, []) == x.net;
      return [], x, [], [];
    }
    var path, x1; ghost var pushed1, popped1;
    path, x1, pushed1, popped1 := Next(x);
    var rest; ghost var pushed2, popped2;
    rest, x', pushed2, popped2 := ExtractAll(x1);
    paths := [path] + rest;
    pushed, popped := pushed1 + pushed2, popped1 + popped2;
    DrainStep(x.net, x1.net, x'.net, FileIntStack.Contents(x.stack), FileIntStack.Contents(x1.stack),
              path, rest, pushed1, popped1, pushed2, popped2);
  }

  /** One `next()` followed by the rest of the drain. */
  lemma DrainStep(n: Network, n1: Network, m: Network, c: seq<int>, c1: seq<int>,
                  path: seq<TrailEdge>, rest: seq<seq<TrailEdge>>,
                  pushed1: seq<int>, popped1: seq<int>, pushed2: seq<int>, popped2: seq<int>)
    requires |n.adj| > 0 && |n.flow| == |n.edges|
    requires Took(n, pushed1, n1) && Took(n1, pushed2, m)
    requires Kept(c, pushed1, c1, popped1) && Kept(c1, pushed2, [], popped2)
    requires forall i :: 0 <= i < |popped1| ==> 0 <= popped1[i] < 2 * |n.edges|
    requires forall i :: 0 <= i < |popped2| ==> 0 <= popped2[i] < 2 * |n1.edges|
    requires Reverse(path) == [] + Emitted(n, popped1)
    requires multiset(Flatten(rest)) == multiset(Emitted(n1, popped2))
    ensures Took(n, pushed1 + pushed2, m)
    ensures Kept(c, pushed1 + pushed2, [], popped1 + popped2)
    ensures forall i :: 0 <= i < |popped1 + popped2| ==> 0 <= (popped1 + popped2)[i] < 2 * |n.edges|
    ensures multiset(Flatten([path] + rest)) == multiset(Emitted(n, popped1 + popped2))
  {
    TookChain(n, pushed1, n1, pushed2, m);
    KeptChain(c, pushed1, c1, popped1, pushed2, [], popped2);
    EmittedAppend(n, popped1, popped2);
    EmittedFrame(n, n1, popped2);
    ReverseMultiset(path);
    assert multiset(path) == multiset(Emitted(n, popped1));
    assert ([path] + rest)[1..] == rest;
    assert Flatten([path] + rest) == path + Flatten(rest);
  }

  /**
   * Every unit taken is read out exactly once: for an action record, the
   * number of times its transition appears in the extracted paths is the
   * number of its forward views on the stack at the start plus the units
   * taken from it on the way.
   */
  lemma EveryUnitOnce(n: Network, c: seq<int>, pushed: seq<int>, m: Network, popped: seq<int>,
                      flat: seq<TrailEdge>, k: int)
    requires |n.adj| > 0 && |n.flow| == |n.edges|
    requires Took(n, pushed, m) && Kept(c, pushed, [], popped)
    requires forall i :: 0 <= i < |popped| ==> 0 <= popped[i] < 2 * |n.edges|
    requires multiset(flat) == multiset(Emitted(n, popped))
    requires 0 <= k < |n.edges| && n.edges[k].hasAction
    ensures multiset(flat)[TrailEdgeOf(n, 2 * k)] == multiset(c)[2 * k] + n.flow[k] - m.flow[k]
  {
    EmittedCount(n, popped, k);
    ConsumeFlow(n, pushed, k);
    assert (multiset(c) + multiset(pushed))[2 * k] == (multiset([]) + multiset(popped))[2 * k];
  }
}
