/**
 * The disk-backed LIFO of ints (`FileIntStack`). Two in-memory batches of
 * `batchSize` ints form a window over the top of the stack; everything below
 * the window lives in numbered batch files. The files are modelled as a map
 * from batch index to the ints the file holds.
 */
module FileIntStack {
  import opened Errors
  import opened Sequences

  /** 64 KiB worth of 4-byte ints. */
  const DefaultBatchSize: nat := 16384

  /**
   * `first` and `second` hold the ints written to each buffer, up to its
   * position; `disk[i]` is the content of batch file `i`.
   */
  datatype Stack = Stack(
    batchSize: nat,
    batchPos: nat,
    first: seq<int>,
    second: seq<int>,
    disk: map<nat, seq<int>>)

  /** The representation invariant every operation keeps. */
  ghost predicate Valid(s: Stack) {
    && s.batchSize > 0
    && |s.first| <= s.batchSize
    && |s.second| <= s.batchSize
    // the second buffer is only written once the first is full
    && (|s.second| > 0 ==> |s.first| == s.batchSize)
    // exactly the files 0 .. batchPos-1 exist, each a full batch
    && (forall i: nat :: i in s.disk <==> i < s.batchPos)
    && (forall i: nat :: i in s.disk ==> |s.disk[i]| == s.batchSize)
  }

  /** The concatenation of batch files 0 .. k-1, bottom of the stack first. */
  function Spilled(disk: map<nat, seq<int>>, k: nat): seq<int>
    requires forall i: nat :: i < k ==> i in disk
  {
    if k == 0 then [] else Spilled(disk, k - 1) + disk[k - 1]
  }

  /** The logical contents of the stack, bottom first. */
  function Contents(s: Stack): seq<int>
    requires Valid(s)
  {
    Spilled(s.disk, s.batchPos) + s.first + s.second
  }

  /** Full batch files hold b ints each. */
  lemma {:induction false} SpilledLength(disk: map<nat, seq<int>>, k: nat, b: nat)
    requires forall i: nat :: i < k ==> i in disk && |disk[i]| == b
    ensures |Spilled(disk, k)| == b * k
  {
    if k > 0 {
      SpilledLength(disk, k - 1, b);
      assert b * k == b * (k - 1) + b;
    }
  }

  /** Files below index k are all a stack sees of `disk`. */
  lemma {:induction false} SpilledFrame(d1: map<nat, seq<int>>, d2: map<nat, seq<int>>, k: nat)
    requires forall i: nat :: i < k ==> i in d1 && i in d2 && d1[i] == d2[i]
    ensures Spilled(d1, k) == Spilled(d2, k)
  {
    if k > 0 {
      SpilledFrame(d1, d2, k - 1);
    }
  }

  /** The constructor: both buffers empty, no files. */
  function New(batchSize: nat): (s: Stack)
    requires batchSize > 0
    ensures Valid(s) && Contents(s) == []
  {
    Stack(batchSize, 0, [], [], map[])
  }

  /** `size()`: computed from the window position, equal to the number of ints held. */
  function Size(s: Stack): (r: nat)
    requires Valid(s)
    ensures r == |Contents(s)|
  {
    SpilledLength(s.disk, s.batchPos, s.batchSize);
    if |s.first| < s.batchSize then s.batchSize * s.batchPos + |s.first|
    else s.batchSize * (s.batchPos + 1) + |s.second|
  }

  /** `isEmpty()`: no spilled batch and nothing in the first buffer. */
  function IsEmpty(s: Stack): (r: bool)
    requires Valid(s)
    ensures r <==> Contents(s) == []
    ensures r <==> Size(s) == 0
  {
    SpilledLength(s.disk, s.batchPos, s.batchSize);
    s.batchPos == 0 && |s.first| == 0
  }

  /** `shiftBatchWindowForward`: spill the full first buffer to file `batchPos`, swap, clear. */
  function ShiftForward(s: Stack): (r: Stack)
    requires Valid(s)
    requires |s.second| == s.batchSize
    ensures Valid(r)
    ensures r.batchPos == s.batchPos + 1
    ensures r.disk == s.disk[s.batchPos := s.first]
    ensures r.first == s.second && r.second == []
    ensures Contents(r) == Contents(s)
  {
    var r := Stack(s.batchSize, s.batchPos + 1, s.second, [], s.disk[s.batchPos := s.first]);
    SpilledFrame(s.disk, r.disk, s.batchPos);
    assert Spilled(r.disk, r.batchPos) == Spilled(s.disk, s.batchPos) + s.first;
    r
  }

  /**
   * `shiftBatchWindowBack`: with the first buffer drained, reload the last
   * spilled file into it and delete the file; fails when no file is left.
   */
  function ShiftBack(s: Stack): (r: Result<Stack>)
    requires Valid(s)
    requires s.first == []
    ensures r.Fail? <==> s.batchPos == 0
    ensures r.Fail? ==> r == Fail(IllegalState("Stack is empty"))
    ensures r.Ok? ==> && Valid(r.value)
                      && r.value.batchPos == s.batchPos - 1
                      && r.value.first == s.disk[s.batchPos - 1]
                      && r.value.disk == s.disk - {s.batchPos - 1}
                      && Contents(r.value) == Contents(s)
  {
    if s.batchPos == 0 then
      Fail(IllegalState("Stack is empty"))
    else
      var k := s.batchPos - 1;
      var t := Stack(s.batchSize, k, s.disk[k], s.first, s.disk - {k});
      SpilledFrame(s.disk, t.disk, k);
      Ok(t)
  }

  /** `push(value)`: spill first if the second buffer is full, then write into the first buffer with room. */
  function Push(s: Stack, v: int): (r: Stack)
    requires Valid(s)
    ensures Valid(r)
    ensures Contents(r) == Contents(s) + [v]
    ensures Size(r) == Size(s) + 1
  {
    var t := if |s.second| == s.batchSize then ShiftForward(s) else s;
    if |t.first| < t.batchSize then t.(first := t.first + [v])
    else t.(second := t.second + [v])
  }

  /** Brings a non-empty top into the window, as `pop` and `peek` both do first. */
  function Reload(s: Stack): (r: Result<Stack>)
    requires Valid(s)
    ensures r.Fail? <==> Contents(s) == []
    ensures r.Fail? ==> r == Fail(IllegalState("Stack is empty"))
    ensures r.Ok? ==> Valid(r.value) && |r.value.first| > 0 && Contents(r.value) == Contents(s)
  {
    SpilledLength(s.disk, s.batchPos, s.batchSize);
    if |s.first| == 0 then ShiftBack(s) else Ok(s)
  }

  /** `pop()`: the most recently pushed value still held, or "Stack is empty". */
  function Pop(s: Stack): (r: Result<(int, Stack)>)
    requires Valid(s)
    ensures r.Fail? <==> Contents(s) == []
    ensures r.Fail? ==> r == Fail(IllegalState("Stack is empty"))
    ensures r.Ok? ==> && Valid(r.value.1)
                      && Contents(s) == Contents(r.value.1) + [r.value.0]
                      && Size(r.value.1) == Size(s) - 1
  {
    var t :- Reload(s);
    if |t.second| == 0 then
      Ok((t.first[|t.first| - 1], t.(first := t.first[..|t.first| - 1])))
    else
      Ok((t.second[|t.second| - 1], t.(second := t.second[..|t.second| - 1])))
  }

  /** `peek()`: the value `pop` would return; may move the window but not the contents. */
  function Peek(s: Stack): (r: Result<(int, Stack)>)
    requires Valid(s)
    ensures r.Fail? <==> Contents(s) == []
    ensures r.Fail? ==> r == Fail(IllegalState("Stack is empty"))
    ensures r.Ok? ==> && Valid(r.value.1)
                      && Contents(r.value.1) == Contents(s)
                      && r.value.0 == Contents(s)[|Contents(s)| - 1]
  {
    var t :- Reload(s);
    if |t.second| == 0 then Ok((t.first[|t.first| - 1], t))
    else Ok((t.second[|t.second| - 1], t))
  }

  /** `peek` fails exactly when `pop` fails, and returns the value `pop` would. */
  lemma PeekIsPop(s: Stack)
    requires Valid(s)
    ensures Peek(s).Ok? <==> Pop(s).Ok?
    ensures Pop(s).Ok? ==> Peek(s).value.0 == Pop(s).value.0
  {
    if Pop(s).Ok? {
      var (v, t) := Pop(s).value;
      assert Contents(s)[|Contents(s)| - 1] == v;
    }
  }

  /** Pushes `xs` in order. */
  function PushAll(s: Stack, xs: seq<int>): (r: Stack)
    requires Valid(s)
    ensures Valid(r) && Contents(r) == Contents(s) + xs
    decreases |xs|
  {
    if xs == [] then s
    else
      var r := PushAll(Push(s, xs[0]), xs[1..]);
      assert [xs[0]] + xs[1..] == xs;
      r
  }

  /** Pops `n` times, collecting the values in the order they come off. */
  function PopN(s: Stack, n: nat): (r: Result<(seq<int>, Stack)>)
    requires Valid(s)
    ensures r.Ok? ==> Valid(r.value.1)
    decreases n
  {
    if n == 0 then Ok(([], s))
    else
      var (v, t) :- Pop(s);
      var (vs, u) :- PopN(t, n - 1);
      Ok(([v] + vs, u))
  }

  /**
   * Against a reference sequence: popping as many times as was pushed yields
   * the pushed values in exact reverse order and restores the contents.
   */
  lemma {:induction false} PopsReversePushes(s: Stack, xs: seq<int>)
    requires Valid(s)
    ensures PopN(PushAll(s, xs), |xs|).Ok?
    ensures PopN(PushAll(s, xs), |xs|).value.0 == Reverse(xs)
    ensures Contents(PopN(PushAll(s, xs), |xs|).value.1) == Contents(s)
    decreases |xs|
  {
    if xs != [] {
      var init := xs[..|xs| - 1];
      var last := xs[|xs| - 1];
      assert xs == init + [last];
      var t := PushAll(s, init);
      PopsReversePushes(s, init);
      ReverseStep(s, init, last, t);
      PushAllSplit(s, init, last);
    }
  }

  /** One more push, one more pop: the induction step of `PopsReversePushes`. */
  lemma ReverseStep(s: Stack, init: seq<int>, last: int, t: Stack)
    requires Valid(s) && t == PushAll(s, init)
    requires PopN(t, |init|).Ok?
    requires PopN(t, |init|).value.0 == Reverse(init)
    requires Contents(PopN(t, |init|).value.1) == Contents(s)
    ensures PopN(Push(t, last), |init| + 1).Ok?
    ensures PopN(Push(t, last), |init| + 1).value.0 == Reverse(init + [last])
    ensures Contents(PopN(Push(t, last), |init| + 1).value.1) == Contents(s)
  {
    PopNAfterPush(t, last, |init|);
    ReverseSnoc(init, last);
  }

  /** One pop undoes one push, and what follows sees the earlier contents. */
  lemma PopNAfterPush(t: Stack, v: int, n: nat)
    requires Valid(t)
    ensures PopN(Push(t, v), n + 1).Ok? <==> PopN(t, n).Ok?
    ensures PopN(t, n).Ok? ==> && PopN(Push(t, v), n + 1).value.0 == [v] + PopN(t, n).value.0
                               && Contents(PopN(Push(t, v), n + 1).value.1) == Contents(PopN(t, n).value.1)
  {
    var p := Push(t, v);
    var (w, t') := Pop(p).value;
    assert Contents(t') + [w] == Contents(t) + [v];
    assert w == v && Contents(t') == Contents(t) by {
      var c := Contents(t) + [v];
      assert Contents(t') == c[..|c| - 1];
    }
    PopNContents(t, t', n);
  }

  /** Pushing one more is pushing the longer sequence. */
  lemma {:induction false} PushAllSplit(s: Stack, xs: seq<int>, v: int)
    requires Valid(s)
    ensures PushAll(s, xs + [v]) == Push(PushAll(s, xs), v)
    decreases |xs|
  {
    if xs == [] {
      assert xs + [v] == [v];
      assert [v][1..] == [];
    } else {
      assert (xs + [v])[0] == xs[0];
      assert (xs + [v])[1..] == xs[1..] + [v];
      PushAllSplit(Push(s, xs[0]), xs[1..], v);
    }
  }

  /** What `PopN` returns depends only on the contents, not on the window layout. */
  lemma {:induction false} PopNContents(s: Stack, t: Stack, n: nat)
    requires Valid(s) && Valid(t) && Contents(s) == Contents(t)
    ensures PopN(s, n).Ok? <==> PopN(t, n).Ok?
    ensures PopN(s, n).Ok? ==> && PopN(s, n).value.0 == PopN(t, n).value.0
                               && Contents(PopN(s, n).value.1) == Contents(PopN(t, n).value.1)
    decreases n
  {
    if n > 0 && Pop(s).Ok? {
      var (v, s') := Pop(s).value;
      var (w, t') := Pop(t).value;
      assert Contents(s') + [v] == Contents(t') + [w];
      assert v == w && Contents(s') == Contents(t') by {
        var c := Contents(s);
        assert Contents(s') == c[..|c| - 1] && Contents(t') == c[..|c| - 1];
      }
      PopNContents(s', t', n - 1);
    }
  }
}
