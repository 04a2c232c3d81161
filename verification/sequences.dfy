/** Sequence helpers shared by the network, the extractors and the stack. */
module Sequences {

  /** `reverseThis()`: the sequence back to front. */
  function Reverse<T>(s: seq<T>): seq<T> {
    seq(|s|, i requires 0 <= i < |s| => s[|s| - 1 - i])
  }

  /** Reversing twice gives the sequence back. */
  lemma ReverseTwice<T>(s: seq<T>)
    ensures Reverse(Reverse(s)) == s
  {
    assert forall i :: 0 <= i < |s| ==> Reverse(Reverse(s))[i] == s[i];
  }

  /** Reversing puts the first element last. */
  lemma ReverseCons<T>(x: T, s: seq<T>)
    ensures Reverse([x] + s) == Reverse(s) + [x]
  {
  }

  /** Reversing puts the last element first. */
  lemma ReverseSnoc<T>(s: seq<T>, x: T)
    ensures Reverse(s + [x]) == [x] + Reverse(s)
  {
    var r := Reverse(s + [x]);
    var q := [x] + Reverse(s);
    assert |r| == |q|;
    forall i | 0 <= i < |r|
      ensures r[i] == q[i]
    {
      if i > 0 {
        assert q[i] == Reverse(s)[i - 1];
      }
    }
  }

  /** Reversing keeps the elements and their multiplicities. */
  lemma {:induction false} ReverseMultiset<T>(s: seq<T>)
    ensures multiset(Reverse(s)) == multiset(s)
    decreases |s|
  {
    if |s| > 0 {
      ReverseMultiset(s[1..]);
      assert Reverse(s) == Reverse(s[1..]) + [s[0]];
      assert s == [s[0]] + s[1..];
    }
  }
}
