/** The order discipline of the queue. The deque is a sequence whose index 0 is the front,
    where `push_front` inserts, and whose last index is the back, where `pop_back` removes;
    `Reverse` of it lists the items in the order pops return them. */
module Fifo {

  function Reverse<T>(s: seq<T>): (r: seq<T>)
    ensures |r| == |s|
  {
    if s == [] then [] else Reverse(s[1..]) + [s[0]]
  }

  lemma {:induction false} ReverseAt<T>(s: seq<T>, k: nat)
    requires k < |s|
    ensures Reverse(s)[k] == s[|s| - 1 - k]
  {
    if k < |s| - 1 {
      ReverseAt(s[1..], k);
    }
  }

  lemma {:induction false} ReverseSnoc<T>(s: seq<T>, x: T)
    ensures Reverse(s + [x]) == [x] + Reverse(s)
  {
    if s != [] {
      assert (s + [x])[1..] == s[1..] + [x];
      ReverseSnoc(s[1..], x);
    } else {
      assert (s + [x])[1..] == [];
    }
  }

  lemma {:induction false} ReverseReverse<T>(s: seq<T>)
    ensures Reverse(Reverse(s)) == s
  {
    if s != [] {
      ReverseReverse(s[1..]);
      ReverseSnoc(Reverse(s[1..]), s[0]);
      assert [s[0]] + s[1..] == s;
    }
  }

  /** The deque after `push_front` of each of `xs`, in order, onto `q`. */
  function PushAll<T>(q: seq<T>, xs: seq<T>): (r: seq<T>)
    ensures |r| == |q| + |xs|
  {
    if xs == [] then q else [xs[|xs| - 1]] + PushAll(q, xs[..|xs| - 1])
  }

  /** Pushing one more of `xs` puts it at the front. */
  lemma PushAllNext<T>(q: seq<T>, xs: seq<T>, i: nat)
    requires i < |xs|
    ensures PushAll(q, xs[..i + 1]) == [xs[i]] + PushAll(q, xs[..i])
  {
    assert xs[..i + 1][..i] == xs[..i];
  }

  /** FIFO law: whatever is pushed is popped after everything already queued, in the order
      it was pushed. */
  lemma {:induction false} FifoOrder<T>(q: seq<T>, xs: seq<T>)
    ensures Reverse(PushAll(q, xs)) == Reverse(q) + xs
  {
    if xs != [] {
      var init, last := xs[..|xs| - 1], xs[|xs| - 1];
      FifoOrder(q, init);
      assert ([last] + PushAll(q, init))[1..] == PushAll(q, init);
      assert init + [last] == xs;
    }
  }
}
