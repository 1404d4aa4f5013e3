/** Call sequences on the queue, each with the outcome the operations' contracts fix. */
module Scenarios {
  import opened Bytes
  import opened Fifo
  import opened Growth
  import opened Packing
  import opened MyQueue

  /** Pushes of A, B and C, then three pops, return A, B and C; the first peek sees A. */
  method PushThreePopThree() returns (peeked: nat, a: seq<byte>, b: seq<byte>, c: seq<byte>)
    ensures peeked == 1
    ensures a == [65] && b == [66] && c == [67]
  {
    var q := new Queue();
    var _ := q.Push(Some([65]));
    var _ := q.Push(Some([66]));
    var _ := q.Push(Some([67]));
    assert q.items == [[67], [66], [65]];
    var _, size := q.PeekSize();
    peeked := size;
    var str := new byte[2];
    var _ := q.Pop(str);
    a := str[..1];
    var _ := q.Pop(str);
    b := str[..1];
    var _ := q.Pop(str);
    c := str[..1];
  }

  /** `pop_multi` as written, taking the only item of a queue, leaves `count` at 1 over an
      empty deque; a later `pop` or `peek_size` would then read the back of an empty
      deque. Only the next successful `push` re-sets `count`, to 1 for its one item. */
  method StaleCountAfterPopMulti() returns (count: int, queued: nat, written: nat,
                                            countAfterPush: int)
    ensures count == 1 && queued == 0 && written == 1
    ensures countAfterPush == 1
  {
    var q := new Queue();
    var _ := q.Push(Some([65]));
    assert q.items == [[65]];
    OneItemFits();
    var offsets := new int[1];
    ghost var offsets0 := offsets[..];
    written := q.PopMultiAsWritten(1, offsets, 1, Step(1));
    OneItemPopped(offsets0, q.items, q.bytes, q.base == null, q.Buffer(), offsets[..], written);
    count, queued := q.count, |q.items|;
    var _ := q.Push(Some([66]));
    countAfterPush := q.count;
  }

  /** `pop_multi(1, ...)` on a deque holding only `A` takes `A`, one byte. */
  lemma OneItemFits()
    ensures Taken(1, 1) == 1 && Oldest([[65]], 1) == [[65]] && TotalLen([[65]]) == 1
  {
    var a: seq<seq<byte>> := [[65]];
    assert a[|a| - 1..] == a;
    assert a[..0] == [];
  }

  /** `pop_multi(1, ...)` on a deque holding only `A`, with a fresh buffer and memory for
      one growth step, takes `A` and returns its length. */
  lemma OneItemPopped(offsets0: seq<int>, items: seq<seq<byte>>, bytes: nat, lost: bool,
                      buffer: seq<byte>, offs: seq<int>, written: nat)
    requires Popped([[65]], 0, true, offsets0, 1, Step(1), Step(1), items, bytes, lost, buffer,
                    offs, written)
    ensures items == [] && written == 1 && bytes == Step(1) && !lost
  {
    OneItemFits();
    assert GrownSize(0, 1, Step(1)) == Step(1);
  }

  /** `pop_multi(2, ...)` on a deque holding `A` and `B`, with an empty buffer and no memory
      to spare, fails in its first grow: it returns 0 and pops nothing. */
  lemma NoMemoryPopsNothing(lost0: bool, offsets0: seq<int>, items: seq<seq<byte>>, bytes: nat,
                            lost: bool, buffer: seq<byte>, offs: seq<int>, written: nat)
    requires Popped([[65], [66]], 0, lost0, offsets0, 2, Step(1), 0, items, bytes, lost, buffer,
                    offs, written)
    ensures items == [[65], [66]] && written == 0 && lost && bytes == 0 && offs == offsets0
  {
    var items0: seq<seq<byte>> := [[65], [66]];
    var ps := Oldest(items0, 2);
    assert items0[0..] == items0;
    assert ps == [[66], [65]];
    assert ps[..1] == [[66]] && ps[..0] == [];
    assert TotalLen(ps[..1]) == 1;
    NoMemoryFits(TotalLen(ps));
    var i := 2 - |items|;
    NoMemoryFits(TotalLen(ps[..i]));
    assert offs == offs[..0] + offs[0..];
  }

  /** With an empty buffer and no memory, only a grow to nothing fits. */
  lemma NoMemoryFits(target: nat)
    ensures GrowFits(0, target, Step(1), 0) <==> target == 0
  {
    GrownSizeSpec(0, target, Step(1));
  }

  /** `push_multi` of the first `m` offsets of a buffer they cut into the C strings
      `taken` queues those behind everything already there, in order. */
  method PushPacked(q: Queue, m: nat, offsets: array<int>, ghost taken: seq<seq<byte>>)
    requires q.Valid() && m <= offsets.Length
    requires OffsetsFit(offsets[..m], |q.Buffer()|) && Unpack(q.Buffer(), offsets[..m]) == taken
    requires forall i | 0 <= i < |taken| :: NUL !in taken[i]
    modifies q
    ensures q.Valid() && q.base == old(q.base) && q.bytes == old(q.bytes)
    ensures Reverse(q.items) == Reverse(old(q.items)) + taken
  {
    ghost var items0 := q.items;
    assert offsets[..m] == offsets[..NonNeg(m)];
    var _ := q.PushMulti(m, offsets);
    assert CStrings(taken) == taken;
    FifoOrder(items0, taken);
  }

  /** `pop_multi` and then `push_multi` with the offsets it wrote, on one queue whose buffer
      can grow as far as needed, moves the taken items to the back of the pop order, in
      the order they were taken. On a queue whose items are all taken the pop order comes
      out as it was. */
  method Requeue(q: Queue, maxCount: int, offsets: array<int>, pageSize: nat, memLimit: nat)
    returns (written: nat)
    requires q.Stored() && pageSize > 0
    requires q.base == null ==> q.bytes == 0
    requires Taken(maxCount, |q.items|) <= offsets.Length
    requires TotalLen(Oldest(q.items, Taken(maxCount, |q.items|))) <= INT32_MAX
    requires GrowFits(q.bytes, TotalLen(Oldest(q.items, Taken(maxCount, |q.items|))),
                      Step(pageSize), memLimit)
    modifies q, q.base, offsets
    ensures q.Valid() && (q.base == null ==> q.bytes == 0)
    ensures var n, m := |old(q.items)|, Taken(maxCount, |old(q.items)|);
      Reverse(q.items) == Reverse(old(q.items)[..n - m]) + Oldest(old(q.items), m)
    ensures maxCount >= |old(q.items)| ==> Reverse(q.items) == Reverse(old(q.items))
  {
    ghost var items0, bytes0, lost0, offsets0 := q.items, q.bytes, q.base == null, offsets[..];
    ghost var n := |q.items|;
    var m := Taken(maxCount, |q.items|);
    ghost var taken := Oldest(items0, m);
    written := q.PopMulti(maxCount, offsets, pageSize, memLimit);
    PoppedPacked(items0, bytes0, lost0, offsets0, maxCount, Step(pageSize), memLimit, q.items,
                 q.bytes, q.base == null, q.Buffer(), offsets[..], written, []);
    ghost var rest := q.items;
    assert offsets[..][..m] == offsets[..m];
    ReverseNulFree(items0, m);
    PushPacked(q, m, offsets, taken);
    assert rest == items0[..n - m];
    if maxCount >= n {
      AllTaken(items0, maxCount);
    }
  }

  /** When `pop_multi` takes every item, what is left pops nothing and the taken items
      are the whole pop order. */
  lemma AllTaken(items0: seq<seq<byte>>, maxCount: int)
    requires maxCount >= |items0|
    ensures var n, m := |items0|, Taken(maxCount, |items0|);
      Reverse(items0[..n - m]) + Oldest(items0, m) == Reverse(items0)
  {
    var n, m := |items0|, Taken(maxCount, |items0|);
    assert m == n;
    OldestAll(items0);
    assert Oldest(items0, m) == Reverse(items0);
    var rest := items0[..n - m];
    assert rest == [];
  }
}
