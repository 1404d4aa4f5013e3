/** The per-process work queue: a deque of NUL-free byte strings with a live item count,
    plus a growable scratch buffer used to pack items for bulk transfer and to unpack them. */
module MyQueue {
  import opened Bytes
  import opened Fifo
  import opened Growth
  import opened Packing
  import opened Checkpoint

  /** An `int32_t` count argument read as a number of loop rounds. */
  function NonNeg(x: int): nat
  {
    if x < 0 then 0 else x
  }

  /** How many items `pop_multi` takes when asked for `maxCount` from `size` queued. */
  function Taken(maxCount: int, size: nat): nat
  {
    if NonNeg(maxCount) < size then NonNeg(maxCount) else size
  }

  /** The `m` oldest items of a deque, oldest first. */
  function Oldest(items: seq<seq<byte>>, m: nat): seq<seq<byte>>
    requires m <= |items|
  {
    Reverse(items[|items| - m..])
  }

  /** The oldest of all the items are the whole deque in pop order. */
  lemma OldestAll(items: seq<seq<byte>>)
    ensures Oldest(items, |items|) == Reverse(items)
  {
    assert items[|items| - |items|..] == items;
  }

  /** Whether growing a buffer of `current` bytes towards `target` gets its memory, when an
      allocation succeeds exactly if it asks for at most `memLimit` bytes: either nothing
      has to be allocated, or the grown size fits. */
  predicate GrowFits(current: nat, target: nat, step: nat, memLimit: nat)
    requires step > 0
  {
    target <= current || GrownSize(current, target, step) <= memLimit
  }

  /** A grow that fails on the way to `need` means the grow to any larger `total` fails. */
  lemma GrowFailurePersists(b0: nat, cur: nat, need: nat, total: nat, step: nat, memLimit: nat)
    requires step > 0 && cur <= need <= total
    requires !GrowFits(GrownSize(b0, cur, step), need, step, memLimit)
    ensures !GrowFits(b0, total, step, memLimit)
  {
    GrownSizeSpec(b0, cur, step);
    GrownSizeCompose(b0, cur, need, step);
    GrownSizeMonotone(b0, need, total, step);
  }

  /** A buffer grown towards `total` that either never grew or got its memory did fit. */
  lemma GrowFitsReached(b0: nat, total: nat, step: nat, memLimit: nat, reached: nat)
    requires step > 0 && reached == GrownSize(b0, total, step)
    requires reached == b0 || reached <= memLimit
    ensures GrowFits(b0, total, step, memLimit)
  {
    GrownSizeSpec(b0, total, step);
  }

  /** The packed bytes after `i` rounds of `pop_multi` over `all`, the items it takes,
      oldest first. It equals `Pack(all[..i])` (`PackedAfterPack`), but it grows by one
      item per round at the end, as the loop's copy does, so the round-by-round proofs
      need no reasoning about prefixes of `all`. */
  ghost function PackedAfter(all: seq<seq<byte>>, i: nat): seq<byte>
    requires i <= |all|
  {
    if i == 0 then [] else PackedAfter(all, i - 1) + all[i - 1]
  }

  /** The offsets written after `i` rounds of `pop_multi` over `all`. */
  ghost function IndexAfter(all: seq<seq<byte>>, i: nat): (r: seq<int>)
    requires i <= |all|
    ensures |r| == i
  {
    if i == 0 then [] else IndexAfter(all, i - 1) + [|PackedAfter(all, i)|]
  }

  /** Round `i` appends item `i` to the packed bytes and its end offset to the index. */
  lemma RoundAppends(all: seq<seq<byte>>, i: nat)
    requires i < |all|
    ensures PackedAfter(all, i + 1) == PackedAfter(all, i) + all[i]
    ensures IndexAfter(all, i + 1) == IndexAfter(all, i) + [|PackedAfter(all, i)| + |all[i]|]
  {
  }

  /** `i` rounds pack the first `i` items. */
  lemma {:induction false} PackedAfterPack(all: seq<seq<byte>>, i: nat)
    requires i <= |all|
    ensures PackedAfter(all, i) == Pack(all[..i])
  {
    if i > 0 {
      PackedAfterPack(all, i - 1);
      assert all[..i][..i - 1] == all[..i - 1];
    }
  }

  /** `i` rounds index the first `i` items. */
  lemma {:induction false} IndexAfterOffsets(all: seq<seq<byte>>, i: nat)
    requires i <= |all|
    ensures IndexAfter(all, i) == Offsets(all[..i])
  {
    if i > 0 {
      var done := all[..i - 1];
      IndexAfterOffsets(all, i - 1);
      PackedAfterPack(all, i - 1);
      assert |PackedAfter(all, i)| == TotalLen(done) + |all[i - 1]|;
      assert all[..i] == done + [all[i - 1]];
      OffsetsSnoc(done, all[i - 1]);
    }
  }

  /** `i` rounds pack the first `i` items and index them, within the total of all. */
  lemma AfterRounds(all: seq<seq<byte>>, i: nat)
    requires i <= |all|
    ensures PackedAfter(all, i) == Pack(all[..i])
    ensures IndexAfter(all, i) == Offsets(all[..i])
    ensures |PackedAfter(all, i)| == TotalLen(all[..i]) <= TotalLen(all)
  {
    PackedAfterPack(all, i);
    IndexAfterOffsets(all, i);
    TotalLenPrefix(all, i);
  }

  /** Round `i` never packs beyond the total of all the items it takes. */
  lemma AfterRoundsBound(all: seq<seq<byte>>, i: nat)
    requires i < |all|
    ensures |PackedAfter(all, i)| + |all[i]| <= TotalLen(all)
  {
    AfterRounds(all, i + 1);
  }

  /** The state after `i` rounds of `pop_multi` that started from the deque `items0`, a
      buffer of `bytes0` bytes and an offset array holding `offsets0`, and takes the
      items `all`, as values, the buffer's bytes aside: the deque is `items`, the buffer
      has `bytes` bytes and the offset array holds `offs`. The `i` oldest items are
      popped and indexed at the front of `offs`, the offsets from `i` on are untouched,
      and the buffer grew just far enough for `reached` bytes, within `memLimit` if it
      grew at all. */
  ghost predicate Rounds(items0: seq<seq<byte>>, bytes0: nat, offsets0: seq<int>,
                         all: seq<seq<byte>>, step: nat, memLimit: nat, items: seq<seq<byte>>,
                         bytes: nat, offs: seq<int>, i: nat, reached: nat)
    requires step > 0
  {
    i <= |all| && i <= |items0| && items == items0[..|items0| - i] &&
    bytes == GrownSize(bytes0, reached, step) && (bytes == bytes0 || bytes <= memLimit) &&
    |offs| == |offsets0| && IndexAfter(all, i) <= offs &&
    forall j | i <= j < |offs| :: offs[j] == offsets0[j]
  }

  /** Before the first round nothing is popped, packed or indexed and the buffer has not
      grown. */
  lemma RoundsStart(items0: seq<seq<byte>>, bytes0: nat, offsets0: seq<int>,
                    all: seq<seq<byte>>, step: nat, memLimit: nat)
    requires step > 0
    ensures Rounds(items0, bytes0, offsets0, all, step, memLimit, items0, bytes0, offsets0, 0, 0)
  {
    assert items0[..|items0| - 0] == items0;
  }

  /** Copying the oldest item left after round `i` behind the `cur` bytes packed so far,
      recording its end offset in `offs[i]` and popping it completes round `i`. */
  lemma RoundPlaced(items0: seq<seq<byte>>, bytes0: nat, offsets0: seq<int>, m: nat,
                    all: seq<seq<byte>>, step: nat, memLimit: nat, items: seq<seq<byte>>,
                    bytes: nat, offs: seq<int>, i: nat, cur: nat,
                    items': seq<seq<byte>>, buffer': seq<byte>, offs': seq<int>, next: nat)
    requires step > 0 && i < m <= |items0| && all == Oldest(items0, m)
    requires Rounds(items0, bytes0, offsets0, all, step, memLimit, items, bytes, offs, i,
                    cur + |all[i]|)
    requires cur == |PackedAfter(all, i)|
    requires items != [] && next == cur + |items[|items| - 1]|
    requires items' == items[..|items| - 1]
    requires PackedAfter(all, i) + items[|items| - 1] <= buffer'
    requires IndexAfter(all, i) + [next] <= offs' && |offs'| == |offs|
    requires forall j | i < j < |offs| :: offs'[j] == offs[j]
    ensures next == cur + |all[i]| == |PackedAfter(all, i + 1)|
    ensures PackedAfter(all, i + 1) <= buffer'
    ensures Rounds(items0, bytes0, offsets0, all, step, memLimit, items', bytes, offs', i + 1,
                   next)
  {
    OldestNext(items0, m, i);
    RoundAppends(all, i);
  }

  /** The outcome of `pop_multi(maxCount, offsets)` with growth step `step` on a deque
      `items0` with a buffer of `bytes0` bytes (`lost0` when it is NULL) and an offset
      array holding `offsets0`, leaving the deque `items`, a buffer of `bytes` bytes
      holding `buffer` (`lost` when it is NULL) and the offset array holding `offs`, and
      returning `written`. Let `m` be the number of items taken. When the buffer can grow
      as far as the packed items need, the `m` oldest items are gone from the deque, the
      buffer begins with them packed oldest first, `offs` begins with their offset index,
      the result is their total length, the buffer grew just far enough, and it is NULL
      exactly when it was NULL before and did not have to grow. Otherwise the grow fails in round `i`,
      the first whose running total does not fit: the `i` oldest items are popped and
      lost, the result is 0, the buffer is NULL with the size grown for those `i` items,
      and `offs` begins with their offset index, the rest untouched. The offsets from `m`
      on are never touched. */
  ghost predicate Popped(items0: seq<seq<byte>>, bytes0: nat, lost0: bool, offsets0: seq<int>,
                         maxCount: int, step: nat, memLimit: nat, items: seq<seq<byte>>,
                         bytes: nat, lost: bool, buffer: seq<byte>, offs: seq<int>,
                         written: nat)
    requires step > 0
  {
    var n := |items0|;
    var m := Taken(maxCount, n);
    var ps := Oldest(items0, m);
    m <= |offs| == |offsets0| &&
    offs[m..] == offsets0[m..] &&
    if GrowFits(bytes0, TotalLen(ps), step, memLimit) then
      items == items0[..n - m] &&
      written == TotalLen(ps) &&
      bytes == GrownSize(bytes0, written, step) &&
      lost == (lost0 && bytes == bytes0) &&
      Pack(ps) <= buffer &&
      Offsets(ps) <= offs
    else
      written == 0 && lost && |items| <= n && items == items0[..|items|] &&
      var i := n - |items|;
      i < m &&
      GrowFits(bytes0, TotalLen(ps[..i]), step, memLimit) &&
      !GrowFits(bytes0, TotalLen(ps[..i + 1]), step, memLimit) &&
      bytes == GrownSize(bytes0, TotalLen(ps[..i]), step) &&
      Offsets(ps[..i]) <= offs && offs[i..] == offsets0[i..]
  }

  /** The item round `i` of `pop_multi` takes is the back of what is left by then. */
  lemma OldestNext(items0: seq<seq<byte>>, m: nat, i: nat)
    requires i < m <= |items0|
    ensures var left := items0[..|items0| - i];
      left != [] && Oldest(items0, m)[i] == left[|left| - 1] &&
      left[..|left| - 1] == items0[..|items0| - (i + 1)]
  {
    ReverseAt(items0[|items0| - m..], i);
  }

  /** A buffer grown from `b0` towards `cur` bytes, and from there towards `cur + more`,
      is the buffer grown from `b0` towards `cur + more`; if neither grow allocated
      beyond `memLimit`, neither did the whole. */
  lemma GrowOn(b0: nat, cur: nat, more: nat, step: nat, memLimit: nat, before: nat, after: nat)
    requires step > 0
    requires before == GrownSize(b0, cur, step) && (before == b0 || before <= memLimit)
    requires after == GrownSize(before, cur + more, step) && (after == before || after <= memLimit)
    ensures after == GrownSize(b0, cur + more, step) && (after == b0 || after <= memLimit)
  {
    GrownSizeCompose(b0, cur, cur + more, step);
  }

  /** `pop_multi` that packed all `m` items it takes ends as `Popped` says. */
  lemma PoppedAll(items0: seq<seq<byte>>, bytes0: nat, lost0: bool, offsets0: seq<int>,
                  maxCount: int, step: nat, memLimit: nat, items: seq<seq<byte>>, bytes: nat,
                  lost: bool, buffer: seq<byte>, offs: seq<int>, packed: seq<byte>,
                  index: seq<int>)
    requires step > 0
    requires Taken(maxCount, |items0|) <= |offs| == |offsets0|
    requires items == items0[..|items0| - Taken(maxCount, |items0|)]
    requires packed ==
      PackedAfter(Oldest(items0, Taken(maxCount, |items0|)), Taken(maxCount, |items0|))
    requires index ==
      IndexAfter(Oldest(items0, Taken(maxCount, |items0|)), Taken(maxCount, |items0|))
    requires bytes == GrownSize(bytes0, |packed|, step) && (bytes == bytes0 || bytes <= memLimit)
    requires lost == (lost0 && bytes == bytes0)
    requires packed <= buffer && index <= offs
    requires forall j | Taken(maxCount, |items0|) <= j < |offs| :: offs[j] == offsets0[j]
    ensures Popped(items0, bytes0, lost0, offsets0, maxCount, step, memLimit, items, bytes, lost,
                   buffer, offs, |packed|)
  {
    var m := Taken(maxCount, |items0|);
    var all := Oldest(items0, m);
    AfterRounds(all, m);
    assert all[..m] == all;
    GrowFitsReached(bytes0, |packed|, step, memLimit, bytes);
    assert offs[m..] == offsets0[m..];
  }

  /** `pop_multi` whose grow failed in round `i`, after `cur` bytes were packed, ends as
      `Popped` says. */
  lemma PoppedPart(items0: seq<seq<byte>>, bytes0: nat, lost0: bool, offsets0: seq<int>,
                   maxCount: int, step: nat, memLimit: nat, items: seq<seq<byte>>, bytes: nat,
                   buffer: seq<byte>, offs: seq<int>, m: nat, all: seq<seq<byte>>, i: nat,
                   cur: nat)
    requires step > 0 && m == Taken(maxCount, |items0|) && all == Oldest(items0, m)
    requires i < m <= |offs| && cur == |PackedAfter(all, i)|
    requires !GrowFits(bytes, cur + |all[i]|, step, memLimit)
    requires Rounds(items0, bytes0, offsets0, all, step, memLimit, items, bytes, offs, i, cur)
    ensures Popped(items0, bytes0, lost0, offsets0, maxCount, step, memLimit, items, bytes, true,
                   buffer, offs, 0)
  {
    FailedRound(all, bytes0, step, memLimit, bytes, i, cur);
    SuffixKept(offs, offsets0, i, m);
    assert |items0| - |items| == i;
  }

  /** Offsets untouched from `i` on form the same suffix from `i`, and from any `m >= i`. */
  lemma SuffixKept(offs: seq<int>, offsets0: seq<int>, i: nat, m: nat)
    requires i <= m <= |offs| == |offsets0|
    requires forall j | i <= j < |offs| :: offs[j] == offsets0[j]
    ensures offs[i..] == offsets0[i..] && offs[m..] == offsets0[m..]
  {
  }

  /** A grow that fails in round `i` of `pop_multi` over `all`, after `cur` bytes were
      packed into a buffer grown from `bytes0` to `bytes`, fails at the running total of
      round `i` and at the total of all, and fits at the running total before it. */
  lemma FailedRound(all: seq<seq<byte>>, bytes0: nat, step: nat, memLimit: nat, bytes: nat,
                    i: nat, cur: nat)
    requires step > 0 && i < |all| && cur == |PackedAfter(all, i)|
    requires bytes == GrownSize(bytes0, cur, step) && (bytes == bytes0 || bytes <= memLimit)
    requires !GrowFits(bytes, cur + |all[i]|, step, memLimit)
    ensures cur == TotalLen(all[..i]) && IndexAfter(all, i) == Offsets(all[..i])
    ensures GrowFits(bytes0, TotalLen(all[..i]), step, memLimit)
    ensures !GrowFits(bytes0, TotalLen(all[..i + 1]), step, memLimit)
    ensures !GrowFits(bytes0, TotalLen(all), step, memLimit)
  {
    AfterRounds(all, i);
    AfterRounds(all, i + 1);
    AfterRoundsBound(all, i);
    GrowFitsReached(bytes0, cur, step, memLimit, bytes);
    GrowFailurePersists(bytes0, cur, cur + |all[i]|, cur + |all[i]|, step, memLimit);
    GrowFailurePersists(bytes0, cur, cur + |all[i]|, TotalLen(all), step, memLimit);
  }

  /** A grow that fits a target fits any smaller one. */
  lemma GrowFitsSmaller(b0: nat, t1: nat, t2: nat, step: nat, memLimit: nat)
    requires step > 0 && t1 <= t2 && GrowFits(b0, t2, step, memLimit)
    ensures GrowFits(b0, t1, step, memLimit)
  {
    if b0 < t1 {
      GrownSizeMonotone(b0, t1, t2, step);
    }
  }

  /** `Popped` leaves nothing open but the buffer's bytes: two outcomes of the same call
      agree on the deque, the buffer size, the offsets and the result. In particular a
      failed grow loses exactly the items popped before the first round whose running
      total does not fit. */
  lemma PoppedDetermined(items0: seq<seq<byte>>, bytes0: nat, lost0: bool, offsets0: seq<int>,
                         maxCount: int, step: nat, memLimit: nat,
                         items: seq<seq<byte>>, bytes: nat, lost: bool, buffer: seq<byte>,
                         offs: seq<int>, written: nat,
                         items': seq<seq<byte>>, bytes': nat, lost': bool, buffer': seq<byte>,
                         offs': seq<int>, written': nat)
    requires step > 0
    requires Popped(items0, bytes0, lost0, offsets0, maxCount, step, memLimit, items, bytes, lost,
                    buffer, offs, written)
    requires Popped(items0, bytes0, lost0, offsets0, maxCount, step, memLimit, items', bytes',
                    lost', buffer', offs', written')
    ensures items == items' && bytes == bytes' && lost == lost' && offs == offs' &&
      written == written'
  {
    var n := |items0|;
    var m := Taken(maxCount, n);
    var ps := Oldest(items0, m);
    if GrowFits(bytes0, TotalLen(ps), step, memLimit) {
      assert offs == Offsets(ps) + offsets0[m..] == offs';
    } else {
      var i, i' := n - |items|, n - |items'|;
      if i < i' {
        PrefixTotal(ps, i + 1, i');
        GrowFitsSmaller(bytes0, TotalLen(ps[..i + 1]), TotalLen(ps[..i']), step, memLimit);
      } else if i' < i {
        PrefixTotal(ps, i' + 1, i);
        GrowFitsSmaller(bytes0, TotalLen(ps[..i' + 1]), TotalLen(ps[..i]), step, memLimit);
      }
      assert offs == Offsets(ps[..i]) + offsets0[i..] == offs';
    }
  }

  /** A longer prefix of the items has at least the total length of a shorter one. */
  lemma PrefixTotal(ps: seq<seq<byte>>, i: nat, j: nat)
    requires i <= j <= |ps|
    ensures TotalLen(ps[..i]) <= TotalLen(ps[..j])
  {
    TotalLenPrefix(ps[..j], i);
    assert ps[..j][..i] == ps[..i];
  }

  /** The items taken from a deque of C strings are C strings. */
  lemma ReverseNulFree(items0: seq<seq<byte>>, m: nat)
    requires m <= |items0|
    requires forall i | 0 <= i < |items0| :: NUL !in items0[i]
    ensures forall i | 0 <= i < m :: NUL !in Oldest(items0, m)[i]
  {
    forall i | 0 <= i < m
      ensures NUL !in Oldest(items0, m)[i]
    {
      ReverseAt(items0[|items0| - m..], i);
    }
  }

  /** A `pop_multi` that got its memory popped the items it takes and left them packed
      and indexed at the front of the buffer and the offsets. */
  lemma PoppedFits(items0: seq<seq<byte>>, bytes0: nat, lost0: bool, offsets0: seq<int>,
                   maxCount: int, step: nat, memLimit: nat, items: seq<seq<byte>>, bytes: nat,
                   lost: bool, buffer: seq<byte>, offs: seq<int>, written: nat)
    requires step > 0
    requires Popped(items0, bytes0, lost0, offsets0, maxCount, step, memLimit, items, bytes, lost,
                    buffer, offs, written)
    requires GrowFits(bytes0, TotalLen(Oldest(items0, Taken(maxCount, |items0|))), step, memLimit)
    ensures var ps := Oldest(items0, Taken(maxCount, |items0|));
      items == items0[..|items0| - |ps|] &&
      Pack(ps) <= buffer && Offsets(ps) <= offs && written == TotalLen(ps)
  {
  }

  /** What a `pop_multi` that got its memory leaves for `push_multi`: the first `m`
      offsets fit the buffer and cut it into exactly the items taken, oldest first; the
      result is the last of those offsets (0 when nothing was taken); and pushing the
      cut items onto any deque `q` makes them pop after everything in `q`, in the order
      they were taken. */
  lemma PoppedPacked(items0: seq<seq<byte>>, bytes0: nat, lost0: bool, offsets0: seq<int>,
                     maxCount: int, step: nat, memLimit: nat, items: seq<seq<byte>>, bytes: nat,
                     lost: bool, buffer: seq<byte>, offs: seq<int>, written: nat,
                     q: seq<seq<byte>>)
    requires step > 0
    requires Popped(items0, bytes0, lost0, offsets0, maxCount, step, memLimit, items, bytes, lost,
                    buffer, offs, written)
    requires GrowFits(bytes0, TotalLen(Oldest(items0, Taken(maxCount, |items0|))), step, memLimit)
    requires forall i | 0 <= i < |items0| :: NUL !in items0[i]
    ensures var m := Taken(maxCount, |items0|);
      items == items0[..|items0| - m] &&
      m <= |offs| && OffsetsFit(offs[..m], |buffer|) &&
      Unpack(buffer, offs[..m]) == Oldest(items0, m) &&
      written == (if m == 0 then 0 else offs[m - 1]) &&
      Reverse(PushAll(q, CStrings(Unpack(buffer, offs[..m])))) == Reverse(q) + Oldest(items0, m)
  {
    var m := Taken(maxCount, |items0|);
    var ps := Oldest(items0, m);
    PoppedFits(items0, bytes0, lost0, offsets0, maxCount, step, memLimit, items, bytes, lost,
               buffer, offs, written);
    ReverseNulFree(items0, m);
    PackedResult(ps, buffer, offs, written, q);
  }

  class Queue {
    /** The `std::deque<std::string>` behind `handle`: index 0 is the front. */
    var items: seq<seq<byte>>
    /** The number of actively queued strings. */
    var count: int
    /** The scratch buffer, NULL until the first grow and after a failed one. */
    var base: array?<byte>
    /** The size of `base`. */
    var bytes: nat

    /** The state every operation keeps: items are C strings, and a live buffer has
        `bytes` bytes. After a failed grow `base` is NULL while `bytes` keeps its value. */
    ghost predicate Stored()
      reads this
    {
      (forall i | 0 <= i < |items| :: NUL !in items[i]) &&
      (base != null ==> bytes == base.Length)
    }

    /** `Stored` and a count that matches the deque. */
    ghost predicate Valid()
      reads this
    {
      Stored() && count == |items|
    }

    /** The bytes of the scratch buffer (none while it is NULL). */
    function Buffer(): seq<byte>
      reads this, base
    {
      if base == null then [] else base[..]
    }

    /** `CIRCLE_internal_queue_init`. */
    constructor ()
      ensures Valid()
      ensures items == [] && count == 0 && base == null && bytes == 0
    {
      items := [];
      count := 0;
      base := null;
      bytes := 0;
    }

    /** `CIRCLE_internal_queue_push`: a NULL string is refused; otherwise its C string
        becomes the newest item and `count` is re-set from the deque, whatever it was. */
    method Push(str: Option<seq<byte>>) returns (rc: int)
      requires Stored()
      modifies this
      ensures Stored()
      ensures base == old(base) && bytes == old(bytes)
      ensures str.None? ==> rc == -1 && items == old(items) && count == old(count)
      ensures str.Some? ==>
        rc == 1 && items == [CString(str.value)] + old(items) && count == |items| &&
        Valid()
    {
      if str.None? {
        rc := -1;
        return;
      }
      items := [CString(str.value)] + items;
      count := |items|;
      rc := 1;
    }

    /** `CIRCLE_internal_queue_pop`: copies the oldest item and a NUL terminator into the
        caller's buffer and removes that item; an empty queue or a NULL buffer is refused.
        The caller's buffer must hold the item and its terminator. */
    method Pop(str: array?<byte>) returns (rc: int)
      requires Valid()
      requires str != null && items != [] ==> |items[|items| - 1]| < str.Length
      modifies this, str
      ensures Valid()
      ensures base == old(base) && bytes == old(bytes)
      ensures rc == (if old(items) != [] && str != null then 1 else -1)
      ensures rc == -1 ==> items == old(items) && (str != null ==> str[..] == old(str[..]))
      ensures rc == 1 ==>
        var x := old(items)[|old(items)| - 1];
        str != null &&
        items == old(items)[..|old(items)| - 1] &&
        str[..|x|] == x && str[|x|] == NUL &&
        str[|x| + 1..] == old(str[|x| + 1..])
    {
      if count < 1 {
        rc := -1;
        return;
      }
      if str == null {
        rc := -1;
        return;
      }
      var x := items[|items| - 1];
      forall i | 0 <= i < |x| {
        str[i] := x[i];
      }
      str[|x|] := NUL;
      items := items[..|items| - 1];
      count := |items|;
      rc := 1;
    }

    /** `CIRCLE_internal_queue_peek_size`: the length of the item `Pop` would return. */
    method PeekSize() returns (rc: int, size: nat)
      requires Valid()
      ensures rc == (if items != [] then 1 else -1)
      ensures rc == 1 ==> size == |items[|items| - 1]|
    {
      if count < 1 {
        rc, size := -1, 0;
        return;
      }
      rc, size := 1, |items[|items| - 1]|;
    }

    /** `CIRCLE_internal_queue_write` without the file: `text` is what reaches the file.
        `openOk` says whether `fopen` succeeds, `failLine` is the index of the first line
        whose `fprintf` fails (none when out of range), `closeOk` whether `fclose`
        succeeds. An empty queue is left alone; a complete write drains the queue. */
    method Write(openOk: bool, failLine: int, closeOk: bool) returns (rc: int, text: seq<byte>)
      requires Valid()
      modifies this
      ensures Valid()
      ensures base == old(base) && bytes == old(bytes)
      ensures old(items) == [] ==> rc == 0 && text == [] && items == old(items)
      ensures old(items) != [] && !openOk ==> rc == -1 && text == [] && items == old(items)
      ensures old(items) != [] && openOk && 0 <= failLine < |old(items)| ==>
        rc == -1 && text == EncodeLines(old(items)[..failLine]) && items == old(items)
      ensures old(items) != [] && openOk && !(0 <= failLine < |old(items)|) ==>
        rc == (if closeOk then 0 else -1) && text == EncodeLines(old(items)) && items == []
    {
      text := [];
      if count == 0 {
        rc := 0;
        return;
      }
      if !openOk {
        rc := -1;
        return;
      }
      var i := 0;
      while i < |items|
        invariant 0 <= i <= |items|
        invariant text == EncodeLines(items[..i])
        invariant failLine < 0 || i <= failLine
        invariant items == old(items) && count == old(count)
        invariant base == old(base) && bytes == old(bytes)
      {
        if i == failLine {
          rc := -1;
          return;
        }
        EncodeLinesSnoc(items[..i], items[i]);
        assert items[..i + 1] == items[..i] + [items[i]];
        text := text + items[i] + [NEWLINE];
        i := i + 1;
      }
      assert items[..i] == items;
      items := [];
      count := |items|;
      rc := if closeOk then 0 else -1;
    }

    /** `CIRCLE_internal_queue_extend`: frees the buffer, then allocates a fresh one of the
        grown size; the old contents are not kept. On failure `base` is NULL and `bytes`
        keeps its old value. */
    method Extend(newSize: nat, pageSize: nat, memLimit: nat) returns (rc: int)
      requires Stored() && pageSize > 0
      modifies this
      ensures Stored()
      ensures items == old(items) && count == old(count)
      ensures rc == (if GrownSize(old(bytes), newSize, Step(pageSize)) <= memLimit then 0 else -1)
      ensures rc == 0 ==>
        base != null && fresh(base) && bytes == GrownSize(old(bytes), newSize, Step(pageSize)) &&
        old(bytes) <= bytes && newSize <= bytes
      ensures rc == -1 ==> base == null && bytes == old(bytes)
    {
      var current := GrowSize(bytes, newSize, Step(pageSize));
      GrownSizeSpec(bytes, newSize, Step(pageSize));
      base := null;
      if current > memLimit {
        rc := -1;
        return;
      }
      base := new byte[current];
      bytes := current;
      rc := 0;
    }

    /** `CIRCLE_internal_queue_extend_realloc`: reallocates the buffer to the grown size,
        keeping its first `bytes` bytes. On failure `base` is NULL (the old block is lost)
        and `bytes` keeps its old value. */
    method ExtendRealloc(newSize: nat, pageSize: nat, memLimit: nat) returns (rc: int)
      requires Stored() && pageSize > 0
      modifies this
      ensures Stored()
      ensures items == old(items) && count == old(count)
      ensures rc == (if GrownSize(old(bytes), newSize, Step(pageSize)) <= memLimit then 0 else -1)
      ensures rc == 0 ==>
        base != null && fresh(base) && bytes == GrownSize(old(bytes), newSize, Step(pageSize)) &&
        old(bytes) <= bytes && newSize <= bytes &&
        (old(base) != null ==> base[..old(bytes)] == old(base[..]))
      ensures rc == -1 ==> base == null && bytes == old(bytes)
    {
      var current := GrowSize(bytes, newSize, Step(pageSize));
      GrownSizeSpec(bytes, newSize, Step(pageSize));
      if current > memLimit {
        base := null;
        rc := -1;
        return;
      }
      var grown := new byte[current];
      if base != null {
        forall i | 0 <= i < base.Length {
          grown[i] := base[i];
        }
      }
      base := grown;
      bytes := current;
      rc := 0;
    }

    /** The outcome of `pop_multi(maxCount, offsets)` with growth step `step`, as
        `Popped` states it for the state before and after. */
    twostate predicate PoppedMulti(maxCount: int, offsets: array<int>, step: nat, memLimit: nat,
                                   written: nat)
      requires step > 0
      reads this, base, offsets
    {
      Popped(old(items), old(bytes), old(base) == null, old(offsets[..]), maxCount, step, memLimit,
             items, bytes, base == null, Buffer(), offsets[..], written)
    }

    /** The room-making step of `pop_multi`: when the buffer is shorter than `need`, grow
        it with `ExtendRealloc`. */
    method Reserve(need: nat, pageSize: nat, memLimit: nat) returns (ok: bool)
      requires Stored() && pageSize > 0
      requires base == null ==> bytes == 0
      modifies this
      ensures Stored() && items == old(items) && count == old(count)
      ensures base == null || base == old(base) || fresh(base)
      ensures ok == GrowFits(old(bytes), need, Step(pageSize), memLimit)
      ensures ok ==>
        bytes == GrownSize(old(bytes), need, Step(pageSize)) &&
        (bytes == old(bytes) || bytes <= memLimit) &&
        (base == null ==> bytes == 0) &&
        need <= |Buffer()| && old(Buffer()) <= Buffer() &&
        old(bytes) <= bytes && (base == null <==> old(base) == null && bytes == old(bytes))
      ensures !ok ==> base == null && bytes == old(bytes)
    {
      GrownSizeSpec(bytes, need, Step(pageSize));
      if bytes < need {
        var rc := ExtendRealloc(need, pageSize, memLimit);
        ok := rc == 0;
      } else {
        ok := true;
      }
    }

    /** `std::string::copy` of `x` to `base + cur`. */
    method CopyIn(cur: nat, x: seq<byte>)
      requires Stored() && cur + |x| <= |Buffer()|
      modifies base
      ensures |Buffer()| == |old(Buffer())|
      ensures Buffer()[..cur + |x|] == old(Buffer())[..cur] + x
      ensures Buffer()[cur + |x|..] == old(Buffer())[cur + |x|..]
    {
      if base != null {
        forall k | 0 <= k < |x| {
          base[cur + k] := x[k];
        }
        assert base[..cur + |x|] == old(base[..])[..cur] + x;
        assert base[cur + |x|..] == old(base[..])[cur + |x|..];
      }
    }

    /** `Rounds` for this queue's deque and the offset array `offsets`, with the `i`
        oldest items packed at the front of the buffer, which is NULL only while it has
        never grown. */
    ghost predicate PackedState(items0: seq<seq<byte>>, bytes0: nat, lost0: bool,
                                offsets0: seq<int>, all: seq<seq<byte>>, step: nat,
                                memLimit: nat, offsets: array<int>, i: nat, reached: nat)
      requires step > 0
      reads this, base, offsets
    {
      Stored() && (base == null ==> bytes == 0) &&
      bytes0 <= bytes && (base == null <==> lost0 && bytes == bytes0) &&
      Rounds(items0, bytes0, offsets0, all, step, memLimit, items, bytes, offsets[..], i,
             reached) &&
      PackedAfter(all, i) <= Buffer()
    }

    /** Copy the oldest item `x` to `base + cur`, record its end offset in `offsets[i]` and
        pop it, once the buffer has room. */
    method Place(cur: nat, i: nat, offsets: array<int>, ghost x: seq<byte>,
                 ghost packed: seq<byte>, ghost index: seq<int>) returns (next: nat)
      requires Stored() && items != [] && x == items[|items| - 1]
      requires cur == |packed| && packed <= Buffer() && cur + |x| <= |Buffer()|
      requires i == |index| < offsets.Length && index <= offsets[..]
      modifies this, base, offsets
      ensures Stored() && count == old(count) && base == old(base) && bytes == old(bytes)
      ensures next == cur + |x| && items == old(items)[..|old(items)| - 1]
      ensures packed + x <= Buffer() && index + [next] <= offsets[..]
      ensures |Buffer()| == |old(Buffer())| && Buffer()[next..] == old(Buffer())[next..]
      ensures forall j | i < j < offsets.Length :: offsets[j] == old(offsets[j])
    {
      var last := items[|items| - 1];
      ghost var reserved := Buffer();
      assert reserved[..cur] == packed;
      CopyIn(cur, last);
      next := cur + |last|;
      offsets[i] := next;
      items := items[..|items| - 1];
    }

    /** The state after a grow failed in round `i` of `pop_multi` (started as for
        `PackedState`), with `cur` bytes packed before it: `Rounds` at `i` still holds for the
        deque, the size and the offsets, the buffer is NULL, and the grow towards the next
        item's end did not fit. */
    ghost predicate Stuck(items0: seq<seq<byte>>, bytes0: nat, offsets0: seq<int>,
                          all: seq<seq<byte>>, step: nat, memLimit: nat, offsets: array<int>,
                          i: nat, cur: nat)
      requires step > 0
      reads this, offsets
    {
      Stored() && base == null && i < |all| && cur == |PackedAfter(all, i)| &&
      !GrowFits(bytes, cur + |all[i]|, step, memLimit) &&
      Rounds(items0, bytes0, offsets0, all, step, memLimit, items, bytes, offsets[..], i, cur)
    }

    /** The grow of round `i` of the `pop_multi` loop, which takes the `m` oldest items
        `all` of `items0`: make room for the oldest item left after the `cur` bytes packed
        so far. When the room cannot be had, the buffer is lost and nothing else changes. */
    method MakeRoom(cur: nat, i: nat, offsets: array<int>, pageSize: nat, memLimit: nat,
                    ghost items0: seq<seq<byte>>, ghost bytes0: nat, ghost lost0: bool,
                    ghost offsets0: seq<int>, ghost m: nat, ghost all: seq<seq<byte>>)
      returns (ok: bool)
      requires pageSize > 0 && i < m <= |items0| && all == Oldest(items0, m)
      requires PackedState(items0, bytes0, lost0, offsets0, all, Step(pageSize), memLimit,
                           offsets, i, cur)
      requires cur == |PackedAfter(all, i)|
      modifies this, base
      ensures count == old(count)
      ensures base == null || base == old(base) || fresh(base)
      ensures ok ==>
        cur + |all[i]| <= |Buffer()| &&
        PackedState(items0, bytes0, lost0, offsets0, all, Step(pageSize), memLimit, offsets, i,
                    cur + |all[i]|)
      ensures !ok ==>
        Stuck(items0, bytes0, offsets0, all, Step(pageSize), memLimit, offsets, i, cur)
    {
      OldestNext(items0, m, i);
      var x := items[|items| - 1];
      ghost var before := bytes;
      ok := Reserve(cur + |x|, pageSize, memLimit);
      if ok {
        GrowOn(bytes0, cur, |x|, Step(pageSize), memLimit, before, bytes);
      }
    }

    /** The rest of round `i`, once the buffer has room: copy the oldest item after the
        `cur` bytes packed so far, record its end offset and pop it. */
    method PlaceNext(cur: nat, i: nat, offsets: array<int>, ghost pageSize: nat,
                     ghost memLimit: nat, ghost items0: seq<seq<byte>>, ghost bytes0: nat,
                     ghost lost0: bool, ghost offsets0: seq<int>, ghost m: nat,
                     ghost all: seq<seq<byte>>)
      returns (next: nat)
      requires pageSize > 0 && i < m <= |items0| && m <= offsets.Length && all == Oldest(items0, m)
      requires cur == |PackedAfter(all, i)| && cur + |all[i]| <= |Buffer()|
      requires PackedState(items0, bytes0, lost0, offsets0, all, Step(pageSize), memLimit,
                           offsets, i, cur + |all[i]|)
      modifies this, base, offsets
      ensures count == old(count) && base == old(base)
      ensures next == cur + |all[i]| == |PackedAfter(all, i + 1)|
      ensures PackedState(items0, bytes0, lost0, offsets0, all, Step(pageSize), memLimit,
                          offsets, i + 1, next)
    {
      OldestNext(items0, m, i);
      var x := items[|items| - 1];
      ghost var items1, buffer1, offs1 := items, Buffer(), offsets[..];
      next := Place(cur, i, offsets, x, PackedAfter(all, i), IndexAfter(all, i));
      RoundPlaced(items0, bytes0, offsets0, m, all, Step(pageSize), memLimit, items1, bytes,
                  offs1, i, cur, items, Buffer(), offsets[..], next);
    }

    /** Round `i` of the `pop_multi` loop, which takes the `m` oldest items `all` of
        `items0`: make room for the oldest item left, then copy it after the `cur` bytes
        packed so far, record its end offset and pop it. When the room cannot be had,
        the buffer is lost and the round stops there. */
    method Round(cur: nat, i: nat, offsets: array<int>, pageSize: nat, memLimit: nat,
                 ghost items0: seq<seq<byte>>, ghost bytes0: nat, ghost lost0: bool,
                 ghost offsets0: seq<int>, ghost m: nat, ghost all: seq<seq<byte>>)
      returns (ok: bool, next: nat)
      requires pageSize > 0 && i < m <= |items0| && m <= offsets.Length && all == Oldest(items0, m)
      requires PackedState(items0, bytes0, lost0, offsets0, all, Step(pageSize), memLimit,
                           offsets, i, cur)
      requires cur == |PackedAfter(all, i)|
      modifies this, base, offsets
      ensures count == old(count)
      ensures base == null || base == old(base) || fresh(base)
      ensures ok ==>
        next == |PackedAfter(all, i + 1)| &&
        PackedState(items0, bytes0, lost0, offsets0, all, Step(pageSize), memLimit,
                    offsets, i + 1, next)
      ensures !ok ==>
        Stuck(items0, bytes0, offsets0, all, Step(pageSize), memLimit, offsets, i, cur)
    {
      next := cur;
      ok := MakeRoom(cur, i, offsets, pageSize, memLimit, items0, bytes0, lost0, offsets0, m, all);
      if ok {
        next := PlaceNext(cur, i, offsets, pageSize, memLimit, items0, bytes0, lost0,
                          offsets0, m, all);
      }
    }

    /** The loop of `pop_multi`: pack up to `maxCount` of the oldest items, oldest first,
        stopping early when a grow fails. `all` is what it takes, `Oldest(items0, m)`.
        On success all `m` rounds ran; on failure the grow in round `i` failed. */
    method PackRounds(maxCount: int, offsets: array<int>, pageSize: nat, memLimit: nat,
                      ghost items0: seq<seq<byte>>, ghost bytes0: nat, ghost lost0: bool,
                      ghost offsets0: seq<int>, ghost m: nat, ghost all: seq<seq<byte>>)
      returns (ok: bool, i: nat, cur: nat)
      requires pageSize > 0 && Stored() && (base == null ==> bytes == 0)
      requires items0 == items && bytes0 == bytes && lost0 == (base == null)
      requires offsets0 == offsets[..]
      requires m == Taken(maxCount, |items0|) <= offsets.Length && all == Oldest(items0, m)
      modifies this, base, offsets
      ensures count == old(count)
      ensures ok ==>
        i == m && cur == |PackedAfter(all, i)| &&
        PackedState(items0, bytes0, lost0, offsets0, all, Step(pageSize), memLimit, offsets,
                    i, cur)
      ensures !ok ==>
        i < m && Stuck(items0, bytes0, offsets0, all, Step(pageSize), memLimit, offsets, i, cur)
    {
      ghost var step := Step(pageSize);
      i, cur := 0, 0;
      RoundsStart(items0, bytes0, offsets0, all, step, memLimit);
      ok := true;
      while ok && i < maxCount && |items| > 0
        invariant i <= m && cur == |PackedAfter(all, i)| && count == old(count)
        invariant ok ==> |items| == |items0| - i
        invariant ok ==>
          PackedState(items0, bytes0, lost0, offsets0, all, step, memLimit, offsets, i, cur)
        invariant !ok ==>
          i < m && Stuck(items0, bytes0, offsets0, all, step, memLimit, offsets, i, cur)
        invariant base == null || base == old(base) || fresh(base)
      {
        var next;
        ok, next := Round(cur, i, offsets, pageSize, memLimit, items0, bytes0, lost0,
                          offsets0, m, all);
        if ok {
          i, cur := i + 1, next;
        }
      }
    }

    /** `CIRCLE_internal_queue_pop_multi` as written: it pops from the deque but leaves
        `count` as it was. The buffer must not be in the state a failed grow leaves
        (NULL with a non-zero size), and the packed total must fit an `int32_t`. */
    method PopMultiAsWritten(maxCount: int, offsets: array<int>, pageSize: nat, memLimit: nat)
      returns (written: nat)
      requires Stored() && pageSize > 0
      requires base == null ==> bytes == 0
      requires Taken(maxCount, |items|) <= offsets.Length
      requires TotalLen(Oldest(items, Taken(maxCount, |items|))) <= INT32_MAX
      modifies this, base, offsets
      ensures Stored() && count == old(count)
      ensures PoppedMulti(maxCount, offsets, Step(pageSize), memLimit, written)
    {
      ghost var items0, bytes0, lost0, offsets0 := items, bytes, base == null, offsets[..];
      ghost var step := Step(pageSize);
      ghost var m := Taken(maxCount, |items|);
      ghost var all := Oldest(items, m);
      var ok, i, cur := PackRounds(maxCount, offsets, pageSize, memLimit, items0, bytes0,
                                   lost0, offsets0, m, all);
      if !ok {
        PoppedPart(items0, bytes0, lost0, offsets0, maxCount, step, memLimit, items, bytes,
                   Buffer(), offsets[..], m, all, i, cur);
        written := 0;
        return;
      }
      PoppedAll(items0, bytes0, lost0, offsets0, maxCount, step, memLimit, items, bytes,
                base == null, Buffer(), offsets[..], PackedAfter(all, m), IndexAfter(all, m));
      written := cur;
    }

    /** `CIRCLE_internal_queue_pop_multi` with `count` re-set from the deque, as every
        other mutator does it. */
    method PopMulti(maxCount: int, offsets: array<int>, pageSize: nat, memLimit: nat)
      returns (written: nat)
      requires Stored() && pageSize > 0
      requires base == null ==> bytes == 0
      requires Taken(maxCount, |items|) <= offsets.Length
      requires TotalLen(Oldest(items, Taken(maxCount, |items|))) <= INT32_MAX
      modifies this, base, offsets
      ensures Valid()
      ensures PoppedMulti(maxCount, offsets, Step(pageSize), memLimit, written)
    {
      written := PopMultiAsWritten(maxCount, offsets, pageSize, memLimit);
      count := |items|;
    }

    /** The state after `i` rounds of `push_multi` that started from the deque `items0`
        with count `count0` and unpacks the buffer `buf` along the offset index `offs`: the
        first `i` items are pushed, the count is re-set by the first push, and `start` is
        where item `i` begins. */
    ghost predicate Pushing(items0: seq<seq<byte>>, count0: int, buf: seq<byte>,
                            offs: seq<int>, i: nat, start: int)
      reads this, base
    {
      Stored() && count == (if i == 0 then count0 else |items|) &&
      Buffer() == buf && OffsetsFit(offs, |buf|) && i <= |offs| &&
      start == (if i == 0 then 0 else offs[i - 1]) &&
      items == PushedFrom(items0, buf, offs, i)
    }

    /** One round of `push_multi`: push the C string of item `i`, which ends at `end`. */
    method PushSlice(start: int, end: int, ghost items0: seq<seq<byte>>, ghost count0: int,
                     ghost buf: seq<byte>, ghost offs: seq<int>, ghost i: nat)
      requires Pushing(items0, count0, buf, offs, i, start) && i < |offs| && end == offs[i]
      modifies this
      ensures base == old(base) && bytes == old(bytes)
      ensures Pushing(items0, count0, buf, offs, i + 1, end)
    {
      PushedFromNext(items0, buf, offs, i);
      var item := if base == null then [] else base[start..end];
      assert item == buf[start..end];
      // `push` only refuses NULL, which `c_str()` never is.
      var _ := Push(Some(item));
    }

    /** `CIRCLE_internal_queue_push_multi`: pushes, in index order, the C string of each
        buffer slice the first `maxCount` offsets delimit. The offsets are not checked,
        so they must fit the buffer. Each push re-sets `count` from the deque. */
    method PushMulti(maxCount: int, offsets: array<int>) returns (rc: int)
      requires Stored()
      requires maxCount <= offsets.Length
      requires OffsetsFit(offsets[..NonNeg(maxCount)], |Buffer()|)
      modifies this
      ensures Stored()
      ensures count == (if maxCount > 0 then |items| else old(count))
      ensures rc == 1
      ensures base == old(base) && bytes == old(bytes)
      ensures items == PushAll(old(items), CStrings(Unpack(Buffer(), offsets[..NonNeg(maxCount)])))
    {
      ghost var items0 := items;
      ghost var k := NonNeg(maxCount);
      ghost var buf := Buffer();
      ghost var offs := offsets[..k];
      var start := 0;
      var i := 0;
      while i < maxCount
        invariant i <= k && base == old(base) && bytes == old(bytes)
        invariant i == k || i < maxCount
        invariant Pushing(items0, old(count), buf, offs, i, start)
      {
        var end := offsets[i];
        PushSlice(start, end, items0, old(count), buf, offs, i);
        start := end;
        i := i + 1;
      }
      PushedFromAll(items0, buf, offs);
      rc := 1;
    }
  }

  /** `CIRCLE_internal_queue_free`: a NULL queue is refused; otherwise the deque and the
      buffer are released and the fields cleared. */
  method Free(q: Queue?) returns (rc: int)
    modifies q
    ensures rc == (if q == null then -1 else 1)
    ensures q != null ==> q.items == [] && q.count == 0 && q.base == null && q.bytes == 0
  {
    if q == null {
      rc := -1;
      return;
    }
    q.items := [];
    q.count := 0;
    q.base := null;
    q.bytes := 0;
    rc := 1;
  }
}
