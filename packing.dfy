/** The multi-pack wire shape: items laid out back to back in one buffer, delimited by an
    index of cumulative end offsets. Item i occupies `[offsets[i-1], offsets[i])`, with 0
    standing in for `offsets[-1]`. */
module Packing {
  import opened Bytes
  import opened Fifo

  /** Offsets are `int32_t` in the source. */
  const INT32_MAX: int := 0x7fff_ffff

  /** The sum of the lengths of `ps`. */
  function TotalLen(ps: seq<seq<byte>>): nat
  {
    if ps == [] then 0 else TotalLen(ps[..|ps| - 1]) + |ps[|ps| - 1]|
  }

  /** `ps` written back to back. */
  function Pack(ps: seq<seq<byte>>): (r: seq<byte>)
    ensures |r| == TotalLen(ps)
  {
    if ps == [] then [] else Pack(ps[..|ps| - 1]) + ps[|ps| - 1]
  }

  /** The offset index of `Pack(ps)`: entry i is the total length of items 0..i. */
  function Offsets(ps: seq<seq<byte>>): (r: seq<int>)
    ensures |r| == |ps|
  {
    seq(|ps|, i requires 0 <= i < |ps| => TotalLen(ps[..i + 1]))
  }

  /** Packing one more item appends its end offset to the index. */
  lemma OffsetsSnoc(ps: seq<seq<byte>>, x: seq<byte>)
    ensures Offsets(ps + [x]) == Offsets(ps) + [TotalLen(ps) + |x|]
  {
    var qs := ps + [x];
    assert qs[..|qs| - 1] == ps;
    forall i | 0 <= i < |ps|
      ensures Offsets(qs)[i] == Offsets(ps)[i]
    {
      assert qs[..i + 1] == ps[..i + 1];
    }
    assert qs[..|ps| + 1] == qs;
  }

  /** Where item i of an offset index starts. */
  function Start(offsets: seq<int>, i: nat): int
    requires i < |offsets|
  {
    if i == 0 then 0 else offsets[i - 1]
  }

  /** An offset index that delimits items inside a buffer of `capacity` bytes: it never
      decreases and never passes the end. */
  predicate OffsetsFit(offsets: seq<int>, capacity: int)
  {
    forall i {:trigger Start(offsets, i)} | 0 <= i < |offsets| ::
      0 <= Start(offsets, i) <= offsets[i] <= capacity
  }

  /** Item `i` of `buf` is the slice between its start and end offsets. */
  lemma CutSlice(buf: seq<byte>, offsets: seq<int>, i: nat)
    requires OffsetsFit(offsets, |buf|) && i < |offsets|
    ensures Cut(buf, offsets, i) == buf[Start(offsets, i)..offsets[i]]
  {
  }

  /** Item `i` of `buf` as an offset index delimits it: the bytes from the end of item
      `i - 1` (the start of the buffer for item 0) up to `offsets[i]`. It is built byte by
      byte rather than sliced, which keeps slice arithmetic out of the proofs about it. */
  function Cut(buf: seq<byte>, offsets: seq<int>, i: nat): (r: seq<byte>)
    requires OffsetsFit(offsets, |buf|) && i < |offsets|
    ensures 0 <= Start(offsets, i) <= offsets[i] <= |buf| && |r| == offsets[i] - Start(offsets, i)
  {
    var start := Start(offsets, i);
    seq(offsets[i] - start, j requires 0 <= j < offsets[i] - start => buf[start + j])
  }

  /** The items an offset index delimits in `buf`. */
  function Unpack(buf: seq<byte>, offsets: seq<int>): (r: seq<seq<byte>>)
    requires OffsetsFit(offsets, |buf|)
    ensures |r| == |offsets|
  {
    seq(|offsets|, i requires 0 <= i < |offsets| => Cut(buf, offsets, i))
  }

  lemma {:induction false} TotalLenPrefix(ps: seq<seq<byte>>, j: nat)
    requires j <= |ps|
    ensures TotalLen(ps[..j]) <= TotalLen(ps)
  {
    if j < |ps| {
      TotalLenPrefix(ps[..|ps| - 1], j);
      assert ps[..|ps| - 1][..j] == ps[..j];
    } else {
      assert ps[..j] == ps;
    }
  }

  lemma {:induction false} PackPrefix(ps: seq<seq<byte>>, j: nat)
    requires j <= |ps|
    ensures Pack(ps[..j]) <= Pack(ps)
  {
    if j < |ps| {
      PackPrefix(ps[..|ps| - 1], j);
      assert ps[..|ps| - 1][..j] == ps[..j];
    } else {
      assert ps[..j] == ps;
    }
  }

  /** Item i of `ps` sits in `Pack(ps)` between its start and end offsets. */
  lemma PackSlice(ps: seq<seq<byte>>, i: nat)
    requires i < |ps|
    ensures i > 0 ==> Offsets(ps)[i - 1] == TotalLen(ps[..i])
    ensures Offsets(ps)[i] == TotalLen(ps[..i]) + |ps[i]| <= TotalLen(ps)
    ensures Pack(ps)[TotalLen(ps[..i])..Offsets(ps)[i]] == ps[i]
  {
    var pre := ps[..i + 1];
    assert pre[..|pre| - 1] == ps[..i];
    PackPrefix(ps, i + 1);
    TotalLenPrefix(ps, i + 1);
  }

  /** Pack's offset index fits the packed buffer (and any buffer that begins with it). */
  lemma PackOffsetsFit(ps: seq<seq<byte>>, capacity: int)
    requires TotalLen(ps) <= capacity
    ensures OffsetsFit(Offsets(ps), capacity)
  {
    forall i | 0 <= i < |ps|
      ensures 0 <= Start(Offsets(ps), i) <= Offsets(ps)[i] <= capacity
    {
      PackSlice(ps, i);
    }
  }

  /** Unpacking a buffer that begins with `Pack(ps)` along `Offsets(ps)` gives back `ps`. */
  lemma UnpackPack(ps: seq<seq<byte>>, buf: seq<byte>)
    requires Pack(ps) <= buf
    ensures OffsetsFit(Offsets(ps), |buf|)
    ensures Unpack(buf, Offsets(ps)) == ps
  {
    PackOffsetsFit(ps, |buf|);
    var r := Unpack(buf, Offsets(ps));
    forall i | 0 <= i < |ps|
      ensures r[i] == ps[i]
    {
      PackSlice(ps, i);
    }
  }

  /** The deque `q` after the first `i` rounds of unpacking `buf` along `offsets` and
      pushing the C string of each item. */
  function PushedFrom(q: seq<seq<byte>>, buf: seq<byte>, offsets: seq<int>, i: nat)
    : (r: seq<seq<byte>>)
    requires OffsetsFit(offsets, |buf|) && i <= |offsets|
    ensures |r| == |q| + i
  {
    if i == 0 then q
    else [CString(Cut(buf, offsets, i - 1))] + PushedFrom(q, buf, offsets, i - 1)
  }

  /** Round `i` pushes the C string of the slice that ends at `offsets[i]`, which lies
      inside the buffer. */
  lemma PushedFromNext(q: seq<seq<byte>>, buf: seq<byte>, offsets: seq<int>, i: nat)
    requires OffsetsFit(offsets, |buf|) && i < |offsets|
    ensures 0 <= Start(offsets, i) <= offsets[i] <= |buf|
    ensures PushedFrom(q, buf, offsets, i + 1) ==
      [CString(buf[Start(offsets, i)..offsets[i]])] + PushedFrom(q, buf, offsets, i)
  {
    CutSlice(buf, offsets, i);
  }

  /** Pushing round by round is pushing the unpacked C strings in order. */
  lemma {:induction false} PushedFromUnpack(q: seq<seq<byte>>, buf: seq<byte>, offsets: seq<int>,
                                            i: nat)
    requires OffsetsFit(offsets, |buf|) && i <= |offsets|
    ensures PushedFrom(q, buf, offsets, i) == PushAll(q, CStrings(Unpack(buf, offsets))[..i])
  {
    var xs := CStrings(Unpack(buf, offsets));
    if i == 0 {
      assert xs[..0] == [];
    } else {
      PushedFromUnpack(q, buf, offsets, i - 1);
      PushAllNext(q, xs, i - 1);
      assert xs[i - 1] == CString(Unpack(buf, offsets)[i - 1]);
    }
  }

  /** Pushing round by round through the whole index is pushing all the unpacked C strings
      in order. */
  lemma PushedFromAll(q: seq<seq<byte>>, buf: seq<byte>, offsets: seq<int>)
    requires OffsetsFit(offsets, |buf|)
    ensures PushedFrom(q, buf, offsets, |offsets|) == PushAll(q, CStrings(Unpack(buf, offsets)))
  {
    var xs := CStrings(Unpack(buf, offsets));
    PushedFromUnpack(q, buf, offsets, |offsets|);
    assert xs[..|offsets|] == xs;
  }

  /** The bulk-transfer law: the NUL-free items packed on one side, unpacked and pushed
      (each through its C string) on the other, are popped there after everything already
      queued, in the order they were packed. */
  lemma PackedTransfer(q: seq<seq<byte>>, ps: seq<seq<byte>>, buf: seq<byte>)
    requires forall i | 0 <= i < |ps| :: NUL !in ps[i]
    requires Pack(ps) <= buf
    ensures OffsetsFit(Offsets(ps), |buf|)
    ensures Reverse(PushAll(q, CStrings(Unpack(buf, Offsets(ps))))) == Reverse(q) + ps
  {
    UnpackPack(ps, buf);
    FifoOrder(q, ps);
  }

  /** A buffer that begins with `Pack(ps)`, read through an offset array that begins with
      `Offsets(ps)` and a result equal to the packed total: the first `|ps|` offsets fit
      and cut the buffer into exactly `ps`, the result is the last of them (0 for none),
      and the cut items, pushed onto `q`, pop after `q` in their packed order. */
  lemma PackedResult(ps: seq<seq<byte>>, buffer: seq<byte>, offs: seq<int>, written: int,
                     q: seq<seq<byte>>)
    requires forall i | 0 <= i < |ps| :: NUL !in ps[i]
    requires Pack(ps) <= buffer && Offsets(ps) <= offs && written == TotalLen(ps)
    ensures |ps| <= |offs| && OffsetsFit(offs[..|ps|], |buffer|)
    ensures Unpack(buffer, offs[..|ps|]) == ps
    ensures written == (if |ps| == 0 then 0 else offs[|ps| - 1])
    ensures Reverse(PushAll(q, CStrings(Unpack(buffer, offs[..|ps|])))) == Reverse(q) + ps
  {
    assert offs[..|ps|] == Offsets(ps);
    UnpackPack(ps, buffer);
    if ps != [] {
      PackSlice(ps, |ps| - 1);
      assert ps[..|ps|] == ps;
    }
    PackedTransfer(q, ps, buffer);
  }
}
