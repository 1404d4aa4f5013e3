/** The text of a checkpoint file: one line per item, in deque order from front (newest)
    to back (oldest), each ended by a newline. */
module Checkpoint {
  import opened Bytes
  import opened Fifo

  /** What `fprintf(file, "%s\n", item)` writes for each item, front to back. */
  function EncodeLines(items: seq<seq<byte>>): seq<byte>
  {
    if items == [] then [] else items[0] + [NEWLINE] + EncodeLines(items[1..])
  }

  /** Writing one more line appends that line to the text written so far. */
  lemma {:induction false} EncodeLinesSnoc(items: seq<seq<byte>>, x: seq<byte>)
    ensures EncodeLines(items + [x]) == EncodeLines(items) + x + [NEWLINE]
  {
    if items != [] {
      assert (items + [x])[1..] == items[1..] + [x];
      EncodeLinesSnoc(items[1..], x);
    } else {
      assert (items + [x])[1..] == [];
    }
  }

  function FirstIndex(s: seq<byte>, x: byte): (k: nat)
    requires x in s
    ensures k < |s| && s[k] == x && x !in s[..k]
  {
    if s[0] == x then 0 else 1 + FirstIndex(s[1..], x)
  }

  /** A reference reading of checkpoint text: the lines it holds, without their
      terminators (a last line without one is kept). */
  function SplitLines(text: seq<byte>): seq<seq<byte>>
    decreases |text|
  {
    if text == [] then []
    else if NEWLINE !in text then [text]
    else
      var k := FirstIndex(text, NEWLINE);
      [text[..k]] + SplitLines(text[k + 1..])
  }

  /** The line format loses nothing for items without a newline byte. */
  lemma {:induction false} SplitEncode(items: seq<seq<byte>>)
    requires forall i | 0 <= i < |items| :: NEWLINE !in items[i]
    ensures SplitLines(EncodeLines(items)) == items
  {
    if items != [] {
      var x, rest := items[0], items[1..];
      var text := EncodeLines(items);
      assert text == x + [NEWLINE] + EncodeLines(rest);
      assert text[..|x|] == x;
      assert text[|x|] == NEWLINE;
      var k := FirstIndex(text, NEWLINE);
      assert k == |x|;
      assert text[k + 1..] == EncodeLines(rest);
      SplitEncode(rest);
    }
  }

  /** Pushing the lines back in file order, one `push_front` each, reverses the queue's
      order: the new queue pops the items in deque front-to-back order (newest first),
      whereas the original queue popped them in the reverse of that order. */
  lemma RestoreReversesOrder(items: seq<seq<byte>>)
    requires forall i | 0 <= i < |items| :: NEWLINE !in items[i]
    ensures Reverse(PushAll([], SplitLines(EncodeLines(items)))) == items
    ensures PushAll([], SplitLines(EncodeLines(items))) == Reverse(items)
  {
    SplitEncode(items);
    FifoOrder([], items);
    ReverseReverse(PushAll([], items));
  }
}
