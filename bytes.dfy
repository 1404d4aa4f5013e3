/** Bytes as the queue stores them, and the C-string view that `push` takes of them. */
module Bytes {

  /** One `char` of an item. */
  newtype byte = x: int | 0 <= x < 256

  /** A C pointer argument: NULL, or the bytes it points at. */
  datatype Option<T> = None | Some(value: T)

  /** The terminator of a C string. */
  const NUL: byte := 0

  /** The line terminator of the checkpoint file. */
  const NEWLINE: byte := 10

  /** The string that `std::string(str)` builds from the bytes at `str`: everything before
      the first NUL (all of `raw` when it holds none). */
  function CString(raw: seq<byte>): (s: seq<byte>)
    ensures NUL !in s
    ensures s <= raw
    ensures |s| < |raw| ==> raw[|s|] == NUL
    ensures NUL !in raw ==> s == raw
  {
    if raw == [] || raw[0] == NUL then [] else [raw[0]] + CString(raw[1..])
  }

  /** `CString` applied to each element. */
  function CStrings(ss: seq<seq<byte>>): (r: seq<seq<byte>>)
    ensures |r| == |ss|
    ensures forall i | 0 <= i < |r| :: NUL !in r[i]
    ensures (forall i | 0 <= i < |ss| :: NUL !in ss[i]) ==> r == ss
  {
    seq(|ss|, i requires 0 <= i < |ss| => CString(ss[i]))
  }
}
