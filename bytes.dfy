/** Bytes as the codec sees them: the elements of a Node `Buffer`, numbers in 0..255. */
module Bytes {

  type Byte = x: int | 0 <= x < 256

  /** `buf.slice(start, end)` on a Node `Buffer`: both bounds are clamped to
      the buffer's length, so a short buffer yields a short (possibly empty)
      slice instead of an error, and `start > end` yields an empty one. */
  function Slice(buf: seq<Byte>, start: nat, end: nat): (r: seq<Byte>)
    ensures |r| == if start <= end && start <= |buf| then (if end <= |buf| then end else |buf|) - start else 0
    ensures start <= end <= |buf| ==> r == buf[start..end]
    ensures forall i :: 0 <= i < |r| ==> start + i < |buf| && r[i] == buf[start + i]
  {
    var lo := if start <= |buf| then start else |buf|;
    var hi := if end <= |buf| then end else |buf|;
    if lo <= hi then buf[lo..hi] else []
  }
}
