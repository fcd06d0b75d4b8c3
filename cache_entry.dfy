/** One cache line. */
module CacheEntry {

  newtype byte = x: int | 0 <= x < 256

  /** A line of a set. The insertion timestamp of the source is wall-clock
      time and is not part of the model. */
  datatype Line = Line(
    tag: nat,
    valid: bool,
    dirty: bool,
    lastUsed: nat,
    accessCount: nat,
    data: seq<byte>)

  /** The line a set is built with: empty, clean, never used, with a zeroed
      payload of blockSize bytes. */
  function NewLine(blockSize: nat): (l: Line)
    ensures !l.valid && !l.dirty
    ensures l.tag == 0 && l.lastUsed == 0 && l.accessCount == 0
    ensures |l.data| == blockSize && forall i | 0 <= i < blockSize :: l.data[i] == 0
  {
    Line(0, false, false, 0, 0, seq(blockSize, _ => 0))
  }
}
