/**
 * The `InputStream` the demodulation classes read from, reduced to what they
 * use: a fixed byte content consumed from the front by `readNBytes`.
 */
module Streams {
  import Bits

  class ByteStream {
    /** Everything the stream will ever deliver. */
    const content: seq<Bits.UByte>
    /** How many bytes have been consumed so far. */
    var pos: nat

    ghost predicate Valid()
      reads this
    {
      pos <= |content|
    }

    constructor (content: seq<Bits.UByte>)
      ensures this.content == content && pos == 0 && Valid()
    {
      this.content := content;
      pos := 0;
    }

    /**
     * `readNBytes(b, off, len)`: blocks until `len` bytes are read or the
     * stream ends, stores them at `b[off..]` and returns how many were read.
     */
    method ReadNBytes(b: array<Bits.UByte>, off: nat, len: nat) returns (n: nat)
      requires Valid() && off + len <= b.Length
      modifies this, b
      ensures Valid()
      ensures n == if len < |content| - old(pos) then len else |content| - old(pos)
      ensures pos == old(pos) + n
      ensures forall j :: 0 <= j < b.Length ==>
        b[j] == if off <= j < off + n then content[old(pos) + (j - off)] else old(b[j])
    {
      n := if len < |content| - pos then len else |content| - pos;
      for k := 0 to n
        modifies b
        invariant forall j :: 0 <= j < b.Length ==>
          b[j] == if off <= j < off + k then content[pos + (j - off)] else old(b[j])
      {
        b[off + k] := content[pos + k];
      }
      pos := pos + n;
    }
  }
}
