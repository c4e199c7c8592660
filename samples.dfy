/**
 * `SamplesDecoder`: turns the byte stream of the radio into signed 12-bit
 * samples, two bytes per sample (low byte first), minus a bias of 2048.
 */
module SamplesDecoders {
  import Bits
  import Streams

  const BIAS: int := 2048

  /**
   * One sample from its low byte `lo` (read unsigned) and high byte `hi`
   * (read signed). `(hi << 8) | lo` is `hi * 256 + lo`, since the shift
   * leaves the eight low bits clear; the result is cast to `short`.
   */
  function Sample(lo: Bits.UByte, hi: Bits.UByte): Bits.Short
  {
    Bits.WrapShort(Bits.Signed(hi) * 256 + lo - BIAS)
  }

  /** A 12-bit sample (high byte in `[0, 15]`) is exact and lies in `[-2048, 2047]`. */
  lemma SampleRange(lo: Bits.UByte, hi: Bits.UByte)
    requires hi <= 15
    ensures Sample(lo, hi) == hi * 256 + lo - BIAS
    ensures -2048 <= Sample(lo, hi) <= 2047
  {
  }

  class SamplesDecoder {
    const stream: Streams.ByteStream
    const batchSize: nat
    /** The buffer the bytes of one batch are read into; it keeps its content between calls. */
    const bytes: array<Bits.UByte>

    ghost predicate Valid()
      reads this, stream
    {
      stream.Valid() && batchSize > 0 && bytes.Length == 2 * batchSize
    }

    /**
     * The constructor; its checks on `batchSize` and the stream become the
     * requires clause, and so does the `int` overflow of `2 * batchSize`,
     * for which `new byte[2 * batchSize]` throws.
     */
    constructor (stream: Streams.ByteStream, batchSize: nat)
      requires stream.Valid() && batchSize > 0 && batchSize < 0x4000_0000
      ensures Valid() && fresh(bytes)
      ensures this.stream == stream && this.batchSize == batchSize
    {
      this.stream := stream;
      this.batchSize := batchSize;
      bytes := new Bits.UByte[2 * batchSize](_ => 0);
    }

    /**
     * `readBatch`: reads up to `2 * batchSize` bytes and decodes sample `k`
     * from bytes `2k` and `2k + 1` for every `2k` below the number of bytes
     * read. When that number is odd the last high byte is whatever the buffer
     * held before. Returns half the number of bytes read.
     */
    method ReadBatch(batch: array<Bits.Short>) returns (n: int)
      requires Valid() && batch.Length == batchSize
      modifies stream, bytes, batch
      ensures Valid()
      ensures var read := stream.pos - old(stream.pos);
        read == (if 2 * batchSize < |stream.content| - old(stream.pos)
                 then 2 * batchSize else |stream.content| - old(stream.pos)) &&
        n == read / 2 &&
        (forall j :: 0 <= j < bytes.Length ==>
          bytes[j] == if j < read then stream.content[old(stream.pos) + j] else old(bytes[j])) &&
        (forall k :: 0 <= k < batchSize ==>
          batch[k] == if 2 * k < read then Sample(bytes[2 * k], bytes[2 * k + 1]) else old(batch[k]))
    {
      var read := stream.ReadNBytes(bytes, 0, bytes.Length);
      var i := 0;
      while i < read
        modifies batch
        invariant 0 <= i <= read + 1 && i % 2 == 0
        invariant forall k :: 0 <= k < batchSize ==>
          batch[k] == if 2 * k < i then Sample(bytes[2 * k], bytes[2 * k + 1]) else old(batch[k])
      {
        var firstByte := bytes[i];
        var secondByte := bytes[i + 1];
        batch[i / 2] := Sample(firstByte, secondByte);
        i := 2 + i;
      }
      n := read / 2;
    }
  }
}
