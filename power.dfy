/**
 * `PowerComputer`: turns samples into power values. The last eight samples
 * are kept in a ring (sample `k` of the stream in slot `k % 8`); after every
 * odd sample the power `(r1 - r3 + r5 - r7)^2 + (r0 - r2 + r4 - r6)^2` of the
 * ring's slots is output. `Math.pow` on these integers is exact, so the
 * power is computed on integers; the `(int)` cast of the resulting `double`
 * saturates at `Integer.MAX_VALUE`.
 */
module PowerComputers {
  import Bits
  import Streams
  import SamplesDecoders

  const MAX_INT: int := 0x7FFF_FFFF

  /** Java's `(int)` cast of a non-negative `double` holding an integer. */
  function ToInt(x: nat): (r: Bits.Int)
    ensures x <= MAX_INT ==> r == x
    ensures x > MAX_INT ==> r == MAX_INT
  {
    if x > MAX_INT then MAX_INT else x
  }

  /** `Math.pow(x, 2)`, exact on these integers. */
  function Square(x: int): nat
  {
    x * x
  }

  /** The power of a ring of eight samples, by slot. */
  function Power(r: seq<int>): nat
    requires |r| == 8
  {
    Square(r[1] - r[3] + r[5] - r[7]) + Square(r[0] - r[2] + r[4] - r[6])
  }

  /** The ring after the first `n` samples of `h` were stored in order, sample `k` into slot `k % 8`. */
  function RingAt(h: seq<Bits.Short>, n: nat): (r: seq<Bits.Short>)
    requires n <= |h|
    ensures |r| == 8
  {
    if n == 0 then seq(8, _ => 0) else RingAt(h, n - 1)[(n - 1) % 8 := h[n - 1]]
  }

  /**
   * The index of the latest of the first `n` samples that went into slot
   * `j`; negative if none did yet.
   */
  function Latest(n: nat, j: int): int
  {
    n - 1 - (n - 1 - j) % 8
  }

  /** Slot `j` of the ring holds the latest sample stored there, or 0 if there is none. */
  lemma {:induction false} RingSlots(h: seq<Bits.Short>, n: nat, j: int)
    requires n <= |h| && 0 <= j < 8
    ensures Latest(n, j) < n
    ensures RingAt(h, n)[j] == if Latest(n, j) >= 0 then h[Latest(n, j)] else 0
  {
    if n > 0 {
      var r0 := RingAt(h, n - 1);
      assert RingAt(h, n) == r0[(n - 1) % 8 := h[n - 1]];
      RingSlots(h, n - 1, j);
      LatestStep(n, j);
      if (n - 1) % 8 != j {
        assert RingAt(h, n)[j] == r0[j];
      }
    }
  }

  lemma LatestStep(n: nat, j: int)
    requires n > 0 && 0 <= j < 8
    ensures (n - 1) % 8 == j ==> Latest(n, j) == n - 1
    ensures (n - 1) % 8 != j ==> Latest(n, j) == Latest(n - 1, j)
  {
    var q, r := (n - 1) / 8, (n - 1) % 8;
    if r == j {
      ModOf(n - 1 - j, q, 0);
    } else if r > j {
      ModOf(n - 1 - j, q, r - j);
      ModOf(n - 2 - j, q, r - j - 1);
    } else {
      ModOf(n - 1 - j, q - 1, 8 + r - j);
      ModOf(n - 2 - j, q - 1, 8 + r - j - 1);
    }
  }

  lemma ModOf(a: int, q: int, r: int)
    requires a == 8 * q + r && 0 <= r < 8
    ensures a % 8 == r
  {
  }

  /** Once eight samples are in, the ring holds exactly the last eight samples. */
  lemma RingLastEight(h: seq<Bits.Short>, n: nat, j: int)
    requires 0 <= j < 8 && 8 <= n <= |h|
    ensures n - 8 <= Latest(n, j) < n
    ensures RingAt(h, n)[j] == h[Latest(n, j)]
  {
    RingSlots(h, n, j);
  }

  /** The ring depends only on the samples stored so far. */
  lemma {:induction false} RingAtPrefix(h0: seq<Bits.Short>, h: seq<Bits.Short>, n: nat)
    requires n <= |h0| <= |h| && h[..|h0|] == h0
    ensures RingAt(h0, n) == RingAt(h, n)
  {
    if n > 0 {
      RingAtPrefix(h0, h, n - 1);
      assert h0[n - 1] == h[n - 1];
    }
  }

  /** The value output right after sample `m` of the history was stored. */
  function PowerAt(h: seq<Bits.Short>, m: nat): Bits.Int
    requires m < |h|
  {
    ToInt(Power(RingAt(h, m + 1)))
  }

  lemma SquareBound(x: int, b: int)
    requires 0 <= b && -b <= x <= b
    ensures Square(x) <= b * b
  {
    if x >= 0 {
      assert x * x <= x * b;
    } else {
      assert x * x == (-x) * (-x) <= (-x) * b;
    }
  }

  /** For 12-bit samples the power stays below `2^31`, so the cast is exact. */
  lemma PowerFits(r: seq<int>)
    requires |r| == 8 && forall k :: 0 <= k < 8 ==> -2048 <= r[k] <= 2047
    ensures Power(r) <= MAX_INT && ToInt(Power(r)) == Power(r)
  {
    SquareBound(r[1] - r[3] + r[5] - r[7], 8190);
    SquareBound(r[0] - r[2] + r[4] - r[6], 8190);
  }

  /** The samples the bytes `input` decode to, two bytes per sample. */
  function StreamSamples(input: seq<Bits.UByte>): (s: seq<Bits.Short>)
    ensures |s| == |input| / 2
    ensures forall k :: 0 <= k < |s| ==> s[k] == SamplesDecoders.Sample(input[2 * k], input[2 * k + 1])
  {
    seq(|input| / 2, k requires 0 <= k < |input| / 2 => SamplesDecoders.Sample(input[2 * k], input[2 * k + 1]))
  }

  /**
   * The samples `h` were stored while the stream's `content` was read from
   * `start` up to `pos`: every sample whose two bytes were read is decoded
   * from them. Two bytes are read per sample stored, except once `content`
   * runs out.
   */
  ghost predicate Decodes(content: seq<Bits.UByte>, start: nat, h: seq<Bits.Short>, pos: nat)
  {
    start <= pos <= |content| && pos - start <= 2 * |h| && (pos - start == 2 * |h| || pos == |content|) &&
    forall k :: SampleRead(content, start, h, pos, k)
  }

  /** Sample `k` of `h` is decoded from its two bytes, if both are among those read. */
  ghost predicate SampleRead(content: seq<Bits.UByte>, start: nat, h: seq<Bits.Short>, pos: nat, k: int)
    requires pos <= |content|
  {
    0 <= k < |h| && start + 2 * k + 2 <= pos ==>
      h[k] == SamplesDecoders.Sample(content[start + 2 * k], content[start + 2 * k + 1])
  }

  /**
   * One batch of the samples decoder keeps `Decodes`: `read` bytes from
   * `pos` on are read into `bytes`, and sample `k` of `batch` comes from
   * bytes `2k` and `2k + 1` whenever `2k` is below `read`.
   */
  lemma DecodesStep(content: seq<Bits.UByte>, start: nat, h0: seq<Bits.Short>, pos: nat,
                    batch: seq<Bits.Short>, bytes: seq<Bits.UByte>, read: nat)
    requires Decodes(content, start, h0, pos)
    requires read == if 2 * |batch| < |content| - pos then 2 * |batch| else |content| - pos
    requires |bytes| == 2 * |batch| && forall j :: 0 <= j < read ==> bytes[j] == content[pos + j]
    requires forall k :: 0 <= k < |batch| && 2 * k < read ==>
      batch[k] == SamplesDecoders.Sample(bytes[2 * k], bytes[2 * k + 1])
    ensures Decodes(content, start, h0 + batch, pos + read)
  {
    var h, pos' := h0 + batch, pos + read;
    forall k
      ensures SampleRead(content, start, h, pos', k)
    {
      assert SampleRead(content, start, h0, pos, k);
      if 0 <= k < |h| && start + 2 * k + 2 <= pos' && k >= |h0| {
        var i := k - |h0|;
        assert pos == start + 2 * |h0|;
        assert bytes[2 * i] == content[start + 2 * k] && bytes[2 * i + 1] == content[start + 2 * k + 1];
      }
    }
  }

  class PowerComputer {
    const decoder: SamplesDecoders.SamplesDecoder
    const batchSize: nat
    /** `arrayOfSamples`, the samples of one batch. */
    const samples: array<Bits.Short>
    /** `lastEightSamples`. */
    const ring: array<Bits.Short>
    /** Every sample stored in the ring so far. */
    ghost var history: seq<Bits.Short>
    /** The sum of the counts `readBatch` returned. */
    ghost var available: nat

    ghost const Repr: set<object>
    /** `batchSize / 8`. */
    ghost const eighths: nat
    /** `|history| / 8`. */
    ghost var blocks: nat
    /** Where the stream stood when the computer was made. */
    ghost const start: nat

    ghost predicate Valid()
      reads this, decoder, decoder.stream, ring
    {
      Repr == {this, decoder.stream, decoder.bytes, samples, ring} &&
      decoder.Valid() && eighths > 0 && batchSize == 8 * eighths &&
      decoder.batchSize == 2 * batchSize && samples.Length == 2 * batchSize &&
      ring.Length == 8 && samples != ring && |history| == 8 * blocks &&
      start + 4 * available <= decoder.stream.pos &&
      Decodes(decoder.stream.content, start, history, decoder.stream.pos) &&
      forall k :: 0 <= k < 8 ==> ring[k] == RingAt(history, |history|)[k]
    }

    /** The samples of the bytes the stream holds from `start` on. */
    ghost function InputSamples(): seq<Bits.Short>
      requires start <= |decoder.stream.content|
    {
      StreamSamples(decoder.stream.content[start..])
    }

    /**
     * The stored samples are those of the stream: the first `n` samples of
     * the history are the first `n` decoded from the stream's bytes, for
     * every `n` whose `2n` bytes have been read.
     */
    lemma Agree(n: nat)
      requires Valid() && start + 2 * n <= decoder.stream.pos
      ensures n <= |history| && n <= |InputSamples()| && history[..n] == InputSamples()[..n]
    {
      var input := decoder.stream.content[start..];
      assert forall k :: 0 <= k < n ==> history[k] == InputSamples()[k] by {
        forall k | 0 <= k < n
          ensures history[k] == InputSamples()[k]
        {
          assert SampleRead(decoder.stream.content, start, history, decoder.stream.pos, k);
          assert input[2 * k] == decoder.stream.content[start + 2 * k];
          assert input[2 * k + 1] == decoder.stream.content[start + 2 * k + 1];
        }
      }
    }

    /**
     * The constructor; its checks on `batchSize` become the requires clause,
     * and so does the bound below which neither `2 * batchSize` here nor
     * `2 * (2 * batchSize)` in the samples decoder overflows an `int`.
     */
    constructor (stream: Streams.ByteStream, batchSize: nat)
      requires stream.Valid() && batchSize > 0 && batchSize % 8 == 0 && batchSize < 0x2000_0000
      ensures Valid() && this.batchSize == batchSize && decoder.stream == stream && start == stream.pos
      ensures fresh(decoder) && fresh(decoder.bytes) && fresh(samples) && fresh(ring)
      ensures history == [] && available == 0
    {
      var d := new SamplesDecoders.SamplesDecoder(stream, 2 * batchSize);
      var s := new Bits.Short[2 * batchSize](_ => 0);
      var r := new Bits.Short[8](_ => 0);
      decoder := d;
      this.batchSize := batchSize;
      samples := s;
      ring := r;
      history := [];
      available := 0;
      Repr := {this, stream, d.bytes, s, r};
      eighths := batchSize / 8;
      blocks := 0;
      start := stream.pos;
    }

    /**
     * `readBatch`: decodes one batch of `2 * batchSize` samples and writes
     * all `batchSize` entries of `batch`, whatever the number of samples
     * actually decoded; returns half that number.
     */
    method ReadBatch(batch: array<Bits.Int>) returns (n: int)
      requires Valid() && batch.Length >= batchSize && batch !in Repr
      modifies Repr, batch
      ensures Valid()
      ensures history == old(history) + samples[..]
      ensures forall j :: 0 <= j < batchSize ==>
        batch[j] == PowerAt(history, |old(history)| + 2 * j + 1)
      ensures forall j :: batchSize <= j < batch.Length ==> batch[j] == old(batch[j])
      ensures n == (decoder.stream.pos - old(decoder.stream.pos)) / 2 / 2
      ensures available == old(available) + n
    {
      ghost var h0 := history;
      var count := decoder.ReadBatch(samples);
      ghost var h := h0 + samples[..];
      DecodesStep(decoder.stream.content, start, h0, old(decoder.stream.pos), samples[..], decoder.bytes[..],
                  decoder.stream.pos - old(decoder.stream.pos));
      StoreAll(batch, h0, h, blocks);
      history := h;
      blocks := blocks + 2 * eighths;
      n := count / 2;
      available := available + n;
    }

    /** The loop of `readBatch`: every sample of the batch goes through `Store`. */
    method StoreAll(batch: array<Bits.Int>, ghost h0: seq<Bits.Short>, ghost h: seq<Bits.Short>, ghost q: nat)
      requires ring.Length == 8 && samples != ring && samples.Length == 2 * batchSize && batchSize <= batch.Length
      requires |h0| == 8 * q && h == h0 + samples[..]
      requires forall k :: 0 <= k < 8 ==> ring[k] == RingAt(h0, |h0|)[k]
      modifies ring, batch
      ensures forall k :: 0 <= k < 8 ==> ring[k] == RingAt(h, |h|)[k]
      ensures forall j :: 0 <= j < batchSize ==> batch[j] == PowerAt(h, |h0| + 2 * j + 1)
      ensures forall j :: batchSize <= j < batch.Length ==> batch[j] == old(batch[j])
    {
      ghost var base := |h0|;
      assert forall k :: 0 <= k < samples.Length ==> h[base + k] == samples[k];
      assert h[..base] == h0;
      RingAtPrefix(h0, h, base);
      for i := 0 to samples.Length
        invariant forall k :: 0 <= k < 8 ==> ring[k] == RingAt(h, base + i)[k]
        invariant forall j :: 0 <= j < batchSize && 2 * j + 1 < i ==> batch[j] == PowerAt(h, base + 2 * j + 1)
        invariant forall j :: 0 <= j < batch.Length && i <= 2 * j + 1 ==> batch[j] == old(batch[j])
      {
        Store(batch, i, base, q, h);
      }
    }

    /**
     * One pass of the loop of `readBatch`: sample `i` of the batch goes into
     * slot `i % 8` of the ring and, after an odd sample, the power of the
     * ring is written to `batch[i / 2]`.
     */
    method Store(batch: array<Bits.Int>, i: nat, ghost base: nat, ghost q: nat, ghost h: seq<Bits.Short>)
      requires ring.Length == 8 && samples != ring && i < samples.Length && i / 2 < batch.Length
      requires base == 8 * q && |h| == base + samples.Length && h[base + i] == samples[i]
      requires forall k :: 0 <= k < 8 ==> ring[k] == RingAt(h, base + i)[k]
      modifies ring, batch
      ensures forall k :: 0 <= k < 8 ==> ring[k] == RingAt(h, base + i + 1)[k]
      ensures forall j :: 0 <= j < batch.Length && 2 * j + 1 == i ==> batch[j] == PowerAt(h, base + 2 * j + 1)
      ensures forall j :: 0 <= j < batch.Length && 2 * j + 1 != i ==> batch[j] == old(batch[j])
    {
      StoreStep(h, base, q, i);
      ring[i % 8] := samples[i];
      if i % 2 == 1 {
        Emit(batch, i, base + i, h);
      }
    }

    /** The odd half of the loop body: the power of the ring goes to `batch[i / 2]`. */
    method Emit(batch: array<Bits.Int>, i: nat, ghost m: nat, ghost h: seq<Bits.Short>)
      requires ring.Length == 8 && i / 2 < batch.Length && m < |h|
      requires forall k :: 0 <= k < 8 ==> ring[k] == RingAt(h, m + 1)[k]
      modifies batch
      ensures batch[i / 2] == PowerAt(h, m)
      ensures forall j :: 0 <= j < batch.Length && j != i / 2 ==> batch[j] == old(batch[j])
    {
      var odd := ring[1] as int - ring[3] as int + ring[5] as int - ring[7] as int;
      var even := ring[0] as int - ring[2] as int + ring[4] as int - ring[6] as int;
      OutputStep(h, m, ring[..], odd, even);
      batch[i / 2] := ToInt(Square(odd) + Square(even));
    }
  }

  /** The value computed from the ring right after sample `m` is `PowerAt(h, m)`. */
  lemma OutputStep(h: seq<Bits.Short>, m: nat, ring: seq<Bits.Short>, odd: int, even: int)
    requires m < |h| && |ring| == 8 && forall k :: 0 <= k < 8 ==> ring[k] == RingAt(h, m + 1)[k]
    requires odd == ring[1] as int - ring[3] as int + ring[5] as int - ring[7] as int
    requires even == ring[0] as int - ring[2] as int + ring[4] as int - ring[6] as int
    ensures ToInt(Square(odd) + Square(even)) == PowerAt(h, m)
  {
  }

  /** Storing sample `base + i` of `h` puts it in slot `i % 8` when `base` is a multiple of 8. */
  lemma StoreStep(h: seq<Bits.Short>, base: nat, q: nat, i: nat)
    requires base == 8 * q && base + i < |h|
    ensures RingAt(h, base + i + 1) == RingAt(h, base + i)[i % 8 := h[base + i]]
  {
    assert (base + i) % 8 == i % 8 by {
      assert base + i == 8 * q + i;
    }
  }
}
