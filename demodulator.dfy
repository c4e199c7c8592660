/**
 * `AdsbDemodulator`: slides a window of 1200 power values (120 µs at ten
 * values per microsecond) over the signal and reports a frame wherever the
 * window starts with a preamble whose first byte announces a downlink
 * format 17 frame and whose 14 bytes have a zero CRC.
 *
 * The decision at one position is a function `Detect` of the window's
 * content; `NextMessage` is proved to return the first position at or after
 * its starting one where `Detect` yields a frame (or an exception), and to
 * have found nothing in between.
 */
module AdsbDemodulators {
  import Bits
  import Streams
  import PowerWindows
  import RawMessages
  import opened Outcomes

  const WINDOW_SIZE: nat := 1200
  const MESSAGE_LENGTH: nat := 14
  /** The preamble takes the first 8 µs, 80 power values. */
  const PREAMBLE_OF_SAMPLES: nat := 80
  /** One power value lasts 100 ns. */
  const CONVERSION_TO_NS: nat := 100

  /** The content of the window: 1200 consecutive power values. */
  type Window = w: seq<Bits.Int> | |w| == WINDOW_SIZE witness seq(WINDOW_SIZE, i => 0)

  // ---------------------------------------------------------------------------
  // Bits and bytes
  // ---------------------------------------------------------------------------

  /**
   * `getBit(index)`: bit `index` of the frame is sent as a pulse in the
   * first or the second half of its microsecond; 0 when the first half is
   * weaker than the second.
   */
  function Bit(w: Window, index: nat): (b: nat)
    requires index < 8 * MESSAGE_LENGTH
    ensures b <= 1
  {
    if w[PREAMBLE_OF_SAMPLES + index * 10] < w[PREAMBLE_OF_SAMPLES + 5 + index * 10] then 0 else 1
  }

  /** The first `n` bits of byte `index`, most significant first. */
  function BitsValue(w: Window, index: nat, n: nat): nat
    requires index < MESSAGE_LENGTH && n <= 8
  {
    if n == 0 then 0 else 2 * BitsValue(w, index, n - 1) + Bit(w, 8 * index + n - 1)
  }

  lemma {:induction false} BitsValueBound(w: Window, index: nat, n: nat)
    requires index < MESSAGE_LENGTH && n <= 8
    ensures BitsValue(w, index, n) < Bits.Pow2(n)
    decreases n
  {
    if n > 0 {
      BitsValueBound(w, index, n - 1);
    }
  }

  /** `getByte(index)`: the eight bits of byte `index`, as a byte. */
  function ByteOf(w: Window, index: nat): Bits.UByte
    requires index < MESSAGE_LENGTH
  {
    BitsValueBound(w, index, 8);
    Bits.Pow2Value8();
    BitsValue(w, index, 8)
  }

  /** Bit `n - 1 - j` of the frame is bit `j` (from the least significant) of the prefix of `n` bits. */
  lemma {:induction false} BitsValueBit(w: Window, index: nat, n: nat, j: nat)
    requires index < MESSAGE_LENGTH && j < n <= 8
    ensures Bits.Bit(BitsValue(w, index, n), j) <==> Bit(w, 8 * index + n - 1 - j) == 1
    decreases n
  {
    var a := BitsValue(w, index, n - 1);
    var b := Bit(w, 8 * index + n - 1);
    assert BitsValue(w, index, n) == 2 * a + b;
    if j == 0 {
      assert (2 * a + b) % 2 == b;
    } else {
      assert (2 * a + b) / 2 == a;
      BitsValueBit(w, index, n - 1, j - 1);
    }
  }

  /** The bits are sent most significant first: bit `k` of byte `index` is bit `7 - k` of its value. */
  lemma ByteBits(w: Window, index: nat, k: nat)
    requires index < MESSAGE_LENGTH && k < 8
    ensures Bits.Bit(ByteOf(w, index), 7 - k) <==> Bit(w, 8 * index + k) == 1
  {
    BitsValueBit(w, index, 8, 7 - k);
  }

  /** The 14 bytes of the frame the window would hold. */
  function MessageBytes(w: Window): (s: seq<Bits.UByte>)
    ensures |s| == MESSAGE_LENGTH && forall i :: 0 <= i < MESSAGE_LENGTH ==> s[i] == ByteOf(w, i)
  {
    seq(MESSAGE_LENGTH, i requires 0 <= i < MESSAGE_LENGTH => ByteOf(w, i))
  }

  // ---------------------------------------------------------------------------
  // The preamble
  // ---------------------------------------------------------------------------

  /**
   * The sums of the detector, in `int` arithmetic: the four pulses of the
   * preamble (at 0, 1, 3.5 and 4.5 µs), the six valleys between them, and
   * the four values one step after the pulses.
   */
  function PeakSum(w: Window): Bits.Int
  {
    Bits.WrapInt(w[0] as int + w[10] + w[35] + w[45])
  }

  function ValleySum(w: Window): Bits.Int
  {
    Bits.WrapInt(w[5] as int + w[15] + w[20] + w[25] + w[30] + w[40])
  }

  function NextPeakSum(w: Window): Bits.Int
  {
    Bits.WrapInt(w[1] as int + w[11] + w[36] + w[46])
  }

  /**
   * The preamble test: the peaks are at least twice the valleys, stronger
   * than one step later, and stronger than at the previous position
   * (`oldPeaks`, which is 0 at the first position of a search).
   */
  predicate IsPreamble(w: Window, oldPeaks: Bits.Int)
  {
    PeakSum(w) >= Bits.WrapInt(2 * ValleySum(w) as int) && PeakSum(w) > NextPeakSum(w) && oldPeaks < PeakSum(w)
  }

  /** The time stamp of a frame found at `position`: `position * 100` nanoseconds, as a `long`. */
  function TimeStamp(position: nat): Bits.Long
  {
    Bits.WrapLong(position * CONVERSION_TO_NS)
  }

  /**
   * The decision at one position: `Null` unless the window starts with a
   * preamble and a first byte of the right length; otherwise what
   * `RawMessage.of` makes of the 14 bytes.
   */
  function Detect(w: Window, oldPeaks: Bits.Int, position: nat): Outcome<RawMessages.RawMessage>
  {
    if IsPreamble(w, oldPeaks) && RawMessages.Size(ByteOf(w, 0)) == RawMessages.LENGTH then
      RawMessages.Of(TimeStamp(position), MessageBytes(w))
    else Null
  }

  /** What `Detect` accepts, rejects and throws on, and the frame it makes. */
  lemma DetectRule(w: Window, oldPeaks: Bits.Int, position: nat)
    ensures var r := Detect(w, oldPeaks, position);
      (r.Made? <==> IsPreamble(w, oldPeaks) && 0x88 <= ByteOf(w, 0) <= 0x8F &&
                    RawMessages.CrcValue(MessageBytes(w)) == 0 && TimeStamp(position) >= 0) &&
      (r.Thrown? <==> IsPreamble(w, oldPeaks) && 0x88 <= ByteOf(w, 0) <= 0x8F &&
                      RawMessages.CrcValue(MessageBytes(w)) == 0 && TimeStamp(position) < 0) &&
      (r.Made? ==> r.value.timeStampNs == TimeStamp(position) && r.value.bytes.bytes == MessageBytes(w))
  {
    RawMessages.SizeRange(ByteOf(w, 0));
  }

  /** Below `2^63 / 100` the time stamp is exact, so `Detect` never throws there. */
  lemma TimeStampExact(position: nat)
    requires position * CONVERSION_TO_NS < 0x8000_0000_0000_0000
    ensures TimeStamp(position) == position * CONVERSION_TO_NS
  {
  }

  /** With power values of at most `2^27` (those of 12-bit samples) the sums do not wrap around. */
  lemma SumsExact(w: Window)
    requires forall i :: 0 <= i < WINDOW_SIZE ==> 0 <= w[i] <= 0x800_0000
    ensures PeakSum(w) == w[0] + w[10] + w[35] + w[45]
    ensures NextPeakSum(w) == w[1] + w[11] + w[36] + w[46]
    ensures Bits.WrapInt(2 * ValleySum(w) as int) == 2 * (w[5] + w[15] + w[20] + w[25] + w[30] + w[40])
  {
  }

  /** A window of constant power, silence included, never starts with a preamble. */
  lemma ConstantNoPreamble(w: Window, c: int, oldPeaks: Bits.Int)
    requires 0 <= c <= 0x800_0000 && forall i :: 0 <= i < WINDOW_SIZE ==> w[i] == c
    ensures !IsPreamble(w, oldPeaks) && Detect(w, oldPeaks, 0).Null?
  {
    SumsExact(w);
  }

  /** Four pulses over silence make a preamble, unless the previous position was as strong. */
  lemma PulsesPreamble()
    ensures var w: Window := seq(WINDOW_SIZE, i => if i == 0 || i == 10 || i == 35 || i == 45 then 10 else 0);
      IsPreamble(w, 0) && !IsPreamble(w, 40)
  {
    var w: Window := seq(WINDOW_SIZE, i => if i == 0 || i == 10 || i == 35 || i == 45 then 10 else 0);
    assert w[0] == 10 && w[10] == 10 && w[35] == 10 && w[45] == 10;
    assert w[5] == 0 && w[15] == 0 && w[20] == 0 && w[25] == 0 && w[30] == 0 && w[40] == 0;
    assert w[1] == 0 && w[11] == 0 && w[36] == 0 && w[46] == 0;
  }

  // ---------------------------------------------------------------------------
  // The search, position after position
  // ---------------------------------------------------------------------------

  /** Power value `p` output for the samples `h`, or 0 if `h` is too short to give it. */
  function ValueAt(h: seq<Bits.Short>, p: int): Bits.Int
  {
    if 0 <= p && 2 * p + 1 < |h| then PowerWindows.PowerValue(h, p) else 0
  }

  /** The window at `position` of the power values output for the samples `h`. */
  function WindowOf(h: seq<Bits.Short>, position: nat): Window
  {
    var w := seq<Bits.Int>(WINDOW_SIZE, i => ValueAt(h, position + i));
    assert |w| == WINDOW_SIZE;
    w
  }

  /** The value `oldSumOfPeaks` holds at `q` in a search that started at `p0`. */
  function OldPeaks(h: seq<Bits.Short>, p0: nat, q: nat): Bits.Int
    requires p0 <= q
  {
    if q == p0 then 0 else PeakSum(WindowOf(h, q - 1))
  }

  /** The decision at `q` in a search that started at `p0`. */
  function OutcomeAt(h: seq<Bits.Short>, p0: nat, q: nat): Outcome<RawMessages.RawMessage>
    requires p0 <= q
  {
    Detect(WindowOf(h, q), OldPeaks(h, p0, q), q)
  }

  /** Nothing was found from `p0` up to, and not including, `p`. */
  ghost predicate Quiet(h: seq<Bits.Short>, p0: nat, p: nat)
  {
    forall q :: p0 <= q < p ==> OutcomeAt(h, p0, q).Null?
  }

  /** Storing more samples leaves the power values already output as they were. */
  lemma ValueAtPrefix(h: seq<Bits.Short>, h': seq<Bits.Short>, p: nat)
    requires h <= h' && 2 * p + 1 < |h|
    ensures ValueAt(h', p) == ValueAt(h, p)
  {
    PowerWindows.PowerValuePrefix(h, h', p);
  }

  /** Storing more samples leaves the windows already complete as they were. */
  lemma WindowOfPrefix(h: seq<Bits.Short>, h': seq<Bits.Short>, q: nat)
    requires h <= h' && 2 * (q + WINDOW_SIZE - 1) + 1 < |h|
    ensures WindowOf(h', q) == WindowOf(h, q)
  {
    var w, w' := WindowOf(h, q), WindowOf(h', q);
    forall i | 0 <= i < WINDOW_SIZE
      ensures w'[i] == w[i]
    {
      assert w[i] == ValueAt(h, q + i) && w'[i] == ValueAt(h', q + i);
      ValueAtPrefix(h, h', q + i);
    }
    assert w' == w;
  }

  /** Storing more samples changes no decision already taken. */
  lemma OutcomeAtPrefix(h: seq<Bits.Short>, h': seq<Bits.Short>, p0: nat, q: nat)
    requires h <= h' && p0 <= q && 2 * (q + WINDOW_SIZE - 1) + 1 < |h|
    ensures OldPeaks(h', p0, q) == OldPeaks(h, p0, q)
    ensures OutcomeAt(h', p0, q) == OutcomeAt(h, p0, q)
  {
    WindowOfPrefix(h, h', q);
    if p0 < q {
      WindowOfPrefix(h, h', q - 1);
    }
  }

  /** Storing more samples keeps a stretch quiet. */
  lemma QuietPrefix(h: seq<Bits.Short>, h': seq<Bits.Short>, p0: nat, p: nat)
    requires h <= h' && 2 * (p + WINDOW_SIZE - 1) + 1 < |h|
    requires Quiet(h, p0, p)
    ensures Quiet(h', p0, p)
  {
    forall q | p0 <= q < p
      ensures OutcomeAt(h', p0, q).Null?
    {
      OutcomeAtPrefix(h, h', p0, q);
    }
  }

  /** A position where nothing is found extends the quiet stretch by one. */
  lemma QuietStep(h: seq<Bits.Short>, h': seq<Bits.Short>, p0: nat, p: nat)
    requires h <= h' && p0 <= p && 2 * (p + WINDOW_SIZE - 1) + 1 < |h|
    requires Quiet(h, p0, p) && OutcomeAt(h, p0, p).Null?
    ensures Quiet(h', p0, p + 1)
    ensures OldPeaks(h', p0, p + 1) == PeakSum(WindowOf(h, p))
  {
    QuietPrefix(h, h', p0, p);
    OutcomeAtPrefix(h, h', p0, p);
    WindowOfPrefix(h, h', p);
  }

  /** A position where nothing is found extends a quiet stretch by one. */
  lemma QuietExtend(h: seq<Bits.Short>, p0: nat, p: nat)
    requires p0 <= p && Quiet(h, p0, p) && OutcomeAt(h, p0, p).Null?
    ensures Quiet(h, p0, p + 1)
  {
  }

  /** Two sample sequences that agree on the samples the window at `q` depends on give the same decision there. */
  lemma OutcomeAtAgree(h: seq<Bits.Short>, h': seq<Bits.Short>, p0: nat, q: nat)
    requires p0 <= q && 2 * (q + WINDOW_SIZE) <= |h| && 2 * (q + WINDOW_SIZE) <= |h'|
    requires h[..2 * (q + WINDOW_SIZE)] == h'[..2 * (q + WINDOW_SIZE)]
    ensures OutcomeAt(h, p0, q) == OutcomeAt(h', p0, q)
  {
    var c := h[..2 * (q + WINDOW_SIZE)];
    OutcomeAtPrefix(c, h, p0, q);
    OutcomeAtPrefix(c, h', p0, q);
  }

  class AdsbDemodulator {
    const window: PowerWindows.PowerWindow

    ghost predicate Valid()
      reads this, window, window.computer, window.computer.decoder, window.computer.decoder.stream,
        window.computer.ring, window.even, window.odd
    {
      window.Valid() && window.windowSize == WINDOW_SIZE
    }

    /** The current content of the window. */
    ghost function Snapshot(): Window
      reads this, window, window.computer
    {
      WindowOf(window.computer.history, window.position)
    }

    /** The samples decoded from the stream's bytes, from where the stream stood when the demodulator was made. */
    ghost function Input(): seq<Bits.Short>
      requires window.computer.start <= |window.computer.decoder.stream.content|
    {
      window.computer.InputSamples()
    }

    /** While the window is full, the decision at its position is the one taken on the stream's samples. */
    lemma OutcomeFromStream(p0: nat)
      requires Valid() && window.IsFull() && p0 <= window.position
      ensures OutcomeAt(window.computer.history, p0, window.position) == OutcomeAt(Input(), p0, window.position)
    {
      window.computer.Agree(2 * (window.position + WINDOW_SIZE));
      OutcomeAtAgree(window.computer.history, Input(), p0, window.position);
    }

    /** The constructor opens a window of 1200 values on the stream. */
    constructor (samplesStream: Streams.ByteStream)
      requires samplesStream.Valid()
      modifies samplesStream
      ensures Valid() && window.position == 0 && window.computer.decoder.stream == samplesStream
    {
      window := new PowerWindows.PowerWindow(samplesStream, WINDOW_SIZE);
    }

    /** Every value of a complete window is stored, and every index of it can be read. */
    lemma Loaded()
      requires Valid()
      ensures 2 * (window.position + WINDOW_SIZE - 1) + 1 < |window.computer.history|
      ensures forall i :: 0 <= i < WINDOW_SIZE ==> window.InRange(i)
    {
      window.InRangeWide(WINDOW_SIZE - 1);
      var last := window.Get(WINDOW_SIZE - 1);
      forall i | 0 <= i < WINDOW_SIZE
        ensures window.InRange(i)
      {
        window.InRangeWide(i);
      }
    }

    /** `get(i)` is value `i` of the snapshot. */
    lemma GetSnapshot(i: nat)
      requires Valid() && i < WINDOW_SIZE
      ensures window.InRange(i) && window.Get(i) == Snapshot()[i]
    {
      window.InRangeWide(i);
    }

    method GetBit(index: nat) returns (b: nat)
      requires Valid() && index < 8 * MESSAGE_LENGTH
      ensures b == Bit(Snapshot(), index)
    {
      ghost var w := Snapshot();
      var i0 := PREAMBLE_OF_SAMPLES + index * 10;
      var i1 := PREAMBLE_OF_SAMPLES + 5 + index * 10;
      GetSnapshot(i0);
      GetSnapshot(i1);
      var first := window.Get(i0);
      var second := window.Get(i1);
      assert first == w[i0] && second == w[i1];
      b := if first < second then 0 else 1;
    }

    /**
     * `getByte(index)`: shifts the eight bits in, most significant first;
     * `| 1` on the shifted, even value adds one.
     */
    method GetByte(index: nat) returns (b: Bits.UByte)
      requires Valid() && index < MESSAGE_LENGTH
      ensures b == ByteOf(Snapshot(), index)
    {
      ghost var w := Snapshot();
      var byteOfMessage: nat := 0;
      for j := 0 to 8
        invariant byteOfMessage == BitsValue(w, index, j)
      {
        byteOfMessage := byteOfMessage * 2;
        var bit := GetBit(j + index * 8);
        if bit == 1 {
          byteOfMessage := byteOfMessage + 1;
        }
      }
      BitsValueBound(w, index, 8);
      Bits.Pow2Value8();
      b := byteOfMessage;
    }

    /** The values at `i`, `j`, `k` and `l` of the window. */
    method Get4(i: nat, j: nat, k: nat, l: nat) returns (a: Bits.Int, b: Bits.Int, c: Bits.Int, d: Bits.Int)
      requires Valid() && i < WINDOW_SIZE && j < WINDOW_SIZE && k < WINDOW_SIZE && l < WINDOW_SIZE
      ensures a == Snapshot()[i] && b == Snapshot()[j] && c == Snapshot()[k] && d == Snapshot()[l]
    {
      GetSnapshot(i);
      GetSnapshot(j);
      GetSnapshot(k);
      GetSnapshot(l);
      a, b, c, d := window.Get(i), window.Get(j), window.Get(k), window.Get(l);
    }

    method GetSumOfPeaks() returns (s: Bits.Int)
      requires Valid()
      ensures s == PeakSum(Snapshot())
    {
      var a, b, c, d := Get4(0, 10, 35, 45);
      s := Bits.WrapInt(a as int + b + c + d);
    }

    method GetSumOfTheValleys() returns (s: Bits.Int)
      requires Valid()
      ensures s == ValleySum(Snapshot())
    {
      var a, b, c, d := Get4(5, 15, 20, 25);
      var e, f, _, _ := Get4(30, 40, 0, 0);
      s := Bits.WrapInt(a as int + b + c + d + e + f);
    }

    method GetNextSumOfPeaks() returns (s: Bits.Int)
      requires Valid()
      ensures s == NextPeakSum(Snapshot())
    {
      var a, b, c, d := Get4(1, 11, 36, 46);
      s := Bits.WrapInt(a as int + b + c + d);
    }

    /** The 14 bytes of the frame, the first one already read. */
    method GetBytes(first: Bits.UByte) returns (bytes: array<Bits.UByte>)
      requires Valid() && first == ByteOf(Snapshot(), 0)
      ensures fresh(bytes) && bytes[..] == MessageBytes(Snapshot())
    {
      ghost var w := Snapshot();
      bytes := new Bits.UByte[MESSAGE_LENGTH](_ => 0);
      bytes[0] := first;
      for i := 1 to MESSAGE_LENGTH
        modifies bytes
        invariant forall k :: 0 <= k < i ==> bytes[k] == ByteOf(w, k)
      {
        bytes[i] := GetByte(i);
      }
      assert bytes[..] == MessageBytes(w);
    }

    /**
     * The decision at the current position, with the sums and bytes read
     * from the window as the loop of `nextMessage` reads them.
     */
    method Examine(oldSumOfPeaks: Bits.Int) returns (r: Outcome<RawMessages.RawMessage>)
      requires Valid()
      ensures r == Detect(Snapshot(), oldSumOfPeaks, window.position)
    {
      var sumOfPeaks := GetSumOfPeaks();
      var valleys := GetSumOfTheValleys();
      var nextPeaks := GetNextSumOfPeaks();
      r := Null;
      if sumOfPeaks >= Bits.WrapInt(2 * valleys as int) && sumOfPeaks > nextPeaks && oldSumOfPeaks < sumOfPeaks {
        var first := GetByte(0);
        if RawMessages.Size(first) == RawMessages.LENGTH {
          var bytes := GetBytes(first);
          r := RawMessages.Of(TimeStamp(window.Position()), bytes[..]);
        }
      }
    }

    /** After a frame: the window moves 1200 values on. */
    method Skip(ghost p0: nat, found: Outcome<RawMessages.RawMessage>)
      requires Valid() && p0 <= window.position && Quiet(window.computer.history, p0, window.position)
      requires found == OutcomeAt(window.computer.history, p0, window.position)
      modifies window, window.computer.Repr, window.even, window.odd
      ensures Valid() && old(window.computer.history) <= window.computer.history
      ensures {window.even, window.odd} == {old(window.even), old(window.odd)}
      ensures window.position == old(window.position) + WINDOW_SIZE
      ensures Quiet(window.computer.history, p0, old(window.position))
      ensures found == OutcomeAt(window.computer.history, p0, old(window.position))
    {
      Loaded();
      ghost var h := window.computer.history;
      ghost var p := window.position;
      window.AdvanceBy(WINDOW_SIZE);
      QuietPrefix(h, window.computer.history, p0, p);
      OutcomeAtPrefix(h, window.computer.history, p0, p);
    }

    /** After a position where nothing was found: the peaks are kept and the window moves one value on. */
    method Pass(ghost p0: nat, ghost input: seq<Bits.Short>) returns (oldSumOfPeaks: Bits.Int)
      requires Valid() && p0 <= window.position && Quiet(window.computer.history, p0, window.position)
      requires OutcomeAt(window.computer.history, p0, window.position).Null?
      requires Quiet(input, p0, window.position) && OutcomeAt(input, p0, window.position).Null?
      modifies window, window.computer.Repr, window.odd
      ensures Valid() && old(window.computer.history) <= window.computer.history
      ensures {window.even, window.odd} == {old(window.even), old(window.odd)}
      ensures window.position == old(window.position) + 1
      ensures Quiet(window.computer.history, p0, window.position)
      ensures oldSumOfPeaks == OldPeaks(window.computer.history, p0, window.position)
      ensures Quiet(input, p0, window.position)
    {
      QuietExtend(input, p0, window.position);
      Loaded();
      ghost var h := window.computer.history;
      ghost var p := window.position;
      oldSumOfPeaks := GetSumOfPeaks();
      window.Advance();
      assert window.position == p + 1;
      QuietStep(h, window.computer.history, p0, p);
    }

    /** The decision at the current position of a search that started at `p0`. */
    method Decide(ghost p0: nat, oldSumOfPeaks: Bits.Int) returns (found: Outcome<RawMessages.RawMessage>)
      requires Valid() && window.IsFull() && p0 <= window.position
      requires oldSumOfPeaks == OldPeaks(window.computer.history, p0, window.position)
      ensures found == OutcomeAt(window.computer.history, p0, window.position)
      ensures found == OutcomeAt(Input(), p0, window.position)
    {
      OutcomeFromStream(p0);
      found := Examine(oldSumOfPeaks);
    }

    /**
     * One pass of the loop of `nextMessage` at a full window: the decision at
     * the current position; after a frame the window moves 1200 values on,
     * after nothing one value on, and an exception leaves it where it was.
     */
    method Step(ghost p0: nat, ghost input: seq<Bits.Short>, oldSumOfPeaks: Bits.Int) returns (found: Outcome<RawMessages.RawMessage>, next: Bits.Int)
      requires Valid() && window.IsFull() && p0 <= window.position
      requires oldSumOfPeaks == OldPeaks(window.computer.history, p0, window.position)
      requires input == Input()
      requires Quiet(window.computer.history, p0, window.position) && Quiet(input, p0, window.position)
      modifies window, window.computer.Repr, window.even, window.odd
      ensures Valid() && old(window.computer.history) <= window.computer.history
      ensures {window.even, window.odd} == {old(window.even), old(window.odd)}
      ensures found == OutcomeAt(input, p0, old(window.position))
      ensures found.Made? ==>
        window.position == old(window.position) + WINDOW_SIZE &&
        Quiet(window.computer.history, p0, old(window.position)) &&
        found == OutcomeAt(window.computer.history, p0, old(window.position))
      ensures found.Thrown? ==>
        window.position == old(window.position) && window.computer.history == old(window.computer.history) &&
        found == OutcomeAt(window.computer.history, p0, window.position)
      ensures found.Null? ==>
        window.position == old(window.position) + 1 &&
        next == OldPeaks(window.computer.history, p0, window.position) &&
        Quiet(window.computer.history, p0, window.position) && Quiet(input, p0, window.position)
    {
      found := Decide(p0, oldSumOfPeaks);
      next := oldSumOfPeaks;
      if found.Made? {
        Skip(p0, found);
      } else if found.Null? {
        next := Pass(p0, input);
      }
    }

    /**
     * `nextMessage`: the first frame found from the current position on,
     * at `foundAt`, after which the window moves 1200 values past it;
     * `Null` once the window is no longer full. An exception thrown by the
     * record's constructor leaves the window where it was.
     */
    method NextMessage() returns (r: Outcome<RawMessages.RawMessage>, ghost foundAt: nat)
      requires Valid()
      modifies window, window.computer.Repr, window.even, window.odd
      ensures Valid() && old(window.computer.history) <= window.computer.history
      ensures old(window.position) <= window.position
      ensures r.Null? ==>
        !window.IsFull() && Quiet(window.computer.history, old(window.position), window.position)
      ensures r.Made? ==>
        old(window.position) <= foundAt && window.position == foundAt + WINDOW_SIZE &&
        Quiet(window.computer.history, old(window.position), foundAt) &&
        r == OutcomeAt(window.computer.history, old(window.position), foundAt)
      ensures r.Thrown? ==>
        Quiet(window.computer.history, old(window.position), window.position) &&
        OutcomeAt(window.computer.history, old(window.position), window.position).Thrown?
      ensures r.Null? ==> Quiet(Input(), old(window.position), window.position)
      ensures r.Made? ==>
        Quiet(Input(), old(window.position), foundAt) && r == OutcomeAt(Input(), old(window.position), foundAt)
      ensures r.Thrown? ==>
        Quiet(Input(), old(window.position), window.position) &&
        OutcomeAt(Input(), old(window.position), window.position).Thrown?
    {
      ghost var p0 := window.position;
      var oldSumOfPeaks: Bits.Int := 0;
      while window.IsFull()
        invariant Valid() && old(window.computer.history) <= window.computer.history
        invariant {window.even, window.odd} == {old(window.even), old(window.odd)}
        invariant p0 <= window.position
        invariant oldSumOfPeaks == OldPeaks(window.computer.history, p0, window.position)
        invariant Quiet(window.computer.history, p0, window.position)
        invariant Quiet(Input(), p0, window.position)
        decreases |window.computer.decoder.stream.content| - window.position
      {
        ghost var p := window.position;
        var found;
        found, oldSumOfPeaks := Step(p0, Input(), oldSumOfPeaks);
        if found.Made? {
          return found, p;
        } else if found.Thrown? {
          return found, p;
        }
      }
      r, foundAt := Null, window.position;
    }
  }
}
