/**
 * `PowerWindow`: a window of `windowSize` consecutive power values sliding
 * over the output of a `PowerComputer`. Two batches of `2^16` values are
 * kept, `even` (the batch the window starts in) and `odd` (the next one);
 * the next batch is read into `odd` as soon as the last value of the window
 * enters it, and the two arrays are swapped once the window's start leaves
 * `even`.
 *
 * For `windowSize >= 2` the window at `position` shows power values
 * `position .. position + windowSize - 1` of the stream. For
 * `windowSize == 1` both tests of `advance` look at the same index, the
 * swap never happens, the window's index into the arrays keeps growing and
 * `get(0)` leaves the arrays once `position` reaches `2^17`.
 */
module PowerWindows {
  import Bits
  import Streams
  import PowerComputers

  const BATCH_SIZE: nat := 0x1_0000

  /** Power value number `p` output by a computer that stored the samples `h`. */
  function PowerValue(h: seq<Bits.Short>, p: nat): Bits.Int
    requires 2 * p + 1 < |h|
  {
    PowerComputers.PowerAt(h, 2 * p + 1)
  }

  /** Storing more samples does not change the power values already output. */
  lemma PowerValuePrefix(h0: seq<Bits.Short>, h: seq<Bits.Short>, p: nat)
    requires 2 * p + 1 < |h0| && h0 <= h
    ensures PowerValue(h0, p) == PowerValue(h, p)
  {
    PowerComputers.RingAtPrefix(h0, h, 2 * p + 2);
  }

  lemma PowerValuesPrefix(h0: seq<Bits.Short>, h: seq<Bits.Short>)
    requires h0 <= h
    ensures forall p: nat :: 2 * p + 1 < |h0| ==> PowerValue(h0, p) == PowerValue(h, p)
  {
    forall p: nat | 2 * p + 1 < |h0|
      ensures PowerValue(h0, p) == PowerValue(h, p)
    {
      PowerValuePrefix(h0, h, p);
    }
  }

  /** Two sample sequences that agree up to sample `2p + 1` give the same power value `p`. */
  lemma PowerValueAgree(h: seq<Bits.Short>, h': seq<Bits.Short>, p: nat)
    requires 2 * p + 2 <= |h| && 2 * p + 2 <= |h'| && h[..2 * p + 2] == h'[..2 * p + 2]
    ensures PowerValue(h, p) == PowerValue(h', p)
  {
    var c := h[..2 * p + 2];
    PowerValuePrefix(c, h, p);
    PowerValuePrefix(c, h', p);
  }

  class PowerWindow {
    const windowSize: nat
    /** The index of the window's first value in `even`. */
    var windowPosition: nat
    /** `samplesNumber`: the number of values read minus the number of advances. */
    var samplesNumber: int
    var position: nat
    var even: array<Bits.Int>
    var odd: array<Bits.Int>
    const computer: PowerComputers.PowerComputer

    /** The number of batches read from `computer`. */
    ghost var batches: nat
    /** The number of swaps, `position / 2^16` when `windowSize >= 2`. */
    ghost var cycle: nat

    /** `a` holds batch number `k` of the power values. */
    ghost predicate Holds(a: array<Bits.Int>, k: nat)
      reads computer, a
    {
      a.Length == BATCH_SIZE && 2 * (BATCH_SIZE * k + BATCH_SIZE) <= |computer.history| &&
      forall t :: 0 <= t < BATCH_SIZE ==> a[t] == PowerValue(computer.history, BATCH_SIZE * k + t)
    }

    ghost predicate Valid()
      reads this, computer, computer.decoder, computer.decoder.stream, computer.ring, even, odd
    {
      Inv(windowPosition, position, samplesNumber, even, odd, batches, cycle)
    }

    /**
     * The invariant, for the given values of the fields; it reads only the
     * computer and the two arrays, so assigning a field leaves it as it was.
     */
    ghost predicate Inv(wp: int, pos: int, sn: int, even: array<Bits.Int>, odd: array<Bits.Int>, batches: nat, cycle: nat)
      reads computer, computer.decoder, computer.decoder.stream, computer.ring, even, odd
    {
      computer.Valid() && computer.batchSize == BATCH_SIZE &&
      even.Length == BATCH_SIZE && odd.Length == BATCH_SIZE && even != odd &&
      even !in computer.Repr && odd !in computer.Repr &&
      0 < windowSize <= BATCH_SIZE &&
      |computer.history| == 2 * BATCH_SIZE * batches &&
      sn == computer.available - pos &&
      (windowSize == 1 ==> wp == pos) &&
      (windowSize >= 2 ==>
        0 <= wp < BATCH_SIZE && pos == BATCH_SIZE * cycle + wp &&
        batches == (if wp + windowSize - 1 < BATCH_SIZE then cycle + 1 else cycle + 2) &&
        Holds(even, cycle) &&
        (wp + windowSize - 1 >= BATCH_SIZE ==> Holds(odd, cycle + 1)))
    }

    /** The constructor; its check on `windowSize` becomes the requires clause. */
    constructor (stream: Streams.ByteStream, windowSize: nat)
      requires stream.Valid() && 0 < windowSize <= BATCH_SIZE
      modifies stream
      ensures Valid() && this.windowSize == windowSize && position == 0
      ensures computer.decoder.stream == stream
      ensures samplesNumber == computer.available
    {
      this.windowSize := windowSize;
      windowPosition := 0;
      position := 0;
      var c := new PowerComputers.PowerComputer(stream, BATCH_SIZE);
      var e := new Bits.Int[BATCH_SIZE](_ => 0);
      var o := new Bits.Int[BATCH_SIZE](_ => 0);
      computer := c;
      even := e;
      odd := o;
      new;
      var n := computer.ReadBatch(even);
      samplesNumber := n;
      batches := 1;
      cycle := 0;
    }

    /** `size`. */
    function Size(): nat
      reads this
    {
      windowSize
    }

    /** `position`. */
    function Position(): nat
      reads this
    {
      position
    }

    /** `isFull`: at least `windowSize` of the values read are at or after `position`. */
    predicate IsFull()
      reads this, computer, computer.decoder, computer.decoder.stream, computer.ring, even, odd
      requires Valid()
      ensures IsFull() <==> computer.available - position >= windowSize
    {
      samplesNumber >= windowSize
    }

    /** The index `get(i)` reads lies inside one of the two arrays. */
    predicate InRange(i: int)
      reads this
    {
      0 <= i && windowPosition + i < 2 * BATCH_SIZE
    }

    /**
     * `get`: value `i` of the window. The requires clause holds the index
     * check of the source and the array bounds, which `InRangeWide` proves
     * for every `windowSize >= 2`.
     */
    function Get(i: int): (r: Bits.Int)
      reads this, computer, computer.decoder, computer.decoder.stream, computer.ring, even, odd
      requires Valid() && 0 <= i < windowSize && InRange(i)
      ensures windowSize >= 2 ==>
        2 * (position + i) + 1 < |computer.history| && r == PowerValue(computer.history, position + i)
    {
      if i + windowPosition < even.Length then even[windowPosition + i]
      else odd[windowPosition + i - even.Length]
    }

    /**
     * While the window is full, value `i` of the window is power value
     * `position + i` of the samples that the stream's bytes decode to.
     */
    lemma GetFromStream(i: int)
      requires Valid() && windowSize >= 2 && 0 <= i < windowSize && IsFull()
      ensures InRange(i) && 2 * (position + i) + 1 < |computer.InputSamples()|
      ensures Get(i) == PowerValue(computer.InputSamples(), position + i)
    {
      InRangeWide(i);
      var p := position + i;
      computer.Agree(2 * p + 2);
      PowerValueAgree(computer.history, computer.InputSamples(), p);
    }

    /** For `windowSize >= 2` every index of the window can be read. */
    lemma InRangeWide(i: int)
      requires Valid() && windowSize >= 2 && 0 <= i < windowSize
      ensures InRange(i)
    {
    }

    /** For `windowSize == 1`, `get(0)` stays inside the arrays only up to position `2^17`. */
    lemma InRangeNarrow()
      requires Valid() && windowSize == 1
      ensures InRange(0) <==> position < 2 * BATCH_SIZE
    {
    }

    /**
     * `advance`: moves the window one value on; then either reads the next
     * batch into `odd` (when the last value of the window is the first one
     * of the next batch) or, when `position` reaches a multiple of `2^16`,
     * swaps the arrays.
     */
    method Advance()
      requires Valid()
      modifies this, computer.Repr, odd
      ensures Valid() && position == old(position) + 1
      ensures old(computer.history) <= computer.history
      ensures if (old(windowPosition) + windowSize) % BATCH_SIZE == 0 then
          windowPosition == old(windowPosition) + 1 && even == old(even) && odd == old(odd) &&
          computer.history == old(computer.history) + computer.samples[..] &&
          samplesNumber == old(samplesNumber) - 1 + (computer.available - old(computer.available))
        else
          computer.history == old(computer.history) && computer.available == old(computer.available) &&
          samplesNumber == old(samplesNumber) - 1 &&
          if position % BATCH_SIZE == 0 then
            windowPosition == 0 && even == old(odd) && odd == old(even)
          else
            windowPosition == old(windowPosition) + 1 && even == old(even) && odd == old(odd)
    {
      windowPosition := windowPosition + 1;
      position := position + 1;
      samplesNumber := samplesNumber - 1;
      if (windowPosition + windowSize - 1) % BATCH_SIZE == 0 {
        ReadNext();
      } else if position % BATCH_SIZE == 0 {
        Swap();
      } else {
        Moved();
      }
    }

    /** `advanceBy`: `offset` calls of `advance`; its check on `offset` becomes the requires clause. */
    method AdvanceBy(offset: int)
      requires Valid() && offset > 0
      modifies this, computer.Repr, even, odd
      ensures Valid() && position == old(position) + offset
      ensures old(computer.history) <= computer.history
      ensures {even, odd} == {old(even), old(odd)}
    {
      for i := 0 to offset
        invariant Valid() && position == old(position) + i
        invariant old(computer.history) <= computer.history
        invariant {even, odd} == {old(even), old(odd)}
      {
        Advance();
      }
    }

    /** The first branch of `advance`: the next batch is read into `odd`. */
    method ReadNext()
      requires windowPosition > 0 && position > 0
      requires Inv(windowPosition - 1, position - 1, samplesNumber + 1, even, odd, batches, cycle)
      requires (windowPosition + windowSize - 1) % BATCH_SIZE == 0
      modifies this, computer.Repr, odd
      ensures Valid()
      ensures windowPosition == old(windowPosition) && position == old(position)
      ensures even == old(even) && odd == old(odd)
      ensures computer.history == old(computer.history) + computer.samples[..]
      ensures samplesNumber == old(samplesNumber) + (computer.available - old(computer.available))
    {
      if windowSize >= 2 {
        ModWindow(windowPosition + windowSize - 1);
      }
      ghost var h0 := computer.history;
      var n := ReadOdd();
      samplesNumber := samplesNumber + n;
      batches := batches + 1;
      PowerValuesPrefix(h0, computer.history);
      if windowSize >= 2 {
        ghost var h := computer.history;
        forall t | 0 <= t < BATCH_SIZE
          ensures odd[t] == PowerValue(h, BATCH_SIZE * (cycle + 1) + t)
        {
          assert |h0| / 2 + t == BATCH_SIZE * (cycle + 1) + t;
        }
        assert Holds(odd, cycle + 1);
        forall t | 0 <= t < BATCH_SIZE
          ensures even[t] == PowerValue(h, BATCH_SIZE * cycle + t)
        {
          assert even[t] == old(even[t]) == PowerValue(h0, BATCH_SIZE * cycle + t);
        }
      }
    }

    /** `computer.readBatch(odd)`: the next batch of power values goes into `odd`. */
    method ReadOdd() returns (n: int)
      requires computer.Valid() && computer.batchSize == BATCH_SIZE && odd.Length == BATCH_SIZE && odd !in computer.Repr
      modifies computer.Repr, odd
      ensures computer.Valid()
      ensures computer.history == old(computer.history) + computer.samples[..]
      ensures |computer.history| == |old(computer.history)| + 2 * BATCH_SIZE
      ensures computer.available == old(computer.available) + n
      ensures forall t :: 0 <= t < BATCH_SIZE ==>
        2 * (|old(computer.history)| / 2 + t) + 1 < |computer.history| &&
        odd[t] == PowerValue(computer.history, |old(computer.history)| / 2 + t)
    {
      ghost var h0 := computer.history;
      n := computer.ReadBatch(odd);
      assert |h0| % 2 == 0;
      forall t | 0 <= t < BATCH_SIZE
        ensures odd[t] == PowerValue(computer.history, |h0| / 2 + t)
      {
        assert |h0| + 2 * t + 1 == 2 * (|h0| / 2 + t) + 1;
      }
    }

    /** The second branch of `advance`: the arrays are swapped. */
    method Swap()
      requires windowPosition > 0 && position > 0
      requires Inv(windowPosition - 1, position - 1, samplesNumber + 1, even, odd, batches, cycle)
      requires (windowPosition + windowSize - 1) % BATCH_SIZE != 0 && position % BATCH_SIZE == 0
      modifies this
      ensures Valid()
      ensures windowPosition == 0 && position == old(position) && samplesNumber == old(samplesNumber)
      ensures even == old(odd) && odd == old(even)
    {
      ModPosition(position, cycle, windowPosition);
      even, odd := odd, even;
      windowPosition := 0;
      cycle := cycle + 1;
    }

    /** Neither branch of `advance` is taken: the invariant holds as it is. */
    lemma Moved()
      requires windowPosition > 0 && position > 0
      requires Inv(windowPosition - 1, position - 1, samplesNumber + 1, even, odd, batches, cycle)
      requires (windowPosition + windowSize - 1) % BATCH_SIZE != 0 && position % BATCH_SIZE != 0
      ensures Valid()
    {
      if windowSize >= 2 {
        ModWindow(windowPosition + windowSize - 1);
        ModPosition(position, cycle, windowPosition);
      }
    }
  }

  lemma ModWindow(x: int)
    requires 0 < x < 2 * BATCH_SIZE
    ensures x % BATCH_SIZE == 0 <==> x == BATCH_SIZE
  {
  }

  lemma ModPosition(pos: int, cycle: nat, wp: int)
    requires pos == BATCH_SIZE * cycle + wp && 1 <= wp <= BATCH_SIZE
    ensures pos % BATCH_SIZE == 0 <==> wp == BATCH_SIZE
  {
    assert pos == BATCH_SIZE * (cycle + 1) + (wp - BATCH_SIZE);
  }
}
