/** The coder objects themselves, with the fields the source updates in place, proved against the
    state functions of `ArithmeticCoder`. */
module CoderObjects {
  import opened ArithmeticCoder

  class ArithmeticEncoder {
    var low: int
    var high: int
    var pending: nat
    var bits: seq<Bit>

    ghost function State(): Coder
      reads this
    {
      Coder(Interval(low, high), pending, bits)
    }

    constructor ()
      ensures State() == FRESH_CODER
    {
      low, high, pending, bits := 0, FULL - 1, 0, [];
    }

    method EmitBit(bit: Bit)
      modifies this
      ensures State() == Emit(old(State()), bit)
    {
      bits := bits + [bit];
      ghost var start := bits;
      for i := 0 to pending
        invariant State() == old(State()).(bits := start + Repeat(1 - bit, i))
      {
        bits := bits + [1 - bit];
        assert start + Repeat(1 - bit, i) + [1 - bit] == start + Repeat(1 - bit, i + 1);
      }
      pending := 0;
    }

    /** One pass of the loop, or none. The `%` are the source's 32-bit masks; on an interval the
        postcondition, stated without them, says they never drop a bit. */
    method ZoomOnce() returns (more: bool)
      requires Ordered(State().iv) || Collapsed(State().iv)
      modifies this
      ensures more == CanZoom(old(State()).iv)
      ensures Ordered(old(State()).iv) ==> State() == if more then ZoomCoder(old(State())) else old(State())
      ensures Collapsed(old(State()).iv) ==> more && State() == PointTurn(old(State()))
    {
      if high < HALF {
        EmitBit(0);
      } else if low >= HALF {
        EmitBit(1);
        low, high := low - HALF, high - HALF;
      } else if low >= QUARTER && high < THREE_QUARTER {
        pending := pending + 1;
        low, high := low - QUARTER, high - QUARTER;
      } else {
        return false;
      }
      low := (2 * low) % FULL;
      high := (2 * high + 1) % FULL;
      more := true;
    }

    ghost predicate CanSettle(c: Coder, k: nat) {
      Ordered(c.iv) || (Collapsed(c.iv) && k <= 31 && OnGrid(c.iv.low, k))
    }

    /** The end of the loop, from an interval or from a point. */
    ghost function Settle(c: Coder, k: nat): Coder
      requires CanSettle(c, k)
    {
      if Ordered(c.iv) then Renormalise(c) else Collapse(c, k)
    }

    method Renormalize()
      requires CanSettle(State(), 0)
      modifies this
      ensures State() == Settle(old(State()), 0) && Settled(State().iv)
    {
      hide OnGrid, Emit, Zoom;
      var more := true;
      ghost var k := 0;
      while more
        invariant CanSettle(State(), k)
        invariant Settle(State(), k) == Settle(old(State()), 0)
        invariant !more ==> Settled(State().iv)
        decreases if Ordered(State().iv) then 0 else 32 - k, FULL - (high - low + 1), more
      {
        if Collapsed(State().iv) {
          GridStep(low, k);
          k := k + 1;
        }
        more := ZoomOnce();
      }
    }

    method EncodeSymbol(lowCount: int, highCount: int, total: int)
      requires Settled(State().iv) && Countable(Slice(lowCount, highCount, total))
      modifies this
      ensures State() == Encode(old(State()), Slice(lowCount, highCount, total))
      ensures Settled(State().iv) && QUARTER < high - low + 1
    {
      ghost var before, s := State(), Slice(lowCount, highCount, total);
      var rng := high - low + 1;
      high := low + (rng * highCount) / total - 1;
      low := low + (rng * lowCount) / total;
      assert State() == before.(iv := Narrow(before.iv, s));
      hide Narrow, OnGrid, Renormalise, Collapse;
      if lowCount < highCount {
        NarrowStaysInside(before.iv, s);
      } else {
        PointInside(before.iv, s);
      }
      Renormalize();
      SettledIsWide(State().iv);
    }

    method FinishBits() returns (r: seq<Bit>)
      modifies this
      ensures r == bits == Finish(old(State()))
    {
      pending := pending + 1;
      EmitBit(if low < QUARTER then 0 else 1);
      r := bits;
    }
  }

  /** The binary search of `decode_model_index`. */
  method Search(highs: seq<int>, scaled: int) returns (left: nat)
    requires IsCdf(highs) && scaled < CDF_SCALE
    ensures FirstAbove(highs, scaled, left)
  {
    left := 0;
    var right := |highs| - 1;
    while left < right
      invariant 0 <= left <= right < |highs|
      invariant highs[right] > scaled
      invariant forall j :: 0 <= j < left ==> highs[j] <= scaled
    {
      var mid := (left + right) / 2;
      if highs[mid] <= scaled {
        left := mid + 1;
      } else {
        right := mid;
      }
    }
  }

  class ArithmeticDecoder {
    const data: seq<Byte>
    var low: int
    var high: int
    var value: int
    var bitPos: nat

    ghost function State(): Decoder
      reads this
    {
      Decoder(Interval(low, high), value, bitPos)
    }

    method ReadBit() returns (b: Bit)
      modifies this
      ensures b == BitAt(data, old(bitPos))
      ensures State() == old(State()).(pos := Advance(data, old(bitPos)))
    {
      if bitPos >= 8 * |data| {
        return 0;
      }
      b := ByteBit(data[bitPos / 8], bitPos % 8);
      bitPos := bitPos + 1;
    }

    constructor (data: seq<Byte>)
      ensures this.data == data && State() == StartDecoder(data) && Tracking(State())
    {
      this.data := data;
      low, high, value, bitPos := 0, FULL - 1, 0, 0;
      new;
      for i := 0 to 32
        invariant this.data == data && low == 0 && high == FULL - 1
        invariant value == Window(data, i) && bitPos == if i < 8 * |data| then i else 8 * |data|
      {
        var b := ReadBit();
        value := 2 * value + b;
      }
      StartTracks(data);
    }

    method ZoomOnce() returns (more: bool)
      requires Within(State().iv, value)
      modifies this
      ensures more == CanZoom(old(State()).iv)
      ensures State() == if more then ZoomDecoder(data, old(State())) else old(State())
    {
      hide BitAt, Advance;
      if high < HALF {
      } else if low >= HALF {
        low, high, value := low - HALF, high - HALF, value - HALF;
      } else if low >= QUARTER && high < THREE_QUARTER {
        low, high, value := low - QUARTER, high - QUARTER, value - QUARTER;
      } else {
        return false;
      }
      assert 0 <= low <= value <= high < HALF;
      var b := ReadBit();
      low, high, value := (2 * low) % FULL, (2 * high + 1) % FULL, (2 * value + b) % FULL;
      more := true;
    }

    method Renormalize()
      requires Within(State().iv, value)
      modifies this
      ensures State() == RenormaliseDecoder(data, old(State()))
    {
      var more := true;
      while more
        invariant Within(State().iv, value)
        invariant RenormaliseDecoder(data, State()) == RenormaliseDecoder(data, old(State()))
        invariant !more ==> Settled(State().iv)
        decreases FULL - (high - low + 1), more
      {
        more := ZoomOnce();
      }
    }

    /** Scaled division, then the search over the cumulative table, on any data whatever. */
    method DecodeModelIndex(highs: seq<int>) returns (index: nat)
      requires Tracking(State()) && IsCdf(highs)
      modifies this
      ensures (index, State()) == DecodeIndex(data, old(State()), highs)
      ensures Tracking(State())
    {
      hide IsCdf, BitAt, RenormaliseDecoder;
      ScaledInRange(State(), CDF_SCALE);
      SettledIsWide(State().iv);
      var rng := high - low + 1;
      var scaled := ((value - low + 1) * CDF_SCALE - 1) / rng;
      var left := Search(highs, scaled);
      FoundSliceContains(State(), highs, left);
      var entryHigh := highs[left];
      var entryLow := if left > 0 then highs[left - 1] else 0;
      high := low + (rng * entryHigh) / CDF_SCALE - 1;
      low := low + (rng * entryLow) / CDF_SCALE;
      Renormalize();
      index := left;
    }

    method DecodeUniformIndex(count: nat) returns (index: nat)
      requires Tracking(State()) && 0 < count <= CDF_SCALE
      modifies this
      ensures (index, State()) == DecodeUniform(data, old(State()), count)
      ensures Tracking(State())
    {
      UniformSliceContains(State(), count);
      SettledIsWide(State().iv);
      var rng := high - low + 1;
      var scaled := ((value - low + 1) * count - 1) / rng;
      var i := if scaled < count then scaled else count - 1;
      if i < 0 {
        i := 0;
      }
      high := low + (rng * (i + 1)) / count - 1;
      low := low + (rng * i) / count;
      Renormalize();
      index := i;
    }
  }
}
