/** The 32-bit binary arithmetic coder: `_ArithmeticEncoder` and `_ArithmeticDecoder`.

    The encoder's interval [low, high] is only the last 32 bits of an interval that keeps shrinking.
    `Offset` recovers the part that has already been shifted out, from the emitted bits and the
    pending (straddle) count alone, so the exact interval of a state is
    [Offset + low, Offset + high] at a resolution of 32 + Shifts bits. */
module ArithmeticCoder {
  import opened Powers

  const FULL: int := 0x1_0000_0000
  const HALF: int := 0x8000_0000
  const QUARTER: int := 0x4000_0000
  const THREE_QUARTER: int := 0xC000_0000
  const CDF_SCALE: int := 0x10_0000

  type Bit = b: int | 0 <= b <= 1
  type Byte = b: int | 0 <= b < 256

  // ---------------------------------------------------------------- intervals

  datatype Interval = Interval(low: int, high: int)

  predicate Ordered(iv: Interval) {
    0 <= iv.low <= iv.high < FULL
  }

  /** One pass of the renormalisation loop applies. */
  predicate CanZoom(iv: Interval) {
    || iv.high < HALF
    || iv.low >= HALF
    || (iv.low >= QUARTER && iv.high < THREE_QUARTER)
  }

  /** Nothing left to renormalise: the interval straddles the middle and is wider than a quarter. */
  predicate Settled(iv: Interval) {
    Ordered(iv) && !CanZoom(iv)
  }

  function Width(iv: Interval): int {
    iv.high - iv.low + 1
  }

  lemma SettledIsWide(iv: Interval)
    requires Settled(iv)
    ensures iv.low < HALF <= iv.high
    ensures QUARTER < Width(iv) <= FULL
  {
  }

  /** What a pass subtracts before doubling. */
  function Base(iv: Interval): int
    requires CanZoom(iv)
  {
    if iv.high < HALF then 0 else if iv.low >= HALF then HALF else QUARTER
  }

  function Zoom(iv: Interval): (r: Interval)
    requires Ordered(iv) && CanZoom(iv)
    ensures Ordered(r) && Width(r) == 2 * Width(iv)
  {
    Interval(2 * (iv.low - Base(iv)), 2 * (iv.high - Base(iv)) + 1)
  }

  /** A symbol's slice of the counts: [low, high) out of total. */
  datatype Slice = Slice(low: int, high: int, total: int)

  predicate Codable(s: Slice) {
    0 <= s.low < s.high <= s.total <= CDF_SCALE
  }

  /** What the encoder may be given: a slice that may also be empty. */
  predicate Countable(s: Slice) {
    0 <= s.low <= s.high <= s.total <= CDF_SCALE && 0 < s.total
  }

  function Narrow(iv: Interval, s: Slice): Interval
    requires s.total > 0
  {
    Interval(iv.low + Width(iv) * s.low / s.total, iv.low + Width(iv) * s.high / s.total - 1)
  }

  lemma MulMonotone(t: int, x: int, y: int)
    requires 0 <= t && x <= y
    ensures t * x <= t * y
  {
    assert t * (y - x) >= 0;
  }

  lemma Quotient(a: int, t: int)
    requires 0 < t
    ensures t * (a / t) <= a < t * (a / t) + t
  {
  }

  /** Division by `t` is the lower adjoint of multiplication by `t`. */
  lemma DivAtLeast(q: int, a: int, t: int)
    requires 0 < t
    ensures q <= a / t <==> t * q <= a
  {
    var r := a / t;
    Quotient(a, t);
    if q <= r {
      MulMonotone(t, q, r);
    } else {
      MulMonotone(t, r + 1, q);
      assert t * (r + 1) == t * r + t;
    }
  }

  lemma ScaleBounds(w: int, c: int, t: int)
    requires 0 <= c <= t && 0 < t && 0 < w
    ensures 0 <= w * c / t <= w
  {
    MulMonotone(w, 0, c);
    MulMonotone(w, c, t);
    DivAtLeast(0, w * c, t);
    DivAtLeast(w + 1, w * c, t);
    assert t * (w + 1) == w * t + t;
  }

  lemma ScaleGap(w: int, c: int, d: int, t: int)
    requires c < d && 0 < t <= w
    ensures w * c / t < w * d / t
  {
    var q := w * c / t;
    Quotient(w * c, t);
    MulMonotone(w, c + 1, d);
    assert w * (c + 1) == w * c + w;
    assert t * (q + 1) == t * q + t;
    DivAtLeast(q + 1, w * d, t);
  }

  /** Every codable slice of a settled interval is a non-empty sub-interval. */
  lemma NarrowStaysInside(iv: Interval, s: Slice)
    requires Settled(iv) && Codable(s)
    ensures iv.low <= Narrow(iv, s).low <= Narrow(iv, s).high <= iv.high
  {
    SettledIsWide(iv);
    ScaleBounds(Width(iv), s.low, s.total);
    ScaleBounds(Width(iv), s.high, s.total);
    ScaleGap(Width(iv), s.low, s.high, s.total);
  }

  // ---------------------------------------------------------------- encoder

  datatype Coder = Coder(iv: Interval, pending: nat, bits: seq<Bit>)

  const WHOLE := Interval(0, FULL - 1)
  const FRESH_CODER := Coder(WHOLE, 0, [])

  function Repeat(b: Bit, n: nat): (s: seq<Bit>)
    ensures |s| == n
  {
    if n == 0 then [] else Repeat(b, n - 1) + [b]
  }

  /** A bit followed by the pending opposite bits. */
  function Emit(c: Coder, b: Bit): Coder {
    c.(bits := c.bits + [b] + Repeat(1 - b, c.pending), pending := 0)
  }

  function ZoomCoder(c: Coder): Coder
    requires Ordered(c.iv) && CanZoom(c.iv)
  {
    var e :=
      if c.iv.high < HALF then Emit(c, 0)
      else if c.iv.low >= HALF then Emit(c, 1)
      else c.(pending := c.pending + 1);
    e.(iv := Zoom(c.iv))
  }

  function Renormalise(c: Coder): (r: Coder)
    requires Ordered(c.iv)
    ensures Settled(r.iv)
    decreases FULL - Width(c.iv)
  {
    if CanZoom(c.iv) then Renormalise(ZoomCoder(c)) else c
  }

  function Encode(c: Coder, s: Slice): (r: Coder)
    requires Settled(c.iv) && Countable(s)
    ensures Settled(r.iv)
  {
    if s.low < s.high then
      NarrowStaysInside(c.iv, s);
      Renormalise(c.(iv := Narrow(c.iv, s)))
    else
      PointInside(c.iv, s);
      Collapse(c.(iv := Narrow(c.iv, s)), 0)
  }

  function Finish(c: Coder): seq<Bit> {
    Emit(c.(pending := c.pending + 1), if c.iv.low < QUARTER then 0 else 1).bits
  }

  // ---------------------------------------------------------------- an empty slice

  /** An empty slice leaves a point and no interval: `high` is one below `low`. */
  predicate Collapsed(iv: Interval) {
    0 <= iv.low <= FULL && iv.high == iv.low - 1
  }

  lemma PointInside(iv: Interval, s: Slice)
    requires Settled(iv) && Countable(s) && s.low == s.high
    ensures Collapsed(Narrow(iv, s)) && OnGrid(Narrow(iv, s).low, 0)
  {
    SettledIsWide(iv);
    ScaleBounds(Width(iv), s.low, s.total);
    assert Narrow(iv, s).low == Scale(Narrow(iv, s).low, 0);
  }

  /** Where the point goes, before it is cut to 32 bits. */
  function NextPoint(p: int): int {
    2 * (if p <= HALF then p else p - HALF)
  }

  /** A turn of the loop on a point. Once the point leaves the 32 bits the interval is whole again. */
  function PointTurn(c: Coder): Coder
    requires Collapsed(c.iv)
  {
    var q := NextPoint(c.iv.low);
    Emit(c, if c.iv.low <= HALF then 0 else 1).(iv := if q == 0 || q == FULL then WHOLE else Interval(q, q - 1))
  }

  /** A multiple of 2^k. */
  ghost predicate OnGrid(p: int, k: nat) {
    exists m: nat :: p == Scale(m, k)
  }

  lemma {:induction false} ScaleMinus(m: nat, h: nat, k: nat)
    ensures Scale(m, k) > Scale(h, k) ==> m > h && Scale(m - h, k) == Scale(m, k) - Scale(h, k)
  {
    if k > 0 {
      ScaleMinus(m, h, k - 1);
    }
  }

  lemma {:induction false} ScaleOfPow2(j: nat, k: nat)
    ensures Scale(Pow2(j), k) == Pow2(j + k)
  {
    if k > 0 {
      ScaleOfPow2(j, k - 1);
    }
  }

  lemma HalfOnGrid(k: nat)
    requires k <= 31
    ensures Scale(Pow2(31 - k), k) == HALF
  {
    ScaleOfPow2(31 - k, k);
    Pow2Of32();
  }

  /** Every turn doubles the grid, so after at most 32 the point is gone. */
  lemma GridStep(p: int, k: nat)
    requires 0 <= p <= FULL && k <= 31 && OnGrid(p, k)
    ensures NextPoint(p) == 0 || NextPoint(p) == FULL || (k < 31 && OnGrid(NextPoint(p), k + 1))
  {
    var m: nat :| p == Scale(m, k);
    if k == 31 {
      Scale30(m);
      assert p == 2 * Scale(m, 30);
    } else if p <= HALF {
      assert NextPoint(p) == Scale(m, k + 1);
    } else {
      HalfOnGrid(k);
      ScaleMinus(m, Pow2(31 - k), k);
      assert NextPoint(p) == Scale(m - Pow2(31 - k), k + 1);
    }
  }

  /** The loop on a point: it writes the point's digits and ends with the whole interval. */
  function Collapse(c: Coder, ghost k: nat): (r: Coder)
    requires Collapsed(c.iv) && k <= 31 && OnGrid(c.iv.low, k)
    ensures r.iv == WHOLE && r.pending == 0
    decreases 31 - k
  {
    GridStep(c.iv.low, k);
    var t := PointTurn(c);
    if Collapsed(t.iv) then Collapse(t, k + 1) else t
  }

  // ---------------------------------------------------------------- the exact interval

  /** Big-endian value of a bit string. */
  function Value(bits: seq<Bit>): nat {
    if bits == [] then 0 else 2 * Value(bits[..|bits| - 1]) + bits[|bits| - 1]
  }

  /** How often the interval has been doubled so far. */
  function Shifts(c: Coder): nat {
    |c.bits| + c.pending
  }

  /** v * 2^p, as p doublings. */
  function Scale(v: nat, p: nat): nat {
    if p == 0 then v else 2 * Scale(v, p - 1)
  }

  /** The part of the exact interval that no longer fits in 32 bits. */
  function Offset(c: Coder): nat {
    Scale(Value(c.bits), c.pending) * FULL + (Pow2(c.pending) - 1) * HALF
  }

  lemma {:induction false} ScaleBit(v: nat, b: Bit, p: nat)
    ensures Scale(2 * v + b, p) == 2 * Scale(v, p) + (if b == 0 then 0 else Pow2(p))
  {
    if p > 0 {
      ScaleBit(v, b, p - 1);
    }
  }

  lemma ValueSnoc(bits: seq<Bit>, b: Bit)
    ensures Value(bits + [b]) == 2 * Value(bits) + b
  {
    assert (bits + [b])[..|bits|] == bits;
  }

  lemma {:induction false} ValueRepeat(bits: seq<Bit>, b: Bit, n: nat)
    ensures Value(bits + Repeat(b, n)) == Scale(Value(bits), n) + (if b == 0 then 0 else Pow2(n) - 1)
  {
    hide Value;
    if n == 0 {
      assert bits + Repeat(b, 0) == bits;
    } else {
      ValueRepeat(bits, b, n - 1);
      ValueSnoc(bits + Repeat(b, n - 1), b);
      assert bits + Repeat(b, n) == bits + Repeat(b, n - 1) + [b];
    }
  }

  lemma ValueEmit(c: Coder, b: Bit)
    ensures Value(Emit(c, b).bits) == 2 * Scale(Value(c.bits), c.pending) + Pow2(c.pending) - (if b == 0 then 1 else 0)
    ensures |Emit(c, b).bits| == |c.bits| + 1 + c.pending
  {
    ValueSnoc(c.bits, b);
    ValueRepeat(c.bits + [b], 1 - b, c.pending);
    ScaleBit(Value(c.bits), b, c.pending);
  }

  /** A pass doubles the exact interval's offset, whatever mixture of emitted and pending bits holds it. */
  lemma ZoomDoublesOffset(c: Coder)
    requires Ordered(c.iv) && CanZoom(c.iv)
    ensures Offset(ZoomCoder(c)) == 2 * (Offset(c) + Base(c.iv))
    ensures Shifts(ZoomCoder(c)) == Shifts(c) + 1
  {
    if c.iv.high < HALF {
      ValueEmit(c, 0);
    } else if c.iv.low >= HALF {
      ValueEmit(c, 1);
    }
  }

  lemma {:induction false} RenormaliseIsExact(c: Coder)
    requires Ordered(c.iv)
    ensures Shifts(c) <= Shifts(Renormalise(c))
    ensures var r := Renormalise(c); var k := Shifts(r) - Shifts(c);
            && Offset(r) + r.iv.low == Scale(Offset(c) + c.iv.low, k)
            && Offset(r) + r.iv.high + 1 == Scale(Offset(c) + c.iv.high + 1, k)
    decreases FULL - Width(c.iv)
  {
    hide Offset, Shifts;
    if CanZoom(c.iv) {
      var z := ZoomCoder(c);
      ZoomDoublesOffset(c);
      RenormaliseIsExact(z);
      var k := Shifts(Renormalise(z)) - Shifts(z);
      ScaleBit(Offset(c) + c.iv.low, 0, k);
      ScaleBit(Offset(c) + c.iv.high + 1, 0, k);
    }
  }

  /** Both ends of a narrowed interval are where the slice's ends are in proportion, rounded down. */
  lemma NarrowIsProportional(iv: Interval, s: Slice)
    requires Ordered(iv) && Countable(s)
    ensures var n, w := Narrow(iv, s), iv.high - iv.low + 1; var a, b := n.low - iv.low, n.high + 1 - iv.low;
            a * s.total <= w * s.low < (a + 1) * s.total && b * s.total <= w * s.high < (b + 1) * s.total
  {
    FloorIs(Width(iv) * s.low, s.total);
    FloorIs(Width(iv) * s.high, s.total);
  }

  lemma FloorIs(x: int, d: int)
    requires d > 0
    ensures x / d * d <= x < (x / d + 1) * d
  {
  }

  /** Encoding a symbol selects its slice of the exact interval and loses nothing: no bit is dropped
      by the 32-bit masks and no pending bit is resolved the wrong way. */
  lemma EncodeIsExact(c: Coder, s: Slice)
    requires Settled(c.iv) && Codable(s)
    ensures Shifts(c) <= Shifts(Encode(c, s))
    ensures var r := Encode(c, s); var k := Shifts(r) - Shifts(c); var n := Narrow(c.iv, s);
            && 0 <= n.low <= n.high
            && Offset(r) + r.iv.low == Scale(Offset(c) + n.low, k)
            && Offset(r) + r.iv.high + 1 == Scale(Offset(c) + n.high + 1, k)
  {
    NarrowStaysInside(c.iv, s);
    RenormaliseIsExact(c.(iv := Narrow(c.iv, s)));
  }

  // ---------------------------------------------------------------- the bit stream

  function Weight(k: nat): (w: int)
    requires k < 8
    ensures w > 0
  {
    if k == 0 then 128 else if k == 1 then 64 else if k == 2 then 32 else if k == 3 then 16
    else if k == 4 then 8 else if k == 5 then 4 else if k == 6 then 2 else 1
  }

  function ByteBit(b: Byte, k: nat): Bit
    requires k < 8
  {
    b / Weight(k) % 2
  }

  /** Bit `i` of the data, most significant first; zero past the end. */
  function BitAt(data: seq<Byte>, i: nat): Bit {
    if i >= 8 * |data| then 0 else ByteBit(data[i / 8], i % 8)
  }

  /** The first `n` bits of the stream as a number. */
  function Window(data: seq<Byte>, n: nat): nat {
    if n == 0 then 0 else 2 * Window(data, n - 1) + BitAt(data, n - 1)
  }

  /** What the decoder's value register holds when it has followed the encoder to state `c`. */
  function Register(data: seq<Byte>, c: Coder): int {
    Window(data, 32 + Shifts(c)) - Offset(c)
  }

  /** The stream lies in the exact interval of `c`. */
  predicate Holds(data: seq<Byte>, c: Coder) {
    c.iv.low <= Register(data, c) <= c.iv.high
  }

  lemma {:induction false} RenormaliseHoldsBack(data: seq<Byte>, c: Coder)
    requires Ordered(c.iv) && Holds(data, Renormalise(c))
    ensures Holds(data, c)
    decreases FULL - Width(c.iv)
  {
    if CanZoom(c.iv) {
      ZoomDoublesOffset(c);
      RenormaliseHoldsBack(data, ZoomCoder(c));
    }
  }

  /** A stream in the interval after a symbol was, before it, in that symbol's slice. */
  lemma EncodeHoldsBack(data: seq<Byte>, c: Coder, s: Slice)
    requires Settled(c.iv) && Codable(s) && Holds(data, Encode(c, s))
    ensures Narrow(c.iv, s).low <= Register(data, c) <= Narrow(c.iv, s).high
    ensures Holds(data, c)
  {
    NarrowStaysInside(c.iv, s);
    var n := c.(iv := Narrow(c.iv, s));
    RenormaliseHoldsBack(data, n);
    assert Register(data, n) == Register(data, c);
  }

  /** The stream is these bits, padded with zeros without end. */
  ghost predicate Carries(data: seq<Byte>, bits: seq<Bit>) {
    forall i: nat :: BitAt(data, i) == if i < |bits| then bits[i] else 0
  }

  lemma {:induction false} WindowOfBits(data: seq<Byte>, bits: seq<Bit>, n: nat)
    requires Carries(data, bits)
    ensures n <= |bits| ==> Window(data, n) == Value(bits[..n])
    ensures n > |bits| ==> Window(data, n) == Scale(Value(bits), n - |bits|)
  {
    if n > 0 {
      WindowOfBits(data, bits, n - 1);
      if n <= |bits| {
        assert bits[..n][..n - 1] == bits[..n - 1];
      } else {
        assert bits[..|bits|] == bits;
      }
    } else {
      assert bits[..0] == [];
    }
  }

  lemma Scale30(v: nat)
    ensures Scale(v, 30) == v * QUARTER
  {
    ScaleAdd(v, 10, 20);
    ScaleAdd(Scale(v, 10), 10, 10);
    Scale10(v);
    Scale10(Scale(v, 10));
    Scale10(Scale(Scale(v, 10), 10));
  }

  lemma Scale10(v: nat)
    ensures Scale(v, 10) == v * 1024
  {
    ScaleAdd(v, 5, 5);
    assert Scale(v, 5) == 2 * Scale(v, 4) == 4 * Scale(v, 3) == 8 * Scale(v, 2) == 16 * Scale(v, 1) == 32 * v;
    var w := 32 * v;
    assert Scale(w, 5) == 2 * Scale(w, 4) == 4 * Scale(w, 3) == 8 * Scale(w, 2) == 16 * Scale(w, 1) == 32 * w;
  }

  lemma {:induction false} ScaleAdd(v: nat, a: nat, b: nat)
    ensures Scale(v, a + b) == Scale(Scale(v, a), b)
  {
    if b > 0 {
      ScaleAdd(v, a, b - 1);
    }
  }

  /** The two or more bits flushed at the end put the stream inside the final interval,
      however many zeros the decoder reads after them. */
  lemma FinishHolds(data: seq<Byte>, c: Coder)
    requires Settled(c.iv) && Carries(data, Finish(c))
    ensures Holds(data, c)
  {
    hide Window, Value, Repeat, Carries;
    var b := if c.iv.low < QUARTER then 0 else 1;
    var f := c.(pending := c.pending + 1);
    ValueEmit(f, b);
    WindowOfBits(data, Finish(c), 32 + Shifts(c));
    assert 32 + Shifts(c) - |Finish(c)| == 30;
    Scale30(Value(Finish(c)));
  }

  // ---------------------------------------------------------------- decoder

  datatype Decoder = Decoder(iv: Interval, value: int, pos: nat)

  /** The value register lies in a settled interval. */
  predicate Tracking(d: Decoder) {
    Settled(d.iv) && d.iv.low <= d.value <= d.iv.high
  }

  predicate Within(iv: Interval, value: int) {
    Ordered(iv) && iv.low <= value <= iv.high
  }

  function Advance(data: seq<Byte>, pos: nat): nat {
    if pos >= 8 * |data| then pos else pos + 1
  }

  function ZoomDecoder(data: seq<Byte>, d: Decoder): (r: Decoder)
    requires Within(d.iv, d.value) && CanZoom(d.iv)
    ensures Within(r.iv, r.value)
  {
    Decoder(Zoom(d.iv), 2 * (d.value - Base(d.iv)) + BitAt(data, d.pos), Advance(data, d.pos))
  }

  function RenormaliseDecoder(data: seq<Byte>, d: Decoder): (r: Decoder)
    requires Within(d.iv, d.value)
    ensures Tracking(r)
    decreases FULL - Width(d.iv)
  {
    if CanZoom(d.iv) then RenormaliseDecoder(data, ZoomDecoder(data, d)) else d
  }

  /** Take the slice the value lies in. */
  function Follow(data: seq<Byte>, d: Decoder, s: Slice): (r: Decoder)
    requires Tracking(d) && Codable(s) && Within(Narrow(d.iv, s), d.value)
    ensures Tracking(r)
  {
    RenormaliseDecoder(data, d.(iv := Narrow(d.iv, s)))
  }

  function Scaled(d: Decoder, total: int): int
    requires Tracking(d)
  {
    SettledIsWide(d.iv);
    ((d.value - d.iv.low + 1) * total - 1) / Width(d.iv)
  }

  lemma ScaledAtLeast(v: int, w: int, t: int, c: int)
    requires 0 < w && 0 < t
    ensures c <= ((v + 1) * t - 1) / w <==> w * c / t <= v
  {
    DivAtLeast(v + 1, w * c, t);
    DivAtLeast(c, (v + 1) * t - 1, w);
    assert t * (v + 1) == (v + 1) * t;
  }

  /** The scaled division inverts narrowing, in both directions. */
  lemma ScaledLocates(d: Decoder, s: Slice)
    requires Tracking(d) && Codable(s)
    ensures s.low <= Scaled(d, s.total) < s.high <==> Within(Narrow(d.iv, s), d.value)
  {
    SettledIsWide(d.iv);
    NarrowStaysInside(d.iv, s);
    ScaledAtLeast(d.value - d.iv.low, Width(d.iv), s.total, s.low);
    ScaledAtLeast(d.value - d.iv.low, Width(d.iv), s.total, s.high);
  }

  lemma MulDiv(w: int, t: int)
    requires 0 < t
    ensures w * t / t == w
  {
    DivAtLeast(w, w * t, t);
    DivAtLeast(w + 1, w * t, t);
    assert t * (w + 1) == w * t + t;
  }

  lemma ScaledInRange(d: Decoder, total: int)
    requires Tracking(d) && 0 < total
    ensures 0 <= Scaled(d, total) < total
  {
    SettledIsWide(d.iv);
    var v, w := d.value - d.iv.low, Width(d.iv);
    ScaledAtLeast(v, w, total, 0);
    ScaledAtLeast(v, w, total, total);
    MulDiv(w, total);
    assert w * 0 / total == 0;
  }

  // ---------------------------------------------------------------- lock-step

  /** The decoder has followed the encoder to state `c`. */
  predicate Synced(data: seq<Byte>, c: Coder, d: Decoder) {
    && d.iv == c.iv
    && d.value == Register(data, c)
    && d.pos == if 32 + Shifts(c) < 8 * |data| then 32 + Shifts(c) else 8 * |data|
  }

  lemma {:induction false} RenormaliseSynced(data: seq<Byte>, c: Coder, d: Decoder)
    requires Within(d.iv, d.value) && Synced(data, c, d)
    ensures Synced(data, Renormalise(c), RenormaliseDecoder(data, d))
    decreases FULL - Width(c.iv)
  {
    if CanZoom(c.iv) {
      ZoomDoublesOffset(c);
      assert BitAt(data, d.pos) == BitAt(data, 32 + Shifts(c));
      RenormaliseSynced(data, ZoomCoder(c), ZoomDecoder(data, d));
    }
  }

  /** If the stream ends up in the interval after symbol `s`, a decoder in step with the encoder
      locates exactly that slice, and stays in step through the symbol. */
  lemma SymbolSynced(data: seq<Byte>, c: Coder, d: Decoder, s: Slice)
    requires Settled(c.iv) && Codable(s) && Synced(data, c, d) && Holds(data, Encode(c, s))
    ensures Tracking(d) && s.low <= Scaled(d, s.total) < s.high
    ensures Within(Narrow(d.iv, s), d.value)
    ensures Synced(data, Encode(c, s), Follow(data, d, s))
  {
    NarrowStaysInside(c.iv, s);
    EncodeHoldsBack(data, c, s);
    ScaledLocates(d, s);
    var n := c.(iv := Narrow(c.iv, s));
    assert Register(data, n) == Register(data, c);
    RenormaliseSynced(data, n, d.(iv := Narrow(d.iv, s)));
  }

  // ---------------------------------------------------------------- symbol search

  /** A cumulative table over the full scale; zero-width entries are allowed. */
  predicate IsCdf(highs: seq<int>) {
    && |highs| > 0
    && 0 <= highs[0]
    && highs[|highs| - 1] == CDF_SCALE
    && forall i, j :: 0 <= i <= j < |highs| ==> highs[i] <= highs[j]
  }

  function SliceAt(highs: seq<int>, i: nat): Slice
    requires i < |highs|
  {
    Slice(if i > 0 then highs[i - 1] else 0, highs[i], CDF_SCALE)
  }

  /** Index `i` is where a cumulative table first exceeds `x`. */
  predicate FirstAbove(highs: seq<int>, x: int, i: nat) {
    i < |highs| && highs[i] > x && forall j :: 0 <= j < i ==> highs[j] <= x
  }

  function FindAbove(highs: seq<int>, x: int, from: nat): (i: nat)
    requires |highs| > 0 && highs[|highs| - 1] > x && from < |highs|
    requires forall j :: 0 <= j < from ==> highs[j] <= x
    ensures FirstAbove(highs, x, i)
    decreases |highs| - from
  {
    if highs[from] > x then from else FindAbove(highs, x, from + 1)
  }

  /** Whatever the value register holds, the entry found has positive width and contains it:
      the decoder stays on track on any byte string, and a zero-width entry is never chosen. */
  lemma FoundSliceContains(d: Decoder, highs: seq<int>, i: nat)
    requires Tracking(d) && IsCdf(highs) && FirstAbove(highs, Scaled(d, CDF_SCALE), i)
    ensures Codable(SliceAt(highs, i)) && Within(Narrow(d.iv, SliceAt(highs, i)), d.value)
  {
    ScaledInRange(d, CDF_SCALE);
    ScaledLocates(d, SliceAt(highs, i));
  }

  function DecodeIndex(data: seq<Byte>, d: Decoder, highs: seq<int>): (r: (nat, Decoder))
    requires Tracking(d) && IsCdf(highs)
    ensures r.0 < |highs| && Tracking(r.1) && Codable(SliceAt(highs, r.0))
  {
    ScaledInRange(d, CDF_SCALE);
    var i := FindAbove(highs, Scaled(d, CDF_SCALE), 0);
    FoundSliceContains(d, highs, i);
    (i, Follow(data, d, SliceAt(highs, i)))
  }

  function UniformSlice(i: nat, count: nat): Slice {
    Slice(i, i + 1, count)
  }

  /** The clamping in `decode_uniform` never changes the index. */
  lemma UniformSliceContains(d: Decoder, count: nat)
    requires Tracking(d) && 0 < count <= CDF_SCALE
    ensures 0 <= Scaled(d, count) < count
    ensures Within(Narrow(d.iv, UniformSlice(Scaled(d, count), count)), d.value)
  {
    ScaledInRange(d, count);
    ScaledLocates(d, UniformSlice(Scaled(d, count), count));
  }

  function DecodeUniform(data: seq<Byte>, d: Decoder, count: nat): (r: (nat, Decoder))
    requires Tracking(d) && 0 < count <= CDF_SCALE
    ensures r.0 < count && Tracking(r.1)
  {
    UniformSliceContains(d, count);
    var i := Scaled(d, count);
    (i, Follow(data, d, UniformSlice(i, count)))
  }

  /** Decoding against the table the encoder used returns the encoder's index and keeps step. */
  lemma IndexSynced(data: seq<Byte>, c: Coder, d: Decoder, highs: seq<int>, i: nat)
    requires Settled(c.iv) && IsCdf(highs) && i < |highs| && Codable(SliceAt(highs, i))
    requires Synced(data, c, d) && Holds(data, Encode(c, SliceAt(highs, i)))
    ensures Tracking(d) && DecodeIndex(data, d, highs).0 == i
    ensures Synced(data, Encode(c, SliceAt(highs, i)), DecodeIndex(data, d, highs).1)
  {
    SymbolSynced(data, c, d, SliceAt(highs, i));
    var j := DecodeIndex(data, d, highs).0;
    assert highs[i] > Scaled(d, CDF_SCALE);
    assert j <= i;
  }

  lemma UniformSynced(data: seq<Byte>, c: Coder, d: Decoder, i: nat, count: nat)
    requires Settled(c.iv) && i < count <= CDF_SCALE
    requires Synced(data, c, d) && Holds(data, Encode(c, UniformSlice(i, count)))
    ensures Tracking(d) && DecodeUniform(data, d, count).0 == i
    ensures Synced(data, Encode(c, UniformSlice(i, count)), DecodeUniform(data, d, count).1)
  {
    SymbolSynced(data, c, d, UniformSlice(i, count));
  }

  // ---------------------------------------------------------------- starting up

  function StartDecoder(data: seq<Byte>): Decoder {
    Decoder(WHOLE, Window(data, 32), if 32 < 8 * |data| then 32 else 8 * |data|)
  }

  lemma {:induction false} WindowBound(data: seq<Byte>, n: nat)
    ensures Window(data, n) < Pow2(n)
  {
    if n > 0 {
      WindowBound(data, n - 1);
    }
  }

  lemma Pow2Of32()
    ensures Pow2(32) == FULL
  {
    Pow2Add(16, 16);
    Pow2Add(8, 8);
    assert Pow2(8) == 256;
  }

  lemma StartTracks(data: seq<Byte>)
    ensures Tracking(StartDecoder(data)) && Synced(data, FRESH_CODER, StartDecoder(data))
  {
    WindowBound(data, 32);
    Pow2Of32();
  }
}
