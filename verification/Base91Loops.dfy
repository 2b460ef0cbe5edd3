/** The base-91 loops with their bit accumulators, proved against `Base91`. */
module Base91Loops {
  import opened Wrappers
  import opened Powers
  import opened ArithmeticCoder
  import opened Base91

  // ---------------------------------------------------------------- encoder

  lemma PushByte(n: nat, nBits: nat, data: seq<Byte>, i: nat)
    requires n < Pow2(nBits) && i < |data|
    ensures LowBits(n, nBits) + DataBits(data[i..]) == LowBits(n + Scale(data[i], nBits), nBits + 8) + DataBits(data[i + 1..])
    ensures n + Scale(data[i], nBits) < Pow2(nBits + 8)
  {
    Widths();
    hide LowBits, Pow2, Scale;
    LowBitsJoin(n, nBits, data[i], 8);
    JoinBound(n, nBits, data[i], 8);
    assert data[i..][1..] == data[i + 1..];
    assert LowBits(n, nBits) + (LowBits(data[i], 8) + DataBits(data[i + 1..]))
           == (LowBits(n, nBits) + LowBits(data[i], 8)) + DataBits(data[i + 1..]);
  }

  /** Taking a pair off the accumulator is taking it off the whole bit string. */
  lemma TakePair(n: nat, nBits: nat, rest: seq<Bit>)
    requires nBits > 13 && n < Pow2(nBits)
    ensures var w := PairWidth(n);
            && n % Pow2(w) < 91 * 91
            && n / Pow2(w) < Pow2(nBits - w)
            && EncodeBits(LowBits(n, nBits) + rest)
               == Pair(n % Pow2(w)) + EncodeBits(LowBits(n / Pow2(w), nBits - w) + rest)
  {
    hide LowBits, Num, Pow2, Shr, Pair;
    var all := LowBits(n, nBits) + rest;
    PairFits(all);
    LowBitsSplit(n, 13, nBits - 13);
    assert all[..13] == LowBits(n, 13);
    TakeLow(n, 13);
    var w := PairWidth(n);
    assert w == PairWidth(Num(all[..13]));
    LowBitsSplit(n, w, nBits - w);
    assert all[..w] == LowBits(n, w);
    assert all[w..] == LowBits(Shr(n, w), nBits - w) + rest;
    TakeLow(n, w);
    ShrBound(n, w, nBits - w);
  }

  lemma TailOf(n: nat, nBits: nat)
    requires nBits <= 13 && n < Pow2(nBits)
    ensures n < 91 * 91
    ensures EncodeBits(LowBits(n, nBits) + []) ==
            if nBits == 0 then "" else if n >= 91 || nBits > 7 then Pair(n) else [CharOf(n)]
  {
    NumOfLowBits(n, nBits);
    TailBound(LowBits(n, nBits));
    assert LowBits(n, nBits) + [] == LowBits(n, nBits);
  }

  /** One pair off an accumulator that holds more than 13 bits. */
  method EmitPair(n0: nat, nBits0: nat, ghost rest: seq<Bit>) returns (pair: string, n: nat, nBits: nat)
    requires 13 < nBits0 <= 21 && n0 < Pow2(nBits0)
    ensures nBits <= 8 && n < Pow2(nBits)
    ensures EncodeBits(LowBits(n0, nBits0) + rest) == pair + EncodeBits(LowBits(n, nBits) + rest)
  {
    Widths();
    TakePair(n0, nBits0, rest);
    hide EncodeBits, LowBits, CharOf, Pow2;
    var value := n0 % 8192;
    if value > 88 {
      n, nBits := n0 / 8192, nBits0 - 13;
    } else {
      value := n0 % 16384;
      n, nBits := n0 / 16384, nBits0 - 14;
    }
    pair := [CharOf(value % 91), CharOf(value / 91)];
  }

  method EncodeBytes(data: seq<Byte>) returns (out: string)
    ensures out == Encode91(data)
  {
    hide EncodeBits, LowBits, CharOf, Scale, DataBits;
    out := "";
    var n: nat, nBits: nat := 0, 0;
    assert data[0..] == data && LowBits(0, 0) + DataBits(data) == DataBits(data);
    for i := 0 to |data|
      invariant nBits <= 13 && n < Pow2(nBits)
      invariant out + EncodeBits(LowBits(n, nBits) + DataBits(data[i..])) == Encode91(data)
    {
      PushByte(n, nBits, data, i);
      n := n + Scale(data[i], nBits);
      nBits := nBits + 8;
      if nBits > 13 {
        var pair;
        pair, n, nBits := EmitPair(n, nBits, DataBits(data[i + 1..]));
        Regroup(out, pair, EncodeBits(LowBits(n, nBits) + DataBits(data[i + 1..])));
        out := out + pair;
      }
    }
    assert DataBits(data[|data|..]) == [] by { NoData(data); }
    var tail := EmitTail(n, nBits);
    out := out + tail;
  }

  lemma NoData(data: seq<Byte>)
    ensures DataBits(data[|data|..]) == []
  {
  }

  method EmitTail(n: nat, nBits: nat) returns (tail: string)
    requires nBits <= 13 && n < Pow2(nBits)
    ensures tail == EncodeBits(LowBits(n, nBits) + [])
  {
    TailOf(n, nBits);
    tail := "";
    if nBits > 0 {
      tail := [CharOf(n % 91)];
      if n >= 91 || nBits > 7 {
        tail := tail + [CharOf(n / 91)];
      }
    }
  }

  lemma Splice<T>(a: seq<T>, b: seq<T>, c: seq<T>, d: seq<T>, e: seq<T>)
    requires b + c == d + e
    ensures (a + b) + c == (a + d) + e
  {
    Regroup(a, b, c);
    Regroup(a, d, e);
  }

  lemma Regroup<T>(a: seq<T>, b: seq<T>, c: seq<T>)
    ensures a + (b + c) == (a + b) + c
  {
  }

  // ---------------------------------------------------------------- decoders

  lemma {:induction false} DataBitsAppend(data: seq<Byte>, b: Byte)
    ensures DataBits(data + [b]) == DataBits(data) + LowBits(b, 8)
  {
    hide LowBits;
    if data == [] {
      assert DataBits([b]) == LowBits(b, 8) + DataBits([]);
      assert data + [b] == [b];
    } else {
      DataBitsAppend(data[1..], b);
      assert (data + [b])[1..] == data[1..] + [b];
    }
  }

  lemma ByteOff(n: nat, nBits: nat)
    requires nBits >= 8 && n < Pow2(nBits)
    ensures n / 256 < Pow2(nBits - 8)
    ensures LowBits(n, nBits) == LowBits(n % 256, 8) + LowBits(n / 256, nBits - 8)
  {
    hide Num, LowBits;
    LowBitsSplit(n, 8, nBits - 8);
    TakeLow(n, 8);
    ShrBound(n, 8, nBits - 8);
    LowBitsOfNum(LowBits(n, 8));
  }

  /** Move whole bytes from the accumulator to the output; no bit is lost or reordered. After a pair
      the accumulator holds at least 13 bits, so testing before or after each byte is the same. */
  method Flush(n0: nat, nBits0: nat) returns (out: seq<Byte>, n: nat, nBits: nat)
    requires n0 < Pow2(nBits0)
    ensures nBits < 8 && n < Pow2(nBits)
    ensures LowBits(n0, nBits0) == DataBits(out) + LowBits(n, nBits)
  {
    hide LowBits, Pow2;
    out, n, nBits := [], n0, nBits0;
    assert DataBits([]) + LowBits(n0, nBits0) == LowBits(n0, nBits0);
    while nBits >= 8
      invariant n < Pow2(nBits)
      invariant LowBits(n0, nBits0) == DataBits(out) + LowBits(n, nBits)
    {
      ByteOff(n, nBits);
      DataBitsAppend(out, n % 256);
      Regroup(DataBits(out), LowBits(n % 256, 8), LowBits(n / 256, nBits - 8));
      out := out + [n % 256];
      n, nBits := n / 256, nBits - 8;
    }
  }

  lemma PairValue(v: nat)
    requires v < 91 * 91
    ensures v < Pow2(PairWidth(v))
  {
    Widths();
  }

  method PushValue(n0: nat, nBits0: nat, value: nat, width: nat) returns (out: seq<Byte>, n: nat, nBits: nat)
    requires n0 < Pow2(nBits0) && value < Pow2(width)
    ensures nBits < 8 && n < Pow2(nBits)
    ensures LowBits(n0, nBits0) + LowBits(value, width) == DataBits(out) + LowBits(n, nBits)
  {
    LowBitsJoin(n0, nBits0, value, width);
    JoinBound(n0, nBits0, value, width);
    out, n, nBits := Flush(n0 + Scale(value, nBits0), nBits0 + width);
  }

  lemma {:induction false} DataBitsConcat(a: seq<Byte>, b: seq<Byte>)
    ensures DataBits(a + b) == DataBits(a) + DataBits(b)
  {
    hide LowBits;
    if a == [] {
      assert a + b == b;
    } else {
      DataBitsConcat(a[1..], b);
      assert (a + b)[1..] == a[1..] + b;
    }
  }

  lemma PairBitsSnoc(text: string, i: nat)
    requires 1 <= i < |text| && i % 2 == 1
    ensures var v := Value91(text[i - 1]) + 91 * Value91(text[i]);
            PairBits(text[..i + 1]) == PairBits(text[..i - 1]) + LowBits(v, PairWidth(v))
  {
    hide PairBits, LowBits, PairWidth, Digit;
    var pair := text[i - 1..i + 1];
    assert text[..i + 1] == text[..i - 1] + pair;
    PairBitsConcat(text[..i - 1], pair);
    TextCons(pair, "");
    NoPairs("");
    assert pair + "" == pair;
  }

  lemma {:induction false} PairBitsConcat(a: string, b: string)
    requires |a| % 2 == 0
    ensures PairBits(a + b) == PairBits(a) + PairBits(b)
    decreases |a|
  {
    hide LowBits, PairWidth, Digit;
    if a == "" {
      assert a + b == b;
    } else {
      PairBitsConcat(a[2..], b);
      assert (a + b)[2..] == a[2..] + b;
    }
  }

  /** The pair ending at index `i` goes through the accumulator. */
  method AddPair(ghost text: string, ghost i: nat, out0: seq<Byte>, n0: nat, nBits0: nat, value: nat)
    returns (out: seq<Byte>, n: nat, nBits: nat)
    requires 1 <= i < |text| && i % 2 == 1 && n0 < Pow2(nBits0)
    requires value == Value91(text[i - 1]) + 91 * Value91(text[i])
    requires PairBits(text[..i - 1]) == DataBits(out0) + LowBits(n0, nBits0)
    ensures nBits < 8 && n < Pow2(nBits)
    ensures PairBits(text[..i + 1]) == DataBits(out) + LowBits(n, nBits)
  {
    hide PairBits, LowBits, Pow2, DataBits, Value91, PairWidth;
    PairBitsSnoc(text, i);
    PairValue(value);
    var bytes;
    bytes, n, nBits := PushValue(n0, nBits0, value, PairWidth(value));
    DataBitsConcat(out0, bytes);
    Splice(DataBits(out0), LowBits(n0, nBits0), LowBits(value, PairWidth(value)), DataBits(bytes), LowBits(n, nBits));
    out := out0 + bytes;
  }

  /** The pairs of a text, read character by character with a pending digit: the bytes they fill, the
      bits left over, and the digit of a last odd character (-1 for none). */
  method ReadPairs(text: string) returns (ok: bool, out: seq<Byte>, n: nat, nBits: nat, value: int)
    ensures ok == InAlphabet(text)
    ensures ok ==> nBits < 8 && n < Pow2(nBits)
    ensures ok ==> value == if |text| % 2 == 1 then Value91(text[|text| - 1]) else -1
    ensures ok ==> PairBits(text) == DataBits(out) + LowBits(n, nBits)
  {
    hide PairBits, LowBits, Digit, PairWidth;
    ok, out, n, nBits, value := true, [], 0, 0, -1;
    NoPairs(text[..0]);
    var i := 0;
    while i < |text|
      invariant 0 <= i <= |text|
      invariant forall j :: 0 <= j < i ==> Digit(text[j]) >= 0
      invariant value == if i % 2 == 1 then Digit(text[i - 1]) else -1
      invariant nBits < 8 && n < Pow2(nBits)
      invariant PairBits(text[..i - i % 2]) == DataBits(out) + LowBits(n, nBits)
    {
      var decoded := Digit(text[i]);
      if decoded < 0 {
        return false, out, n, nBits, value;
      }
      if value == -1 {
        value := decoded;
      } else {
        value := value + decoded * 91;
        out, n, nBits := AddPair(text, i, out, n, nBits, value);
        value := -1;
      }
      i := i + 1;
    }
    if |text| % 2 == 1 {
      LastOdd(text);
    }
    assert text[..|text|] == text;
  }

  lemma NoPairs(text: string)
    requires |text| < 2
    ensures PairBits(text) == []
  {
  }

  lemma LastOdd(text: string)
    requires |text| % 2 == 1
    ensures PairBits(text) == PairBits(text[..|text| - 1])
  {
    hide PairBits;
    var last := text[|text| - 1..];
    PairBitsConcat(text[..|text| - 1], last);
    NoPairs(last);
    assert text == text[..|text| - 1] + last;
  }

  method DecodeTextV2(text: string) returns (r: Result<seq<Byte>>)
    ensures r == DecodeV2(text)
  {
    hide PairBits, LowBits, Digit, Pow2, InAlphabet, WholeBytes;
    var ok, out, n, nBits, value := ReadPairs(text);
    if !ok {
      return Err("Invalid Base91 character");
    }
    ghost var left := LowBits(n, nBits);
    WholeBytesOfData(out, left + OddBits(text));
    Regroup(DataBits(out), left, OddBits(text));
    if value != -1 {
      Widths();
      var bytes;
      bytes, n, nBits := PushValue(n, nBits, value, 7);
      WholeBytesOfData(bytes, LowBits(n, nBits));
      NoBytes(LowBits(n, nBits));
      assert bytes + [] == bytes;
      out := out + bytes;
    }
    NoBytes(LowBits(n, nBits));
    assert left + [] == left && out + [] == out;
    r := Ok(out);
  }

  method DecodeTextV3(text: string) returns (r: Result<seq<Byte>>)
    ensures r == DecodeV3(text)
  {
    hide PairBits, LowBits, Value91, Pow2, InAlphabet, WholeBytes, Num, DataBits, Scale, Leftover;
    var ok, out, n, nBits, value := ReadPairs(text);
    if !ok {
      return Err("Invalid Base91 character");
    }
    ghost var left := LowBits(n, nBits);
    WholeBytesOfData(out, left);
    NoBytes(left);
    assert out + [] == out;
    if value != -1 {
      LastByte(n, nBits, value);
      LeftoverOfData(out, left);
      out := out + [(n + Scale(value, nBits)) % 256];
    }
    r := Ok(out);
  }

  lemma LastByte(n: nat, nBits: nat, v: nat)
    requires n < Pow2(nBits) && v < 91
    ensures Num(LowBits(n, nBits) + LowBits(v, 7)) == n + Scale(v, nBits)
  {
    Widths();
    hide LowBits, Num;
    LowBitsJoin(n, nBits, v, 7);
    JoinBound(n, nBits, v, 7);
    NumOfLowBits(n + Scale(v, nBits), nBits + 7);
  }
}
