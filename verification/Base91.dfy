/** basE91: `_b91_encode` and its two decoders, `_b91_decode_v2` and `_b91_decode_v3`.

    The specification works on the whole bit string at once; the source works byte by byte and
    character by character with a small accumulator, and is proved to do the same. */
module Base91 {
  import opened Wrappers
  import opened Powers
  import opened ArithmeticCoder

  // ---------------------------------------------------------------- alphabet

  /** Position in the alphabet (letters, digits, then punctuation without space, ', - and \\, the
      double quote last); -1 for a character outside it. */
  function Digit(ch: char): (v: int)
    ensures -1 <= v < 91
  {
    var c := ch as int;
    if 65 <= c <= 90 then c - 65
    else if 97 <= c <= 122 then c - 71
    else if 48 <= c <= 57 then c + 4
    else if c == 33 then 62
    else if 35 <= c <= 38 then c + 28
    else if 40 <= c <= 44 then c + 27
    else if 46 <= c <= 47 then c + 26
    else if 58 <= c <= 64 then c + 16
    else if c == 91 then 81
    else if 93 <= c <= 96 then c - 11
    else if 123 <= c <= 126 then c - 37
    else if c == 34 then 90
    else -1
  }

  function CharOf(v: nat): (ch: char)
    requires v < 91
    ensures Digit(ch) == v
  {
    var c :=
      if v < 26 then v + 65
      else if v < 52 then v + 71
      else if v < 62 then v - 4
      else if v == 62 then 33
      else if v < 67 then v - 28
      else if v < 72 then v - 27
      else if v < 74 then v - 26
      else if v < 81 then v - 16
      else if v == 81 then 91
      else if v < 86 then v + 11
      else if v < 90 then v + 37
      else 34;
    c as char
  }

  // ---------------------------------------------------------------- bits, least significant first

  function LowBits(n: nat, w: nat): (bits: seq<Bit>)
    ensures |bits| == w
  {
    if w == 0 then [] else [n % 2] + LowBits(n / 2, w - 1)
  }

  function Num(bits: seq<Bit>): nat {
    if bits == [] then 0 else bits[0] + 2 * Num(bits[1..])
  }

  lemma {:induction false} NumBound(bits: seq<Bit>)
    ensures Num(bits) < Pow2(|bits|)
  {
    if bits != [] {
      NumBound(bits[1..]);
    }
  }

  lemma {:induction false} NumOfLowBits(n: nat, w: nat)
    requires n < Pow2(w)
    ensures Num(LowBits(n, w)) == n
  {
    if w > 0 {
      NumOfLowBits(n / 2, w - 1);
      assert LowBits(n, w)[1..] == LowBits(n / 2, w - 1);
    }
  }

  lemma {:induction false} LowBitsOfNum(bits: seq<Bit>)
    ensures LowBits(Num(bits), |bits|) == bits
  {
    if bits != [] {
      LowBitsOfNum(bits[1..]);
    }
  }

  /** Shifting a second number in above `a` bits appends its bits. */
  lemma {:induction false} LowBitsJoin(n: nat, a: nat, m: nat, b: nat)
    requires n < Pow2(a)
    ensures LowBits(n + Scale(m, a), a + b) == LowBits(n, a) + LowBits(m, b)
  {
    if a == 0 {
      assert LowBits(n, 0) + LowBits(m, b) == LowBits(m, b);
    } else {
      LowBitsJoin(n / 2, a - 1, m, b);
      assert (n + Scale(m, a)) / 2 == n / 2 + Scale(m, a - 1);
      assert (n + Scale(m, a)) % 2 == n % 2;
      assert [n % 2] + (LowBits(n / 2, a - 1) + LowBits(m, b)) == LowBits(n, a) + LowBits(m, b);
    }
  }

  lemma {:induction false} JoinBound(n: nat, a: nat, m: nat, b: nat)
    requires n < Pow2(a) && m < Pow2(b)
    ensures n + Scale(m, a) < Pow2(a + b)
  {
    if a > 0 {
      JoinBound(n / 2, a - 1, m, b);
    }
  }

  /** n / 2^k, as k halvings. */
  function Shr(n: nat, k: nat): nat {
    if k == 0 then n else Shr(n / 2, k - 1)
  }

  lemma {:induction false} LowBitsSplit(n: nat, a: nat, b: nat)
    ensures LowBits(n, a + b) == LowBits(n, a) + LowBits(Shr(n, a), b)
  {
    if a == 0 {
      assert LowBits(n, 0) + LowBits(n, b) == LowBits(n, b);
    } else {
      LowBitsSplit(n / 2, a - 1, b);
      assert [n % 2] + (LowBits(n / 2, a - 1) + LowBits(Shr(n, a), b)) == LowBits(n, a) + LowBits(Shr(n, a), b);
    }
  }

  lemma {:induction false} ShrBound(n: nat, a: nat, b: nat)
    requires n < Pow2(a + b)
    ensures Shr(n, a) < Pow2(b)
  {
    if a > 0 {
      ShrBound(n / 2, a - 1, b);
    }
  }

  lemma {:induction false} NumTake(n: nat, a: nat)
    ensures Num(LowBits(n, a)) + Scale(Shr(n, a), a) == n
  {
    if a > 0 {
      NumTake(n / 2, a - 1);
      assert LowBits(n, a)[1..] == LowBits(n / 2, a - 1);
    }
  }

  lemma Scale8(v: nat)
    ensures Scale(v, 8) == 256 * v
  {
    assert Scale(v, 1) == 2 * v;
    assert Scale(v, 3) == 8 * v;
    assert Scale(v, 5) == 32 * v;
    assert Scale(v, 7) == 128 * v;
  }

  lemma Widths()
    ensures Pow2(7) == 128 && Pow2(8) == 256 && Pow2(13) == 8192 && Pow2(14) == 16384
  {
    assert Pow2(4) == 16;
    assert Pow2(10) == 1024;
  }

  lemma DivModUnique(n: nat, q: nat, r: nat, d: nat)
    requires n == d * q + r && r < d
    ensures n / d == q && n % d == r
  {
    DivAtLeast(q, n, d);
    DivAtLeast(q + 1, n, d);
    assert d * (q + 1) == d * q + d;
  }

  /** Masking and shifting by 8, 13 or 14 bits. */
  lemma TakeLow(n: nat, w: nat)
    requires w == 8 || w == 13 || w == 14
    ensures Num(LowBits(n, w)) == n % Pow2(w) && Shr(n, w) == n / Pow2(w)
    ensures Pow2(8) == 256 && Pow2(13) == 8192 && Pow2(14) == 16384
  {
    hide Num, LowBits, Shr;
    NumTake(n, w);
    NumBound(LowBits(n, w));
    Widths();
    var q := Shr(n, w);
    Scale8(q);
    assert Scale(q, 10) == 1024 * q;
    assert Scale(q, 12) == 4096 * q;
    DivModUnique(n, q, Num(LowBits(n, w)), Pow2(w));
  }

  // ---------------------------------------------------------------- specification

  function DataBits(data: seq<Byte>): (bits: seq<Bit>)
    ensures |bits| == 8 * |data|
  {
    if data == [] then [] else LowBits(data[0], 8) + DataBits(data[1..])
  }

  /** How many bits a pair of characters carries: 13, or 14 when the low 13 are small. */
  function PairWidth(v: nat): (w: nat)
    ensures w == 13 || w == 14
    ensures w == 14 <==> v % 8192 + 8192 < 91 * 91
  {
    if v % 8192 > 88 then 13 else 14
  }

  function Pair(v: nat): string
    requires v < 91 * 91
  {
    [CharOf(v % 91), CharOf(v / 91)]
  }

  lemma PairFits(bits: seq<Bit>)
    requires |bits| > 13
    ensures var w := PairWidth(Num(bits[..13])); w <= |bits| && Num(bits[..w]) < 91 * 91 && PairWidth(Num(bits[..w])) == w
  {
    Widths();
    hide Num, LowBits, Pow2, Shr;
    var v := Num(bits[..13]);
    NumBound(bits[..13]);
    if v <= 88 {
      var v14 := Num(bits[..14]);
      NumBound(bits[..14]);
      LowBitsOfNum(bits[..14]);
      LowBitsSplit(v14, 13, 1);
      assert bits[..13] == LowBits(v14, 13);
      TakeLow(v14, 13);
    }
  }

  function EncodeBits(bits: seq<Bit>): string
    decreases |bits|
  {
    if |bits| > 13 then
      PairFits(bits);
      var w := PairWidth(Num(bits[..13]));
      Pair(Num(bits[..w])) + EncodeBits(bits[w..])
    else EncodeTail(bits)
  }

  function EncodeTail(bits: seq<Bit>): (text: string)
    requires |bits| <= 13
    ensures |text| == 1 <==> 0 < |bits| <= 7 && Num(bits) < 91
  {
    TailBound(bits);
    var n := Num(bits);
    if bits == [] then ""
    else if n >= 91 || |bits| > 7 then Pair(n)
    else [CharOf(n)]
  }

  lemma TailBound(bits: seq<Bit>)
    requires |bits| <= 13
    ensures Num(bits) < 8192
  {
    NumBound(bits);
    Pow2Monotone(|bits|, 13);
    Widths();
  }

  lemma {:induction false} Pow2Monotone(a: nat, b: nat)
    requires a <= b
    ensures Pow2(a) <= Pow2(b)
    decreases b - a
  {
    if a < b {
      Pow2Monotone(a, b - 1);
    }
  }

  predicate InAlphabet(text: string) {
    forall i :: 0 <= i < |text| ==> Digit(text[i]) >= 0
  }

  function Value91(ch: char): (v: nat)
    ensures v < 91
  {
    if Digit(ch) >= 0 then Digit(ch) else 0
  }

  /** The bits carried by the character pairs of a text, a last odd character left out. */
  function PairBits(text: string): seq<Bit> {
    if |text| < 2 then []
    else
      var v := Value91(text[0]) + 91 * Value91(text[1]);
      LowBits(v, PairWidth(v)) + PairBits(text[2..])
  }

  function OddBits(text: string): seq<Bit> {
    if |text| % 2 == 1 then LowBits(Value91(text[|text| - 1]), 7) else []
  }

  /** Whole bytes of a bit string; up to seven left-over bits are dropped. */
  function WholeBytes(bits: seq<Bit>): (data: seq<Byte>)
    decreases |bits|
  {
    if |bits| < 8 then []
    else ByteOfBits(bits) ; [Num(bits[..8])] + WholeBytes(bits[8..])
  }

  lemma ByteOfBits(bits: seq<Bit>)
    requires |bits| >= 8
    ensures Num(bits[..8]) < 256
  {
    NumBound(bits[..8]);
    Widths();
  }

  function DecodeV2(text: string): Result<seq<Byte>> {
    if InAlphabet(text) then Ok(WholeBytes(PairBits(text) + OddBits(text)))
    else Err("Invalid Base91 character")
  }

  /** The bits that `WholeBytes` drops. */
  function Leftover(bits: seq<Bit>): (r: seq<Bit>)
    ensures |r| < 8 && |r| % 8 == |bits| % 8
    decreases |bits|
  {
    if |bits| < 8 then bits else Leftover(bits[8..])
  }

  /** The second decoder makes one byte of a last odd character and whatever the pairs left over. */
  function OddByte(text: string): seq<Byte> {
    if |text| % 2 == 1 then [Num(Leftover(PairBits(text)) + OddBits(text)) % 256] else []
  }

  function DecodeV3(text: string): Result<seq<Byte>> {
    if InAlphabet(text) then Ok(WholeBytes(PairBits(text)) + OddByte(text))
    else Err("Invalid Base91 character")
  }

  // ---------------------------------------------------------------- the two decoders compared

  lemma FirstByte(bits: seq<Bit>)
    requires |bits| >= 8
    ensures WholeBytes(bits) == [Num(bits[..8])] + WholeBytes(bits[8..])
  {
  }

  lemma NoBytes(bits: seq<Bit>)
    requires |bits| < 8
    ensures WholeBytes(bits) == [] && Leftover(bits) == bits
  {
  }

  lemma {:induction false} WholeBytesSplit(a: seq<Bit>, b: seq<Bit>)
    ensures WholeBytes(a + b) == WholeBytes(a) + WholeBytes(Leftover(a) + b)
    decreases |a|
  {
    hide Num, WholeBytes;
    if |a| >= 8 {
      FirstByte(a);
      FirstByte(a + b);
      assert (a + b)[..8] == a[..8] && (a + b)[8..] == a[8..] + b;
      WholeBytesSplit(a[8..], b);
    } else {
      NoBytes(a);
    }
  }

  lemma OneByte(bits: seq<Bit>)
    requires 8 <= |bits| < 16
    ensures WholeBytes(bits) == [Num(bits) % 256]
  {
    LowBitsOfNum(bits);
    LowBitsSplit(Num(bits), 8, |bits| - 8);
    TakeLow(Num(bits), 8);
    assert bits[..8] == LowBits(Num(bits), 8);
  }

  lemma OddCharacter(left: seq<Bit>, v: nat)
    requires |left| < 8 && v < 91
    ensures var all := left + LowBits(v, 7);
            if left == [] then WholeBytes(all) == [] && Num(all) % 256 == v else WholeBytes(all) == [Num(all) % 256]
  {
    hide Num, LowBits, WholeBytes;
    if left == [] {
      Widths();
      NumOfLowBits(v, 7);
      NoBytes(LowBits(v, 7));
      assert left + LowBits(v, 7) == LowBits(v, 7);
    } else {
      OneByte(left + LowBits(v, 7));
    }
  }

  /** On any alphabet text the decoders agree, except that after pairs ending on a byte boundary the
      second one turns a last odd character into one more byte. */
  lemma DecodersCompared(text: string)
    requires InAlphabet(text)
    ensures var surplus := if |text| % 2 == 1 && |PairBits(text)| % 8 == 0 then [Value91(text[|text| - 1])] else [];
            DecodeV3(text) == Ok(DecodeV2(text).value + surplus)
  {
    hide Num, PairBits, Value91, LowBits, WholeBytes, Leftover, InAlphabet;
    var p := PairBits(text);
    var l := Leftover(p);
    assert |p| % 8 == 0 <==> l == [];
    WholeBytesSplit(p, OddBits(text));
    if |text| % 2 == 1 {
      OddCharacter(l, Value91(text[|text| - 1]));
    } else {
      assert l + [] == l;
      NoBytes(l);
    }
    assert forall s: seq<Byte> :: s + [] == s;
  }

  // ---------------------------------------------------------------- round trip

  lemma PairParses(v: nat)
    requires v < 91 * 91
    ensures InAlphabet(Pair(v)) && Value91(Pair(v)[0]) + 91 * Value91(Pair(v)[1]) == v
  {
  }

  lemma PairBitsCons(v: nat, rest: string)
    requires v < 91 * 91
    ensures PairBits(Pair(v) + rest) == LowBits(v, PairWidth(v)) + PairBits(rest)
    ensures OddBits(Pair(v) + rest) == OddBits(rest)
    ensures |Pair(v) + rest| == |rest| + 2
    ensures InAlphabet(rest) ==> InAlphabet(Pair(v) + rest)
  {
    PairParses(v);
    TextCons(Pair(v), rest);
  }

  lemma TextCons(pair: string, rest: string)
    requires |pair| == 2
    ensures var v := Value91(pair[0]) + 91 * Value91(pair[1]);
            PairBits(pair + rest) == LowBits(v, PairWidth(v)) + PairBits(rest)
    ensures OddBits(pair + rest) == OddBits(rest)
    ensures InAlphabet(pair) && InAlphabet(rest) ==> InAlphabet(pair + rest)
  {
    hide Digit, Value91, PairWidth, LowBits;
    var t := pair + rest;
    assert t[2..] == rest && t[0] == pair[0] && t[1] == pair[1];
    assert |t| % 2 == |rest| % 2;
  }

  lemma ShortIsSmall(bits: seq<Bit>)
    ensures |bits| <= 6 ==> Num(bits) < 64
  {
    if |bits| <= 6 {
      NumBound(bits);
      Pow2Monotone(|bits|, 6);
      assert Pow2(6) == 64;
    }
  }

  /** The tail adds fewer than eight bits beyond the data, and is a single character only when the
      pairs before it end inside a byte. */
  lemma TailPairDecodes(bits: seq<Bit>)
    requires 0 < |bits| <= 13 && (Num(bits) >= 91 || |bits| > 7)
    ensures Num(bits) < 91 * 91
    ensures var t := Pair(Num(bits));
            && InAlphabet(t) && |t| == 2 && OddBits(t) == []
            && |bits| <= |PairBits(t)| < |bits| + 8 && PairBits(t)[..|bits|] == bits
  {
    TailBound(bits);
    var n := Num(bits);
    ShortIsSmall(bits);
    LowBitsOfNum(bits);
    hide Num;
    assert Pair(n) + "" == Pair(n);
    PairBitsCons(n, "");
    var w := PairWidth(n);
    hide Pair, PairBits, OddBits, InAlphabet;
    NoBits();
    LowBitsSplit(n, |bits|, w - |bits|);
    hide LowBits;
    assert LowBits(n, w) + [] == LowBits(n, w);
  }

  lemma NoBits()
    ensures PairBits("") == [] && OddBits("") == [] && InAlphabet("")
  {
  }

  lemma TailCharDecodes(bits: seq<Bit>)
    requires 0 < |bits| <= 7 && Num(bits) < 91
    ensures var t := [CharOf(Num(bits))];
            InAlphabet(t) && PairBits(t) == [] && |OddBits(t)| == 7 && OddBits(t)[..|bits|] == bits
  {
    var n := Num(bits);
    LowBitsOfNum(bits);
    LowBitsSplit(n, |bits|, 7 - |bits|);
    hide Num, LowBits;
  }

  lemma TailDecodes(bits: seq<Bit>)
    requires |bits| <= 13
    ensures InAlphabet(EncodeTail(bits)) && |EncodeTail(bits)| <= 2
    ensures var t := EncodeTail(bits); var all := PairBits(t) + OddBits(t);
            |bits| <= |all| < |bits| + 8 && all[..|bits|] == bits
    ensures |EncodeTail(bits)| == 1 ==> PairBits(EncodeTail(bits)) == [] && 0 < |bits| <= 7
  {
    hide Num, Pair, PairBits, OddBits, InAlphabet, CharOf;
    if bits == [] {
      NoBits();
    } else if Num(bits) >= 91 || |bits| > 7 {
      TailPairDecodes(bits);
      var t := Pair(Num(bits));
      assert PairBits(t) + [] == PairBits(t);
    } else {
      TailCharDecodes(bits);
      var t := [CharOf(Num(bits))];
      assert [] + OddBits(t) == OddBits(t);
    }
  }

  /** Decoding the text of a bit string gives the bits back, plus fewer than eight more. */
  lemma {:induction false} TextCarriesBits(bits: seq<Bit>)
    ensures var t := EncodeBits(bits);
            && InAlphabet(t)
            && |bits| <= |PairBits(t) + OddBits(t)| < |bits| + 8
            && (PairBits(t) + OddBits(t))[..|bits|] == bits
            && (|t| % 2 == 1 ==> |bits| - 7 <= |PairBits(t)| < |bits|)
    decreases |bits|
  {
    hide Digit, Pair, PairWidth, Num, OddBits, PairBits, LowBits, InAlphabet;
    if |bits| > 13 {
      PairFits(bits);
      var w := PairWidth(Num(bits[..13]));
      var v := Num(bits[..w]);
      var rest := EncodeBits(bits[w..]);
      TextCarriesBits(bits[w..]);
      PairBitsCons(v, rest);
      LowBitsOfNum(bits[..w]);
      assert LowBits(v, w) + PairBits(rest) + OddBits(rest) == bits[..w] + (PairBits(rest) + OddBits(rest));
      assert bits == bits[..w] + bits[w..];
    } else {
      TailDecodes(bits);
    }
  }

  lemma {:induction false} WholeBytesOfData(data: seq<Byte>, rest: seq<Bit>)
    ensures WholeBytes(DataBits(data) + rest) == data + WholeBytes(rest)
  {
    hide Num, LowBits, WholeBytes;
    if data == [] {
      assert DataBits(data) + rest == rest;
    } else {
      var all := DataBits(data) + rest;
      Widths();
      NumOfLowBits(data[0], 8);
      assert all[..8] == LowBits(data[0], 8);
      assert all[8..] == DataBits(data[1..]) + rest;
      FirstByte(all);
      WholeBytesOfData(data[1..], rest);
      assert [data[0]] + (data[1..] + WholeBytes(rest)) == data + WholeBytes(rest);
    }
  }


  lemma {:induction false} LeftoverOfData(data: seq<Byte>, rest: seq<Bit>)
    ensures Leftover(DataBits(data) + rest) == Leftover(rest)
  {
    hide LowBits;
    if data == [] {
      assert DataBits(data) + rest == rest;
    } else {
      assert (DataBits(data) + rest)[8..] == DataBits(data[1..]) + rest;
      LeftoverOfData(data[1..], rest);
    }
  }

  function Encode91(data: seq<Byte>): string {
    EncodeBits(DataBits(data))
  }

  /** Both decoders invert the encoder, on every byte string. */
  lemma BothInvert(data: seq<Byte>)
    ensures DecodeV2(Encode91(data)) == Ok(data) == DecodeV3(Encode91(data))
  {
    hide Digit, Pair, PairWidth, Num, OddBits, PairBits, LowBits, InAlphabet, EncodeBits;
    var bits := DataBits(data);
    var t := EncodeBits(bits);
    TextCarriesBits(bits);
    var all := PairBits(t) + OddBits(t);
    assert all == bits + all[|bits|..];
    WholeBytesOfData(data, all[|bits|..]);
    DecodersCompared(t);
    assert data + [] == data;
    assert |t| % 2 == 1 ==> 8 * (|data| - 1) < |PairBits(t)| < 8 * |data|;
  }

  /** Every pair uses up at least thirteen bits. */
  lemma {:induction false} EncodedLength(bits: seq<Bit>)
    ensures |EncodeBits(bits)| <= 2 * (|bits| / 13) + 2
    decreases |bits|
  {
    if |bits| > 13 {
      PairFits(bits);
      var rest := bits[PairWidth(Num(bits[..13]))..];
      EncodedLength(rest);
      assert EncodeBits(bits) == Pair(Num(bits[..|bits| - |rest|])) + EncodeBits(rest);
      assert |rest| / 13 + 1 == (|rest| + 13) / 13 <= |bits| / 13;
      assert |EncodeBits(bits)| == 2 + |EncodeBits(rest)|;
    } else {
      TailDecodes(bits);
      assert |EncodeBits(bits)| == |EncodeTail(bits)|;
    }
  }
}
