/** Text to packed bits and back: the escape sub-model, `_compress_arithmetic_bits`,
    `_bits_to_bytes`, `_bits_to_min_bytes` and `_decode_arithmetic`. */
module MeshCodec {
  import opened Wrappers
  import opened ArithmeticCoder
  import opened FrequencyTable
  import opened Utf8

  const DECODE_HARD_LIMIT: nat := 4096
  const NUM_BLOCKS: nat := 10

  // ---------------------------------------------------------------- escape sub-model

  /** Inclusive codepoint blocks, by block id. */
  const UNICODE_BLOCKS: seq<(int, int)> := [
    (0x0400, 0x04FF), (0x0100, 0x024F), (0x2000, 0x206F), (0x2190, 0x21FF), (0x2600, 0x27BF),
    (0x1F300, 0x1F5FF), (0x1F600, 0x1F64F), (0x1F900, 0x1F9FF), (0xFE00, 0xFE0F), (0x1FA70, 0x1FAFF)]

  predicate InBlock(cp: int, b: nat)
    requires b < NUM_BLOCKS
  {
    UNICODE_BLOCKS[b].0 <= cp <= UNICODE_BLOCKS[b].1
  }

  function BlockSize(b: nat): (n: nat)
    requires b < NUM_BLOCKS
    ensures 0 < n <= 768
  {
    assert b == 0 || b == 1 || b == 2 || b == 3 || b == 4 || b == 5 || b == 6 || b == 7 || b == 8 || b == 9;
    UNICODE_BLOCKS[b].1 - UNICODE_BLOCKS[b].0 + 1
  }

  /** The first block holding a codepoint, or NUM_BLOCKS for the fallback. */
  function BlockOf(cp: int, from: nat): (b: nat)
    requires from <= NUM_BLOCKS
    ensures from <= b <= NUM_BLOCKS
    ensures b < NUM_BLOCKS ==> InBlock(cp, b)
    ensures forall k :: from <= k < b ==> !InBlock(cp, k)
    decreases NUM_BLOCKS - from
  {
    if from == NUM_BLOCKS then from
    else if InBlock(cp, from) then from
    else BlockOf(cp, from + 1)
  }

  function EncodeCodepoint(c: Coder, cp: nat): (r: Coder)
    requires Settled(c.iv)
    ensures Settled(r.iv)
  {
    var b := BlockOf(cp, 0);
    var c1 := Encode(c, UniformSlice(b, NUM_BLOCKS + 1));
    if b < NUM_BLOCKS then
      Encode(c1, UniformSlice(cp - UNICODE_BLOCKS[b].0, BlockSize(b)))
    else EncodeGroups(c1, cp)
  }

  /** The fallback: three 7-bit groups, lowest first. */
  function EncodeGroups(c: Coder, cp: nat): (r: Coder)
    requires Settled(c.iv)
    ensures Settled(r.iv)
  {
    var c1 := Encode(c, UniformSlice(cp % 128, 128));
    var c2 := Encode(c1, UniformSlice(cp / 128 % 128, 128));
    Encode(c2, UniformSlice(cp / 16384 % 128, 128))
  }

  function DecodeCodepoint(data: seq<Byte>, d: Decoder): (r: (nat, Decoder))
    requires Tracking(d)
    ensures Tracking(r.1)
  {
    var (b, d1) := DecodeUniform(data, d, NUM_BLOCKS + 1);
    if b < NUM_BLOCKS then
      var (offset, d2) := DecodeUniform(data, d1, BlockSize(b));
      (UNICODE_BLOCKS[b].0 + offset, d2)
    else DecodeGroups(data, d1)
  }

  function DecodeGroups(data: seq<Byte>, d: Decoder): (r: (nat, Decoder))
    requires Tracking(d)
    ensures Tracking(r.1)
  {
    var (b0, d1) := DecodeUniform(data, d, 128);
    var (b1, d2) := DecodeUniform(data, d1, 128);
    var (b2, d3) := DecodeUniform(data, d2, 128);
    (b0 + 128 * b1 + 16384 * b2, d3)
  }

  // ---------------------------------------------------------------- text

  function LastIndex(vocab: seq<char>, ch: char): (i: nat)
    requires ch in vocab
    ensures i < |vocab| && vocab[i] == ch
    ensures forall j :: i < j < |vocab| ==> vocab[j] != ch
  {
    if vocab[|vocab| - 1] == ch then |vocab| - 1 else LastIndex(vocab[..|vocab| - 1], ch)
  }

  function AppendContext(context: Context, ch: char, order: nat): Context {
    var combined := context + [ch];
    // A negative-zero slice keeps everything, so order 0 never shortens the context.
    if |combined| <= order || order == 0 then combined else combined[|combined| - order..]
  }

  function StartContext(m: Model): Context {
    seq(m.order, _ => BOS)
  }

  function HasExtras(m: Model, text: string): bool {
    exists i :: 0 <= i < |text| && text[i] !in m.vocab
  }

  /** Escapes are switched on for unknown characters. */
  predicate Encodable(m: Model, text: string, escapes: bool) {
    forall i :: 0 <= i < |text| ==> text[i] in m.vocab || escapes
  }

  /** A literal ESC is a vocabulary symbol like any other; with escapes off its slice may be empty. */
  function SymbolSlice(m: Model, context: Context, escapes: bool, ch: char): (s: Slice)
    requires ValidModel(m) && ch in m.vocab
    ensures Countable(s) && (ch != ESC || escapes ==> Codable(s))
  {
    CdfIsUsable(m, context, escapes);
    SliceIsOpen(m, context, escapes, LastIndex(m.vocab, ch));
    SliceAt(Cdf(m, context, escapes), LastIndex(m.vocab, ch))
  }

  function EncodeChar(m: Model, c: Coder, context: Context, escapes: bool, ch: char): (r: Coder)
    requires ValidModel(m) && Settled(c.iv) && (ch in m.vocab || escapes)
    ensures Settled(r.iv)
  {
    if ch in m.vocab then Encode(c, SymbolSlice(m, context, escapes, ch))
    else EncodeCodepoint(Encode(c, SymbolSlice(m, context, escapes, ESC)), ch as int)
  }

  function EncodeText(m: Model, c: Coder, context: Context, escapes: bool, text: string): (r: Coder)
    requires ValidModel(m) && Settled(c.iv) && Encodable(m, text, escapes)
    ensures Settled(r.iv)
    decreases |text|
  {
    if text == [] then Encode(c, SymbolSlice(m, context, escapes, EOF))
    else
      EncodeText(m, EncodeChar(m, c, context, escapes, text[0]),
                 AppendContext(context, text[0], m.order), escapes, text[1..])
  }

  /** The coded bits of a text, with the flag saying whether escapes were needed. */
  function CompressBits(m: Model, text: string): (bool, seq<Bit>)
    requires ValidModel(m)
  {
    var escapes := HasExtras(m, text);
    (escapes, Finish(EncodeText(m, FRESH_CODER, StartContext(m), escapes, text)))
  }

  /** One turn of the decode loop: the end, a character, or an escape that is no character. */
  datatype Turn = Stop | Char(ch: char, d: Decoder) | Bad

  function DecodeTurn(m: Model, data: seq<Byte>, d: Decoder, context: Context, escapes: bool): (t: Turn)
    requires ValidModel(m) && Tracking(d)
    ensures t.Char? ==> Tracking(t.d)
  {
    CdfIsUsable(m, context, escapes);
    var (index, d1) := DecodeIndex(data, d, Cdf(m, context, escapes));
    var symbol := m.vocab[index];
    if symbol == EOF then Stop
    else if symbol == ESC && escapes then
      var (cp, d2) := DecodeCodepoint(data, d1);
      if IsScalar(cp) then Char(cp as char, d2) else Bad
    else Char(symbol, d1)
  }

  /** Decode symbols until EOF or until `limit` characters have been produced. */
  function DecodeFrom(m: Model, data: seq<Byte>, d: Decoder, context: Context, escapes: bool, limit: nat): Result<string>
    requires ValidModel(m) && Tracking(d)
    decreases limit
  {
    if limit == 0 then Ok("")
    else
      match DecodeTurn(m, data, d, context, escapes)
      case Stop => Ok("")
      case Bad => Err("Invalid decoded codepoint")
      case Char(ch, d1) =>
        Prepend(ch, DecodeFrom(m, data, d1, AppendContext(context, ch, m.order), escapes, limit - 1))
  }

  function DecodeArithmetic(m: Model, data: seq<Byte>, escapes: bool): Result<string>
    requires ValidModel(m)
  {
    StartTracks(data);
    DecodeFrom(m, data, StartDecoder(data), StartContext(m), escapes, DECODE_HARD_LIMIT)
  }

  // ---------------------------------------------------------------- lock-step through a text

  lemma GroupsHoldBack(data: seq<Byte>, c: Coder, cp: nat)
    requires Settled(c.iv) && Holds(data, EncodeGroups(c, cp))
    ensures Holds(data, c)
    ensures var c1 := Encode(c, UniformSlice(cp % 128, 128));
            Holds(data, c1) && Holds(data, Encode(c1, UniformSlice(cp / 128 % 128, 128)))
  {
    var c1 := Encode(c, UniformSlice(cp % 128, 128));
    var c2 := Encode(c1, UniformSlice(cp / 128 % 128, 128));
    EncodeHoldsBack(data, c2, UniformSlice(cp / 16384 % 128, 128));
    EncodeHoldsBack(data, c1, UniformSlice(cp / 128 % 128, 128));
    EncodeHoldsBack(data, c, UniformSlice(cp % 128, 128));
  }

  lemma CodepointHoldsBack(data: seq<Byte>, c: Coder, cp: nat)
    requires Settled(c.iv) && Holds(data, EncodeCodepoint(c, cp))
    ensures Holds(data, c) && Holds(data, Encode(c, UniformSlice(BlockOf(cp, 0), NUM_BLOCKS + 1)))
  {
    var b := BlockOf(cp, 0);
    var c1 := Encode(c, UniformSlice(b, NUM_BLOCKS + 1));
    if b < NUM_BLOCKS {
      EncodeHoldsBack(data, c1, UniformSlice(cp - UNICODE_BLOCKS[b].0, BlockSize(b)));
    } else {
      GroupsHoldBack(data, c1, cp);
    }
    EncodeHoldsBack(data, c, UniformSlice(b, NUM_BLOCKS + 1));
  }

  lemma SevenBitGroups(cp: nat)
    requires cp < 0x200000
    ensures cp % 128 + 128 * (cp / 128 % 128) + 16384 * (cp / 16384 % 128) == cp
  {
  }

  lemma GroupsSynced(data: seq<Byte>, c: Coder, d: Decoder, cp: nat)
    requires Settled(c.iv) && Synced(data, c, d) && Holds(data, EncodeGroups(c, cp)) && cp < 0x200000
    ensures Tracking(d) && DecodeGroups(data, d).0 == cp
    ensures Synced(data, EncodeGroups(c, cp), DecodeGroups(data, d).1)
  {
    GroupsHoldBack(data, c, cp);
    var c1 := Encode(c, UniformSlice(cp % 128, 128));
    var c2 := Encode(c1, UniformSlice(cp / 128 % 128, 128));
    UniformSynced(data, c, d, cp % 128, 128);
    var d1 := DecodeUniform(data, d, 128).1;
    UniformSynced(data, c1, d1, cp / 128 % 128, 128);
    var d2 := DecodeUniform(data, d1, 128).1;
    UniformSynced(data, c2, d2, cp / 16384 % 128, 128);
    SevenBitGroups(cp);
  }

  /** The escape sub-model returns the codepoint it was given, through a block or the fallback. */
  lemma CodepointSynced(data: seq<Byte>, c: Coder, d: Decoder, cp: nat)
    requires Settled(c.iv) && Synced(data, c, d) && Holds(data, EncodeCodepoint(c, cp)) && cp < 0x200000
    ensures Tracking(d) && DecodeCodepoint(data, d).0 == cp
    ensures Synced(data, EncodeCodepoint(c, cp), DecodeCodepoint(data, d).1)
  {
    hide Encode, Holds, Synced, EncodeGroups, DecodeGroups, DecodeUniform;
    CodepointHoldsBack(data, c, cp);
    var b := BlockOf(cp, 0);
    var c1 := Encode(c, UniformSlice(b, NUM_BLOCKS + 1));
    UniformSynced(data, c, d, b, NUM_BLOCKS + 1);
    var d1 := DecodeUniform(data, d, NUM_BLOCKS + 1).1;
    if b < NUM_BLOCKS {
      UniformSynced(data, c1, d1, cp - UNICODE_BLOCKS[b].0, BlockSize(b));
    } else {
      GroupsSynced(data, c1, d1, cp);
    }
  }

  /** The character is not ESC, or ESC has a frequency where it stands. */
  predicate OpenAt(m: Model, context: Context, escapes: bool, ch: char)
    requires ValidModel(m)
  {
    ch != ESC || Frequencies(m, context, escapes)[LastIndex(m.vocab, ESC)] > 0
  }

  predicate Open(m: Model, context: Context, escapes: bool, text: string)
    requires ValidModel(m)
    decreases |text|
  {
    text == [] || (OpenAt(m, context, escapes, text[0])
                   && Open(m, AppendContext(context, text[0], m.order), escapes, text[1..]))
  }

  lemma OpenIsCodable(m: Model, context: Context, escapes: bool, ch: char)
    requires ValidModel(m) && ch in m.vocab
    ensures OpenAt(m, context, escapes, ch) <==> Codable(SymbolSlice(m, context, escapes, ch))
  {
    hide Frequencies, Cdf;
    SliceIsOpen(m, context, escapes, LastIndex(m.vocab, ch));
  }

  lemma {:induction false} OpenWithout(m: Model, context: Context, escapes: bool, text: string)
    requires ValidModel(m) && (escapes || ESC !in text)
    ensures Open(m, context, escapes, text)
    decreases |text|
  {
    if text != [] {
      OpenWithout(m, AppendContext(context, text[0], m.order), escapes, text[1..]);
    }
  }

  lemma CharHoldsBack(m: Model, data: seq<Byte>, c: Coder, context: Context, escapes: bool, ch: char)
    requires ValidModel(m) && Settled(c.iv) && (ch in m.vocab || escapes) && OpenAt(m, context, escapes, ch)
    requires Holds(data, EncodeChar(m, c, context, escapes, ch))
    ensures Holds(data, c)
  {
    if ch in m.vocab {
      OpenIsCodable(m, context, escapes, ch);
      EncodeHoldsBack(data, c, SymbolSlice(m, context, escapes, ch));
    } else {
      var s := SymbolSlice(m, context, escapes, ESC);
      CodepointHoldsBack(data, Encode(c, s), ch as int);
      EncodeHoldsBack(data, c, s);
    }
  }

  lemma {:induction false} TextHoldsBack(m: Model, data: seq<Byte>, c: Coder, context: Context, escapes: bool, text: string)
    requires ValidModel(m) && Settled(c.iv) && Encodable(m, text, escapes) && Open(m, context, escapes, text)
    requires Holds(data, EncodeText(m, c, context, escapes, text))
    ensures Holds(data, c)
    decreases |text|
  {
    if text == [] {
      EncodeHoldsBack(data, c, SymbolSlice(m, context, escapes, EOF));
    } else {
      var c1 := EncodeChar(m, c, context, escapes, text[0]);
      TextHoldsBack(m, data, c1, AppendContext(context, text[0], m.order), escapes, text[1..]);
      CharHoldsBack(m, data, c, context, escapes, text[0]);
    }
  }

  lemma SymbolDecodes(m: Model, data: seq<Byte>, c: Coder, d: Decoder, context: Context, escapes: bool, ch: char)
    requires ValidModel(m) && Settled(c.iv) && ch in m.vocab && Codable(SymbolSlice(m, context, escapes, ch))
    requires Synced(data, c, d) && Holds(data, Encode(c, SymbolSlice(m, context, escapes, ch)))
    ensures Tracking(d) && IsCdf(Cdf(m, context, escapes))
    ensures var (index, d1) := DecodeIndex(data, d, Cdf(m, context, escapes));
            m.vocab[index] == ch && Synced(data, Encode(c, SymbolSlice(m, context, escapes, ch)), d1)
  {
    CdfIsUsable(m, context, escapes);
    IndexSynced(data, c, d, Cdf(m, context, escapes), LastIndex(m.vocab, ch));
  }

  /** What a receiver gets of a text: it stops at the first EOF character and at the hard limit. */
  function Received(text: string, limit: nat): string {
    if text == [] || limit == 0 || text[0] == EOF then ""
    else [text[0]] + Received(text[1..], limit - 1)
  }

  lemma SyncedTracks(data: seq<Byte>, c: Coder, d: Decoder)
    requires Settled(c.iv) && Synced(data, c, d) && Holds(data, c)
    ensures Tracking(d)
  {
  }

  /** One character, in the vocabulary or escaped, comes back and leaves both sides in step. */
  lemma CharDecodes(m: Model, data: seq<Byte>, c: Coder, d: Decoder, context: Context, escapes: bool, ch: char)
    requires ValidModel(m) && Settled(c.iv) && (ch in m.vocab || escapes)
    requires OpenAt(m, context, escapes, ch) && !(ch == ESC && escapes)
    requires Synced(data, c, d) && Holds(data, EncodeChar(m, c, context, escapes, ch))
    ensures Tracking(d)
    ensures var t := DecodeTurn(m, data, d, context, escapes);
            if ch == EOF then t == Stop
            else t.Char? && t.ch == ch && Synced(data, EncodeChar(m, c, context, escapes, ch), t.d)
  {
    hide Synced, Holds, Encode, SymbolSlice, EncodeCodepoint, DecodeCodepoint, DecodeIndex, Cdf, OpenAt;
    if ch in m.vocab {
      OpenIsCodable(m, context, escapes, ch);
      SymbolDecodes(m, data, c, d, context, escapes, ch);
    } else {
      var s := SymbolSlice(m, context, escapes, ESC);
      CodepointHoldsBack(data, Encode(c, s), ch as int);
      SymbolDecodes(m, data, c, d, context, escapes, ESC);
      var d1 := DecodeIndex(data, d, Cdf(m, context, escapes)).1;
      CodepointSynced(data, Encode(c, s), d1, ch as int);
    }
  }

  lemma EndDecodes(m: Model, data: seq<Byte>, c: Coder, d: Decoder, context: Context, escapes: bool)
    requires ValidModel(m) && Settled(c.iv) && Synced(data, c, d)
    requires Holds(data, Encode(c, SymbolSlice(m, context, escapes, EOF)))
    ensures Tracking(d) && DecodeTurn(m, data, d, context, escapes) == Stop
  {
    SymbolDecodes(m, data, c, d, context, escapes, EOF);
  }

  /** A decoder in step with the encoder at the start of a text reads the text back. */
  lemma {:induction false} TextDecodes(m: Model, data: seq<Byte>, c: Coder, d: Decoder, context: Context,
                                       escapes: bool, text: string, limit: nat)
    requires ValidModel(m) && Settled(c.iv) && Encodable(m, text, escapes)
    requires Open(m, context, escapes, text) && (escapes ==> ESC !in text)
    requires Synced(data, c, d) && Holds(data, EncodeText(m, c, context, escapes, text))
    ensures Tracking(d)
    ensures DecodeFrom(m, data, d, context, escapes, limit) == Ok(Received(text, limit))
    decreases limit
  {
    hide EncodeChar, DecodeTurn, Holds, Synced, AppendContext, SymbolSlice, Encode, OpenAt;
    TextHoldsBack(m, data, c, context, escapes, text);
    SyncedTracks(data, c, d);
    if limit > 0 {
      if text == [] {
        EndDecodes(m, data, c, d, context, escapes);
      } else {
        var ch := text[0];
        var c1 := EncodeChar(m, c, context, escapes, ch);
        var next := AppendContext(context, ch, m.order);
        TextHoldsBack(m, data, c1, next, escapes, text[1..]);
        CharDecodes(m, data, c, d, context, escapes, ch);
        if ch != EOF {
          var d1 := DecodeTurn(m, data, d, context, escapes).d;
          TextDecodes(m, data, c1, d1, next, escapes, text[1..], limit - 1);
        }
      }
    }
  }

  // ---------------------------------------------------------------- packing

  /** Eight bits, most significant first; missing ones are zero. */
  function PackByte(bits: seq<Bit>): (b: Byte)
  {
    128 * BitOr0(bits, 0) + 64 * BitOr0(bits, 1) + 32 * BitOr0(bits, 2) + 16 * BitOr0(bits, 3)
    + 8 * BitOr0(bits, 4) + 4 * BitOr0(bits, 5) + 2 * BitOr0(bits, 6) + BitOr0(bits, 7)
  }

  function BitOr0(bits: seq<Bit>, i: nat): Bit {
    if i < |bits| then bits[i] else 0
  }

  function PackBits(bits: seq<Bit>): (data: seq<Byte>)
    ensures |data| == (|bits| + 7) / 8
  {
    if |bits| == 0 then [] else if |bits| <= 8 then [PackByte(bits)]
    else [PackByte(bits[..8])] + PackBits(bits[8..])
  }

  lemma DigitAt(hi: nat, bit: Bit, lo: nat, w: nat)
    requires lo < w
    ensures ((2 * hi + bit) * w + lo) / w % 2 == bit
  {
    var q := 2 * hi + bit;
    DivAtLeast(q, q * w + lo, w);
    DivAtLeast(q + 1, q * w + lo, w);
    assert w * (q + 1) == q * w + w;
  }

  lemma PackByteBits(bits: seq<Bit>, k: nat)
    requires k < 8
    ensures ByteBit(PackByte(bits), k) == BitOr0(bits, k)
  {
    var b0: int, b1: int, b2: int, b3: int := BitOr0(bits, 0), BitOr0(bits, 1), BitOr0(bits, 2), BitOr0(bits, 3);
    var b4: int, b5: int, b6: int, b7: int := BitOr0(bits, 4), BitOr0(bits, 5), BitOr0(bits, 6), BitOr0(bits, 7);
    match k {
      case 0 => DigitAt(0, b0, 64 * b1 + 32 * b2 + 16 * b3 + 8 * b4 + 4 * b5 + 2 * b6 + b7, 128);
      case 1 => DigitAt(b0, b1, 32 * b2 + 16 * b3 + 8 * b4 + 4 * b5 + 2 * b6 + b7, 64);
      case 2 => DigitAt(2 * b0 + b1, b2, 16 * b3 + 8 * b4 + 4 * b5 + 2 * b6 + b7, 32);
      case 3 => DigitAt(4 * b0 + 2 * b1 + b2, b3, 8 * b4 + 4 * b5 + 2 * b6 + b7, 16);
      case 4 => DigitAt(8 * b0 + 4 * b1 + 2 * b2 + b3, b4, 4 * b5 + 2 * b6 + b7, 8);
      case 5 => DigitAt(16 * b0 + 8 * b1 + 4 * b2 + 2 * b3 + b4, b5, 2 * b6 + b7, 4);
      case 6 => DigitAt(32 * b0 + 16 * b1 + 8 * b2 + 4 * b3 + 2 * b4 + b5, b6, b7, 2);
      case 7 => DigitAt(64 * b0 + 32 * b1 + 16 * b2 + 8 * b3 + 4 * b4 + 2 * b5 + b6, b7, 0, 1);
    }
  }

  /** Packing into bytes keeps the stream: the same bits, then zeros. */
  lemma {:induction false} PackCarriesAt(bits: seq<Bit>, i: nat)
    ensures BitAt(PackBits(bits), i) == BitOr0(bits, i)
    decreases i
  {
    if |bits| > 0 {
      if i < 8 {
        PackByteBits(bits, i);
        if |bits| > 8 {
          PackByteBits(bits[..8], i);
        }
      } else if |bits| > 8 {
        PackCarriesAt(bits[8..], i - 8);
        assert (i - 8) / 8 == i / 8 - 1 && (i - 8) % 8 == i % 8;
      }
    }
  }

  function StripZeros(data: seq<Byte>): (r: seq<Byte>)
    ensures r <= data && (r != [] ==> r[|r| - 1] != 0)
  {
    if data != [] && data[|data| - 1] == 0 then StripZeros(data[..|data| - 1]) else data
  }

  /** Dropping trailing zero bytes drops nothing the decoder can see. */
  lemma {:induction false} StripKeepsStream(data: seq<Byte>, i: nat)
    ensures BitAt(StripZeros(data), i) == BitAt(data, i)
  {
    if data != [] && data[|data| - 1] == 0 {
      StripKeepsStream(data[..|data| - 1], i);
    }
  }

  lemma PackCarries(bits: seq<Bit>)
    ensures Carries(PackBits(bits), bits) && Carries(StripZeros(PackBits(bits)), bits)
  {
    forall i: nat
      ensures BitAt(PackBits(bits), i) == BitOr0(bits, i)
      ensures BitAt(StripZeros(PackBits(bits)), i) == BitOr0(bits, i)
    {
      PackCarriesAt(bits, i);
      StripKeepsStream(PackBits(bits), i);
    }
  }

  // ---------------------------------------------------------------- round trip

  /** Any byte string that carries the coded bits, stripped or not, decodes to the text up to its
      first EOF character and the hard limit, if every literal ESC has a frequency and none meets escapes. */
  lemma DecodeInvertsCompress(m: Model, text: string, data: seq<Byte>)
    requires ValidModel(m) && Carries(data, CompressBits(m, text).1)
    requires HasExtras(m, text) ==> ESC !in text
    requires Open(m, StartContext(m), HasExtras(m, text), text)
    ensures DecodeArithmetic(m, data, CompressBits(m, text).0) == Ok(Received(text, DECODE_HARD_LIMIT))
  {
    var escapes := HasExtras(m, text);
    var c := EncodeText(m, FRESH_CODER, StartContext(m), escapes, text);
    FinishHolds(data, c);
    StartTracks(data);
    TextDecodes(m, data, FRESH_CODER, StartDecoder(data), StartContext(m), escapes, text, DECODE_HARD_LIMIT);
  }

  lemma {:induction false} ReceivedWhole(text: string, limit: nat)
    ensures Received(text, limit) == text <==> EOF !in text && |text| <= limit
    decreases limit
  {
    if text != [] && limit > 0 && text[0] != EOF {
      ReceivedWhole(text[1..], limit - 1);
      assert text == [text[0]] + text[1..];
    }
  }

  /** The vocabulary lists ESC once. */
  predicate OneEscape(m: Model) {
    forall i, j :: 0 <= i < j < |m.vocab| && m.vocab[i] == ESC ==> m.vocab[j] != ESC
  }

  lemma TurnIsOpen(m: Model, data: seq<Byte>, d: Decoder, context: Context)
    requires ValidModel(m) && OneEscape(m) && Tracking(d)
    ensures var t := DecodeTurn(m, data, d, context, false);
            t.Char? ==> t.ch != EOF && OpenAt(m, context, false, t.ch)
  {
    hide Frequencies, Cdf;
    CdfIsUsable(m, context, false);
    var index := DecodeIndex(data, d, Cdf(m, context, false)).0;
    SliceIsOpen(m, context, false, index);
    if m.vocab[index] == ESC {
      assert index == LastIndex(m.vocab, ESC);
    }
  }

  /** What the decoder can yield without escapes. */
  ghost predicate Decodable(m: Model, context: Context, limit: nat, r: Result<string>)
    requires ValidModel(m)
  {
    r.Ok? ==> EOF !in r.value && |r.value| <= limit && Open(m, context, false, r.value)
  }

  lemma DecodableCons(m: Model, context: Context, limit: nat, ch: char, rest: Result<string>)
    requires ValidModel(m) && OpenAt(m, context, false, ch) && ch != EOF
    requires Decodable(m, AppendContext(context, ch, m.order), limit, rest)
    ensures Decodable(m, context, limit + 1, Prepend(ch, rest))
  {
    hide OpenAt, AppendContext;
    if rest.Ok? {
      assert ([ch] + rest.value)[1..] == rest.value;
    }
  }

  lemma DecodableNothing(m: Model, context: Context, limit: nat)
    requires ValidModel(m)
    ensures Decodable(m, context, limit, Ok("")) && Decodable(m, context, limit, Err("Invalid decoded codepoint"))
  {
  }

  /** Whatever the bytes, without escapes the decoder never yields an ESC that has no frequency. */
  lemma {:induction false} DecodedIsOpen(m: Model, data: seq<Byte>, d: Decoder, context: Context, limit: nat)
    requires ValidModel(m) && OneEscape(m) && Tracking(d)
    ensures Decodable(m, context, limit, DecodeFrom(m, data, d, context, false, limit))
    decreases limit
  {
    hide DecodeTurn, AppendContext, OpenAt, Decodable, Tracking, OneEscape, Prepend;
    DecodableNothing(m, context, limit);
    if limit > 0 {
      var t := DecodeTurn(m, data, d, context, false);
      TurnIsOpen(m, data, d, context);
      if t.Char? {
        var next := AppendContext(context, t.ch, m.order);
        DecodedIsOpen(m, data, t.d, next, limit - 1);
        DecodableCons(m, context, limit - 1, t.ch, DecodeFrom(m, data, t.d, next, false, limit - 1));
      }
    }
  }

  /** The packed bits as the two transports carry them. */
  function CodedBytes(m: Model, text: string, stripped: bool): seq<Byte>
    requires ValidModel(m)
  {
    var data := PackBits(CompressBits(m, text).1);
    if stripped then StripZeros(data) else data
  }

  predicate Returns(m: Model, text: string, stripped: bool)
    requires ValidModel(m)
  {
    DecodeArithmetic(m, CodedBytes(m, text, stripped), HasExtras(m, text)) == Ok(text)
  }

  /** What the text has to be: no EOF, at most the limit, and ESC only where it has a frequency. */
  predicate Transmissible(m: Model, text: string)
    requires ValidModel(m)
  {
    EOF !in text && |text| <= DECODE_HARD_LIMIT && (ESC in text ==> Open(m, StartContext(m), false, text))
  }

  /** The round trip, exactly, stripped or not. Only a text that mixes ESC with characters outside the
      vocabulary is left to `LiteralEscape`. */
  lemma RoundTrip(m: Model, text: string, stripped: bool)
    requires ValidModel(m)
    requires ESC in text ==> !HasExtras(m, text) && OneEscape(m)
    ensures Returns(m, text, stripped) <==> Transmissible(m, text)
  {
    hide PackBits, StripZeros, DecodeFrom, EncodeText, Open, Received;
    var (escapes, bits) := CompressBits(m, text);
    var data := CodedBytes(m, text, stripped);
    PackCarries(bits);
    StartTracks(data);
    if ESC in text {
      DecodedIsOpen(m, data, StartDecoder(data), StartContext(m), DECODE_HARD_LIMIT);
    } else {
      OpenWithout(m, StartContext(m), escapes, text);
    }
    if Open(m, StartContext(m), escapes, text) {
      DecodeInvertsCompress(m, text, data);
      ReceivedWhole(text, DECODE_HARD_LIMIT);
    }
  }

  // ---------------------------------------------------------------- a literal ESC among escapes

  /** The encoder after some characters, before any EOF symbol. */
  function EncodeChars(m: Model, c: Coder, context: Context, text: string): (r: Coder)
    requires ValidModel(m) && Settled(c.iv)
    ensures Settled(r.iv)
    decreases |text|
  {
    if text == [] then c
    else EncodeChars(m, EncodeChar(m, c, context, true, text[0]), AppendContext(context, text[0], m.order), text[1..])
  }

  function ContextAfter(context: Context, text: string, order: nat): Context
    decreases |text|
  {
    if text == [] then context else ContextAfter(AppendContext(context, text[0], order), text[1..], order)
  }

  function PrependAll(s: string, rest: Result<string>): Result<string> {
    if rest.Ok? then Ok(s + rest.value) else rest
  }

  /** The decoder's next codepoint, and what follows it. */
  function AfterEscape(m: Model, data: seq<Byte>, d: Decoder, context: Context, limit: nat): Result<string>
    requires ValidModel(m) && Tracking(d) && limit > 0
  {
    var (cp, d1) := DecodeCodepoint(data, d);
    if IsScalar(cp) then
      Prepend(cp as char, DecodeFrom(m, data, d1, AppendContext(context, cp as char, m.order), true, limit - 1))
    else Err("Invalid decoded codepoint")
  }

  lemma EscapeTurn(m: Model, data: seq<Byte>, c: Coder, d: Decoder, context: Context, limit: nat) returns (d1: Decoder)
    requires ValidModel(m) && Settled(c.iv) && limit > 0
    requires Synced(data, c, d) && Holds(data, EncodeChar(m, c, context, true, ESC))
    ensures Tracking(d) && Tracking(d1) && Synced(data, EncodeChar(m, c, context, true, ESC), d1)
    ensures DecodeFrom(m, data, d, context, true, limit) == AfterEscape(m, data, d1, context, limit)
  {
    hide Synced, Holds, Encode, SymbolSlice, DecodeCodepoint, DecodeIndex, Cdf;
    SymbolDecodes(m, data, c, d, context, true, ESC);
    d1 := DecodeIndex(data, d, Cdf(m, context, true)).1;
  }

  /** With escapes on, a literal ESC is written without a codepoint: what stands before it arrives, and
      then the decoder, in step with the encoder there, takes a codepoint from the bits of what follows. */
  lemma {:induction false} LiteralEscape(m: Model, data: seq<Byte>, c: Coder, d: Decoder, context: Context,
                                         before: string, after: string, limit: nat) returns (d1: Decoder)
    requires ValidModel(m) && Settled(c.iv) && ESC !in before && EOF !in before && |before| < limit
    requires Synced(data, c, d) && Holds(data, EncodeText(m, c, context, true, before + [ESC] + after))
    ensures Tracking(d) && Tracking(d1)
    ensures Synced(data, EncodeChars(m, c, context, before + [ESC]), d1)
    ensures DecodeFrom(m, data, d, context, true, limit) ==
            PrependAll(before, AfterEscape(m, data, d1, ContextAfter(context, before, m.order), limit - |before|))
    decreases |before|
  {
    hide EncodeChar, Holds, Synced, AppendContext, SymbolSlice, Encode, DecodeTurn, AfterEscape;
    var text := before + [ESC] + after;
    var c1, next := EncodeChar(m, c, context, true, text[0]), AppendContext(context, text[0], m.order);
    OpenWithout(m, context, true, text);
    OpenWithout(m, next, true, text[1..]);
    TextHoldsBack(m, data, c, context, true, text);
    TextHoldsBack(m, data, c1, next, true, text[1..]);
    SyncedTracks(data, c, d);
    if before == [] {
      d1 := EscapeTurn(m, data, c, d, context, limit);
      PrependNothing(DecodeFrom(m, data, d, context, true, limit));
      assert before + [ESC] == [ESC];
    } else {
      CharDecodes(m, data, c, d, context, true, text[0]);
      assert text[1..] == before[1..] + [ESC] + after;
      d1 := LiteralEscape(m, data, c1, DecodeTurn(m, data, d, context, true).d, next, before[1..], after, limit - 1);
      assert (before + [ESC])[1..] == before[1..] + [ESC];
      PrependMore(before, AfterEscape(m, data, d1, ContextAfter(context, before, m.order), limit - |before|));
    }
  }

  lemma PrependNothing(rest: Result<string>)
    ensures PrependAll("", rest) == rest
  {
    if rest.Ok? {
      assert "" + rest.value == rest.value;
    }
  }

  lemma PrependMore(s: string, rest: Result<string>)
    requires s != ""
    ensures PrependAll(s, rest) == Prepend(s[0], PrependAll(s[1..], rest))
  {
    if rest.Ok? {
      assert s + rest.value == [s[0]] + (s[1..] + rest.value);
    }
  }

  /** An EOF before the ESC, or the limit, ends the decoding first. */
  lemma {:induction false} StopsBeforeEscape(m: Model, data: seq<Byte>, c: Coder, d: Decoder, context: Context,
                                             before: string, after: string, limit: nat)
    requires ValidModel(m) && Settled(c.iv) && ESC !in before && (EOF in before || |before| >= limit)
    requires Synced(data, c, d) && Holds(data, EncodeText(m, c, context, true, before + [ESC] + after))
    ensures Tracking(d) && DecodeFrom(m, data, d, context, true, limit) == Ok(Received(before, limit))
    decreases |before|
  {
    hide EncodeChar, Holds, Synced, AppendContext, SymbolSlice, Encode, DecodeTurn;
    var text := before + [ESC] + after;
    var c1, next := EncodeChar(m, c, context, true, text[0]), AppendContext(context, text[0], m.order);
    OpenWithout(m, context, true, text);
    OpenWithout(m, next, true, text[1..]);
    TextHoldsBack(m, data, c, context, true, text);
    TextHoldsBack(m, data, c1, next, true, text[1..]);
    SyncedTracks(data, c, d);
    if limit > 0 {
      assert before != [] && text[0] == before[0];
      CharDecodes(m, data, c, d, context, true, text[0]);
      if text[0] != EOF {
        assert text[1..] == before[1..] + [ESC] + after;
        StopsBeforeEscape(m, data, c1, DecodeTurn(m, data, d, context, true).d, next, before[1..], after, limit - 1);
      }
    }
  }

  lemma {:induction false} ReceivedIsShorter(text: string, limit: nat)
    ensures |Received(text, limit)| <= |text|
  {
    if text != [] && limit > 0 && text[0] != EOF {
      ReceivedIsShorter(text[1..], limit - 1);
    }
  }

  /** What the encoder wrote for `after`, read as an escaped ESC and then as `after` again. */
  predicate ReadsTwice(m: Model, data: seq<Byte>, d: Decoder, context: Context, after: string, limit: nat)
    requires ValidModel(m) && Tracking(d)
  {
    var (cp, d1) := DecodeCodepoint(data, d);
    cp == ESC as int && limit > 0
    && DecodeFrom(m, data, d1, AppendContext(context, ESC, m.order), true, limit - 1) == Ok(after)
  }

  /** A text that mixes ESC with characters outside the vocabulary: what the receiver gets of it, and that it
      comes back if and only if no EOF and no limit ends the decoding before its first ESC, and from there
      the bits written for the rest read as an escaped ESC and then as the rest. */
  lemma MixedRoundTrip(m: Model, before: string, after: string, stripped: bool) returns (d1: Decoder)
    requires ValidModel(m) && HasExtras(m, before + [ESC] + after) && ESC !in before
    ensures Tracking(d1)
    ensures var text := before + [ESC] + after; var data := CodedBytes(m, text, stripped);
            var context := ContextAfter(StartContext(m), before, m.order);
            if EOF in before || |before| >= DECODE_HARD_LIMIT then
              DecodeArithmetic(m, data, true) == Ok(Received(before, DECODE_HARD_LIMIT)) && !Returns(m, text, stripped)
            else
              && Synced(data, EncodeChars(m, FRESH_CODER, StartContext(m), before + [ESC]), d1)
              && DecodeArithmetic(m, data, true) ==
                 PrependAll(before, AfterEscape(m, data, d1, context, DECODE_HARD_LIMIT - |before|))
              && (Returns(m, text, stripped) <==> ReadsTwice(m, data, d1, context, after, DECODE_HARD_LIMIT - |before|))
  {
    hide PackBits, StripZeros, EncodeText, EncodeChars, Synced, Holds, DecodeCodepoint, DecodeFrom, Received;
    var text := before + [ESC] + after;
    var bits := CompressBits(m, text).1;
    var data := CodedBytes(m, text, stripped);
    PackCarries(bits);
    FinishHolds(data, EncodeText(m, FRESH_CODER, StartContext(m), true, text));
    StartTracks(data);
    if EOF in before || |before| >= DECODE_HARD_LIMIT {
      d1 := StartDecoder(data);
      StopsBeforeEscape(m, data, FRESH_CODER, d1, StartContext(m), before, after, DECODE_HARD_LIMIT);
      ReceivedIsShorter(before, DECODE_HARD_LIMIT);
    } else {
      d1 := LiteralEscape(m, data, FRESH_CODER, StartDecoder(data), StartContext(m), before, after, DECODE_HARD_LIMIT);
      var context, limit := ContextAfter(StartContext(m), before, m.order), DECODE_HARD_LIMIT - |before|;
      EscapeComesBack(m, data, d1, context, before, after, limit);
    }
  }

  lemma EscapeComesBack(m: Model, data: seq<Byte>, d: Decoder, context: Context, before: string, after: string, limit: nat)
    requires ValidModel(m) && Tracking(d) && limit > 0
    ensures PrependAll(before, AfterEscape(m, data, d, context, limit)) == Ok(before + [ESC] + after)
            <==> ReadsTwice(m, data, d, context, after, limit)
  {
    hide DecodeCodepoint, DecodeFrom, AppendContext;
    var r := AfterEscape(m, data, d, context, limit);
    if r.Ok? {
      assert r.value == (before + r.value)[|before|..];
      assert [ESC] + after == (before + [ESC] + after)[|before|..];
      assert before + ([ESC] + after) == before + [ESC] + after;
      assert ([ESC] + after)[1..] == after && ([ESC] + after)[0] == ESC;
      var (cp, d1) := DecodeCodepoint(data, d);
      var rest := DecodeFrom(m, data, d1, AppendContext(context, cp as char, m.order), true, limit - 1);
      assert r.value == [cp as char] + rest.value && r.value[1..] == rest.value;
    }
  }
}
