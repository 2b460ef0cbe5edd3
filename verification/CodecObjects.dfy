/** The codec's loops as the source runs them, over the coder objects and the caching model,
    proved against the functions of `MeshCodec`. */
module CodecObjects {
  import opened Wrappers
  import opened ArithmeticCoder
  import opened FrequencyTable
  import opened Utf8
  import opened MeshCodec
  import opened CoderObjects
  import opened FrequencyObjects

  // ---------------------------------------------------------------- setting bits in place

  function BitsOf(b: Byte): (bits: seq<Bit>)
    ensures |bits| == 8
  {
    seq(8, k requires 0 <= k < 8 => ByteBit(b, k))
  }

  lemma PackBitsOf(b: Byte)
    ensures PackByte(BitsOf(b)) == b
  {
    var h1, h2, h3, h4, h5, h6, h7 := b / 2, b / 4, b / 8, b / 16, b / 32, b / 64, b / 128;
    assert h2 == h1 / 2 && h3 == h2 / 2 && h4 == h3 / 2;
    assert h5 == h4 / 2 && h6 == h5 / 2 && h7 == h6 / 2;
    assert h7 / 2 == 0;
  }

  lemma SetBitPacks(b: Byte, k: nat)
    requires k < 8
    ensures PackByte(BitsOf(b)[k := 1]) == b + Weight(k) * (1 - ByteBit(b, k))
  {
    hide PackByte;
    PackBitsOf(b);
    PackUpdate(BitsOf(b), k);
  }

  /** `b |= 1 << (7 - k)` */
  function SetBit(b: Byte, k: nat): Byte
    requires k < 8
  {
    SetBitPacks(b, k);
    if ByteBit(b, k) == 1 then b else b + Weight(k)
  }

  lemma PackUpdate(bits: seq<Bit>, k: nat)
    requires k < 8 == |bits|
    ensures PackByte(bits[k := 1]) == PackByte(bits) + Weight(k) * (1 - bits[k])
  {
    match k {
      case 0 =>
      case 1 =>
      case 2 =>
      case 3 =>
      case 4 =>
      case 5 =>
      case 6 =>
      case 7 =>
    }
  }

  lemma SetBitBits(b: Byte, k: nat, j: nat)
    requires k < 8 && j < 8
    ensures ByteBit(SetBit(b, k), j) == if j == k then 1 else ByteBit(b, j)
  {
    SetBitPacks(b, k);
    PackByteBits(BitsOf(b)[k := 1], j);
  }

  lemma SameByte(a: Byte, b: Byte)
    requires forall k :: 0 <= k < 8 ==> ByteBit(a, k) == ByteBit(b, k)
    ensures a == b
  {
    PackBitsOf(a);
    PackBitsOf(b);
    assert BitsOf(a) == BitsOf(b);
  }

  lemma SameBytes(a: seq<Byte>, b: seq<Byte>)
    requires |a| == |b| && forall i: nat :: i < 8 * |a| ==> BitAt(a, i) == BitAt(b, i)
    ensures a == b
  {
    forall n | 0 <= n < |a|
      ensures a[n] == b[n]
    {
      forall k | 0 <= k < 8
        ensures ByteBit(a[n], k) == ByteBit(b[n], k)
      {
        var i: nat := 8 * n + k;
        assert i / 8 == n && i % 8 == k;
        assert BitAt(a, i) == BitAt(b, i);
      }
      SameByte(a[n], b[n]);
    }
  }

  method BitsToBytes(bits: seq<Bit>) returns (r: seq<Byte>)
    ensures r == PackBits(bits)
  {
    var out := new Byte[(|bits| + 7) / 8](_ => 0);
    for i := 0 to |bits|
      invariant forall j: nat :: j < 8 * out.Length ==> BitAt(out[..], j) == if j < i then bits[j] else 0
    {
      ghost var before := out[..];
      if bits[i] == 1 {
        out[i / 8] := SetBit(out[i / 8], i % 8);
        forall j: nat | j < 8 * out.Length
          ensures BitAt(out[..], j) == if j == i then 1 else BitAt(before, j)
        {
          if j / 8 == i / 8 {
            SetBitBits(before[i / 8], i % 8, j % 8);
          }
        }
      }
    }
    forall j: nat | j < 8 * out.Length
      ensures BitAt(out[..], j) == BitAt(PackBits(bits), j)
    {
      PackCarriesAt(bits, j);
    }
    SameBytes(out[..], PackBits(bits));
    r := out[..];
  }

  method BitsToMinBytes(bits: seq<Bit>) returns (r: seq<Byte>)
    ensures r == StripZeros(PackBits(bits))
  {
    var out := BitsToBytes(bits);
    var end := |out|;
    assert out[..end] == out;
    while end > 0 && out[end - 1] == 0
      invariant 0 <= end <= |out|
      invariant StripZeros(out[..end]) == StripZeros(out)
    {
      assert out[..end][..end - 1] == out[..end - 1];
      end := end - 1;
    }
    r := out[..end];
  }

  // ---------------------------------------------------------------- escape sub-model

  method WriteCodepoint(encoder: ArithmeticEncoder, cp: nat)
    requires Settled(encoder.State().iv)
    modifies encoder
    ensures encoder.State() == EncodeCodepoint(old(encoder.State()), cp)
  {
    for b := 0 to NUM_BLOCKS
      invariant encoder.State() == old(encoder.State())
      invariant BlockOf(cp, b) == BlockOf(cp, 0)
    {
      if UNICODE_BLOCKS[b].0 <= cp <= UNICODE_BLOCKS[b].1 {
        encoder.EncodeSymbol(b, b + 1, NUM_BLOCKS + 1);
        var offset := cp - UNICODE_BLOCKS[b].0;
        encoder.EncodeSymbol(offset, offset + 1, BlockSize(b));
        return;
      }
    }
    encoder.EncodeSymbol(NUM_BLOCKS, NUM_BLOCKS + 1, NUM_BLOCKS + 1);
    encoder.EncodeSymbol(cp % 128, cp % 128 + 1, 128);
    encoder.EncodeSymbol(cp / 128 % 128, cp / 128 % 128 + 1, 128);
    encoder.EncodeSymbol(cp / 16384 % 128, cp / 16384 % 128 + 1, 128);
  }

  method ReadCodepoint(decoder: ArithmeticDecoder) returns (cp: nat)
    requires Tracking(decoder.State())
    modifies decoder
    ensures (cp, decoder.State()) == DecodeCodepoint(decoder.data, old(decoder.State()))
    ensures Tracking(decoder.State())
  {
    var block := decoder.DecodeUniformIndex(NUM_BLOCKS + 1);
    if block < NUM_BLOCKS {
      var offset := decoder.DecodeUniformIndex(BlockSize(block));
      return UNICODE_BLOCKS[block].0 + offset;
    }
    var b0 := decoder.DecodeUniformIndex(128);
    var b1 := decoder.DecodeUniformIndex(128);
    var b2 := decoder.DecodeUniformIndex(128);
    cp := b0 + 128 * b1 + 16384 * b2;
  }

  // ---------------------------------------------------------------- text

  method WriteSymbol(model: MeshModel, encoder: ArithmeticEncoder, context: Context, escapes: bool, ch: char)
    requires model.Valid() && Settled(encoder.State().iv)
    requires ch in model.m.vocab
    modifies model, encoder
    ensures model.Valid() && Settled(encoder.State().iv)
    ensures encoder.State() == Encode(old(encoder.State()), SymbolSlice(model.m, context, escapes, ch))
  {
    var highs := model.GetCdf(context, escapes);
    var index := LastIndex(model.m.vocab, ch);
    var low := if index > 0 then highs[index - 1] else 0;
    SliceIsOpen(model.m, context, escapes, index);
    encoder.EncodeSymbol(low, highs[index], CDF_SCALE);
  }

  method WriteChar(model: MeshModel, encoder: ArithmeticEncoder, context: Context, escapes: bool, ch: char)
    requires model.Valid() && Settled(encoder.State().iv)
    requires ch in model.m.vocab || escapes
    modifies model, encoder
    ensures model.Valid() && Settled(encoder.State().iv)
    ensures encoder.State() == EncodeChar(model.m, old(encoder.State()), context, escapes, ch)
  {
    hide Encode, SymbolSlice, EncodeCodepoint;
    if ch in model.m.vocab {
      WriteSymbol(model, encoder, context, escapes, ch);
    } else {
      assert ESC in model.m.vocab;
      WriteSymbol(model, encoder, context, escapes, ESC);
      WriteCodepoint(encoder, ch as int);
    }
  }

  lemma EncodeTextStep(m: Model, c: Coder, context: Context, escapes: bool, text: string, i: nat)
    requires ValidModel(m) && Settled(c.iv) && i < |text| && Encodable(m, text[i..], escapes)
    ensures (text[i] in m.vocab || escapes) && Encodable(m, text[i + 1..], escapes)
    ensures EncodeText(m, c, context, escapes, text[i..]) ==
            EncodeText(m, EncodeChar(m, c, context, escapes, text[i]),
                       AppendContext(context, text[i], m.order), escapes, text[i + 1..])
  {
    hide EncodeChar, SymbolSlice, AppendContext;
    assert text[i..][0] == text[i] && text[i..][1..] == text[i + 1..];
  }

  method WriteText(model: MeshModel, encoder: ArithmeticEncoder, start: Context, escapes: bool, text: string)
    requires model.Valid() && Settled(encoder.State().iv) && Encodable(model.m, text, escapes)
    modifies model, encoder
    ensures model.Valid()
    ensures encoder.State() == EncodeText(model.m, old(encoder.State()), start, escapes, text)
  {
    hide EncodeChar, Encode, SymbolSlice, AppendContext, Encodable;
    var context := start;
    assert text[0..] == text;
    for i := 0 to |text|
      invariant model.Valid() && Settled(encoder.State().iv)
      invariant Encodable(model.m, text[i..], escapes)
      invariant EncodeText(model.m, encoder.State(), context, escapes, text[i..])
                == EncodeText(model.m, old(encoder.State()), start, escapes, text)
    {
      EncodeTextStep(model.m, encoder.State(), context, escapes, text, i);
      WriteChar(model, encoder, context, escapes, text[i]);
      context := AppendContext(context, text[i], model.m.order);
    }
    WriteSymbol(model, encoder, context, escapes, EOF);
  }

  method CompressArithmeticBits(model: MeshModel, text: string) returns (escapes: bool, bits: seq<Bit>)
    requires model.Valid()
    modifies model
    ensures model.Valid()
    ensures (escapes, bits) == CompressBits(model.m, text)
  {
    hide EncodeText, Finish, Cdf;
    escapes := HasExtras(model.m, text);
    var encoder := new ArithmeticEncoder();
    WriteText(model, encoder, StartContext(model.m), escapes, text);
    bits := encoder.FinishBits();
  }

  method ReadTurn(model: MeshModel, decoder: ArithmeticDecoder, context: Context, escapes: bool) returns (t: Turn)
    requires model.Valid() && Tracking(decoder.State())
    modifies model, decoder
    ensures model.Valid()
    ensures t == DecodeTurn(model.m, decoder.data, old(decoder.State()), context, escapes)
    ensures t.Char? ==> t.d == decoder.State()
  {
    var highs := model.GetCdf(context, escapes);
    var index := decoder.DecodeModelIndex(highs);
    var symbol := model.m.vocab[index];
    if symbol == EOF {
      return Stop;
    }
    if symbol == ESC && escapes {
      var cp := ReadCodepoint(decoder);
      if !IsScalar(cp) {
        return Bad;
      }
      symbol := cp as char;
    }
    t := Char(symbol, Decoder(Interval(decoder.low, decoder.high), decoder.value, decoder.bitPos));
  }

  lemma TurnExtends(m: Model, data: seq<Byte>, d: Decoder, context: Context, escapes: bool, limit: nat, out: string)
    requires ValidModel(m) && Tracking(d) && limit > 0
    ensures var whole := PrependAll(out, DecodeFrom(m, data, d, context, escapes, limit));
            match DecodeTurn(m, data, d, context, escapes)
            case Stop => whole == Ok(out)
            case Bad => whole == Err("Invalid decoded codepoint")
            case Char(ch, d1) =>
              whole == PrependAll(out + [ch], DecodeFrom(m, data, d1, AppendContext(context, ch, m.order), escapes, limit - 1))
  {
    hide DecodeTurn, AppendContext;
    var t := DecodeTurn(m, data, d, context, escapes);
    assert out + "" == out;
    if t.Char? {
      var rest := DecodeFrom(m, data, t.d, AppendContext(context, t.ch, m.order), escapes, limit - 1);
      if rest.Ok? {
        assert out + ([t.ch] + rest.value) == out + [t.ch] + rest.value;
      }
    }
  }

  lemma EndOfLimit(m: Model, data: seq<Byte>, d: Decoder, context: Context, escapes: bool, out: string)
    requires ValidModel(m) && Tracking(d)
    ensures PrependAll(out, DecodeFrom(m, data, d, context, escapes, 0)) == Ok(out)
  {
    assert out + "" == out;
  }

  method ReadText(model: MeshModel, decoder: ArithmeticDecoder, start: Context, escapes: bool, limit: nat)
    returns (r: Result<string>)
    requires model.Valid() && Tracking(decoder.State())
    modifies model, decoder
    ensures model.Valid()
    ensures r == DecodeFrom(model.m, decoder.data, old(decoder.State()), start, escapes, limit)
  {
    hide DecodeTurn, AppendContext, DecodeFrom, PrependAll, Cdf, Tracking;
    PrependNothing(DecodeFrom(model.m, decoder.data, decoder.State(), start, escapes, limit));
    var context := start;
    var out := "";
    for i := 0 to limit
      invariant model.Valid() && Tracking(decoder.State())
      invariant DecodeFrom(model.m, decoder.data, old(decoder.State()), start, escapes, limit) ==
                PrependAll(out, DecodeFrom(model.m, decoder.data, decoder.State(), context, escapes, limit - i))
    {
      TurnExtends(model.m, decoder.data, decoder.State(), context, escapes, limit - i, out);
      var t := ReadTurn(model, decoder, context, escapes);
      match t
      case Stop => return Ok(out);
      case Bad => return Err("Invalid decoded codepoint");
      case Char(ch, _) =>
        out := out + [ch];
        context := AppendContext(context, ch, model.m.order);
    }
    EndOfLimit(model.m, decoder.data, decoder.State(), context, escapes, out);
    r := Ok(out);
  }

  method DecodeArithmeticBytes(model: MeshModel, data: seq<Byte>, escapes: bool) returns (r: Result<string>)
    requires model.Valid()
    modifies model
    ensures model.Valid()
    ensures r == DecodeArithmetic(model.m, data, escapes)
  {
    hide DecodeFrom;
    var decoder := new ArithmeticDecoder(data);
    r := ReadText(model, decoder, StartContext(model.m), escapes, DECODE_HARD_LIMIT);
  }
}
