/** The binary text form and the v3 container: `compress_to_bytes`, `decompress_bytes`, varuints,
    `encode_v3_body`, `_read_v3_header` and `decode_v3_body`.

    Readers are functions from the remaining bytes to a value and the bytes after it. */
module Container {
  import opened Wrappers
  import opened Powers
  import opened ArithmeticCoder
  import opened FrequencyTable
  import opened MeshCodec
  import opened Utf8

  // ---------------------------------------------------------------- binary text form

  function Flag(escapes: bool): Byte { if escapes then 1 else 0 }

  function CodedForm(m: Model, text: string): seq<Byte>
    requires ValidModel(m)
  {
    var (escapes, bits) := CompressBits(m, text);
    [Flag(escapes)] + PackBits(bits)
  }

  /** Plain UTF-8 is sent when the coded form is longer and the first byte cannot be taken for a flag. */
  predicate SentPlain(m: Model, text: string)
    requires ValidModel(m) && text != ""
  {
    |CodedForm(m, text)| > |Encode8(text)| && Encode8(text)[0] >= 2
  }

  function CompressToBytes(m: Model, text: string): seq<Byte>
    requires ValidModel(m)
  {
    if text == "" then []
    else if SentPlain(m, text) then Encode8(text)
    else CodedForm(m, text)
  }

  function DecompressBytes(m: Model, data: seq<Byte>): Result<string>
    requires ValidModel(m)
  {
    if data == [] then Ok("")
    else if data[0] > 1 then Decode8(data)
    else if |data| == 1 then Ok("")
    else DecodeArithmetic(m, data[1..], data[0] == 1)
  }

  lemma CodedFormDecodes(m: Model, text: string)
    requires ValidModel(m)
    ensures DecompressBytes(m, CodedForm(m, text)) == DecodeArithmetic(m, CodedBytes(m, text, false), HasExtras(m, text))
  {
    hide DecodeArithmetic, Finish, EncodeText, PackBits;
    var (escapes, bits) := CompressBits(m, text);
    FinishNonEmpty(m, text);
    assert CodedForm(m, text)[1..] == PackBits(bits);
  }

  lemma FinishNonEmpty(m: Model, text: string)
    requires ValidModel(m)
    ensures |PackBits(CompressBits(m, text).1)| > 0
  {
    hide EncodeText;
  }

  /** The text went out as plain UTF-8, or the codec returns it. */
  predicate BinaryReturns(m: Model, text: string)
    requires ValidModel(m)
  {
    text == "" || SentPlain(m, text) || Returns(m, text, false)
  }

  /** The binary form gives the text back under exactly that condition; what it asks of a coded text is
      that it be transmissible. */
  lemma BinaryRoundTrip(m: Model, text: string)
    requires ValidModel(m)
    ensures DecompressBytes(m, CompressToBytes(m, text)) == Ok(text) <==> BinaryReturns(m, text)
    ensures (ESC in text ==> !HasExtras(m, text) && OneEscape(m)) ==>
              (BinaryReturns(m, text) <==> text == "" || SentPlain(m, text) || Transmissible(m, text))
  {
    hide DecodeArithmetic, CodedForm, CodedBytes, Transmissible;
    if text != "" && SentPlain(m, text) {
      TextReadsBack(text);
    } else {
      CodedFormDecodes(m, text);
    }
    if ESC in text ==> !HasExtras(m, text) && OneEscape(m) {
      RoundTrip(m, text, false);
    }
  }

  /** The segment is longer than the UTF-8 text if and only if the text starts with U+0000 or U+0001, which
      cannot go out plain, and its coded form is longer; such a character alone always grows. */
  lemma SegmentNeverGrows(m: Model, text: string)
    requires ValidModel(m)
    ensures |CompressToBytes(m, text)| > |Encode8(text)| <==>
            text != "" && text[0] as int < 2 && |CodedForm(m, text)| > |Encode8(text)|
    ensures |text| == 1 && text[0] as int < 2 ==> |CompressToBytes(m, text)| > |Encode8(text)|
  {
    hide CompressBits, PackBits;
    FinishNonEmpty(m, text);
    if text != "" {
      assert Encode8(text)[0] == EncodeScalar(text[0])[0];
      assert |text| == 1 ==> text[1..] == "";
    }
  }

  /** The segment is the shorter of the two forms, the coded one on a tie, except that a text starting with U+0000 or
      U+0001 is always coded. */
  lemma SegmentIs(m: Model, text: string)
    requires ValidModel(m)
    ensures var coded, plain := CodedForm(m, text), Encode8(text);
            CompressToBytes(m, text) ==
            if text == "" then [] else if |plain| < |coded| && text[0] as int >= 2 then plain else coded
  {
    hide CodedForm;
    if text != "" {
      assert Encode8(text)[0] == EncodeScalar(text[0])[0];
    }
  }

  /** What a segment is read as: nothing and a lone flag byte are the empty text; a first byte above 1 is UTF-8;
      else the coded text after it, with escapes for 1. */
  lemma SegmentReads(m: Model, first: Byte, rest: seq<Byte>)
    requires ValidModel(m)
    ensures DecompressBytes(m, []) == Ok("")
    ensures DecompressBytes(m, [first] + rest) ==
            if first >= 2 then Decode8([first] + rest)
            else if rest == [] then Ok("")
            else DecodeArithmetic(m, rest, first == 1)
  {
    hide Decode8, DecodeArithmetic;
    assert ([first] + rest)[1..] == rest;
  }

  // ---------------------------------------------------------------- varuints

  function WriteVaruint(value: nat): seq<Byte> {
    if value < 128 then [value] else [value % 128 + 128] + WriteVaruint(value / 128)
  }

  /** At most five groups: a continuation bit at shift 28 is an error. */
  function ReadVaruint(data: seq<Byte>, shift: nat, acc: nat): Result<(nat, seq<Byte>)>
    requires shift <= 28
    decreases 28 - shift
  {
    if data == [] then Err("unexpected end of MCMP v3 body")
    else
      var sum := acc + Scale(data[0] % 128, shift);
      if data[0] < 128 then Ok((sum, data[1..]))
      else if shift + 7 > 28 then Err("MCMP v3 varuint too long")
      else ReadVaruint(data[1..], shift + 7, sum)
  }

  lemma {:induction false} ScaleSum(a: nat, b: nat, s: nat)
    ensures Scale(a + b, s) == Scale(a, s) + Scale(b, s)
  {
    if s > 0 {
      ScaleSum(a, b, s - 1);
    }
  }

  lemma ScaleGroup(v: nat, s: nat)
    ensures Scale(v % 128, s) + Scale(v / 128, s + 7) == Scale(v, s)
  {
    var q := v / 128;
    ScaleAdd(q, 7, s);
    assert Scale(q, 1) == 2 * q;
    assert Scale(q, 3) == 8 * q;
    assert Scale(q, 5) == 32 * q;
    assert Scale(q, 7) == 128 * q;
    ScaleSum(v % 128, 128 * q, s);
  }

  lemma Pow2AtZero()
    ensures Pow2(0) == 1
  {
  }

  lemma Pow2Group(n: nat)
    ensures Pow2(n + 7) == 128 * Pow2(n)
  {
    assert Pow2(n + 2) == 4 * Pow2(n);
    assert Pow2(n + 4) == 4 * Pow2(n + 2);
    assert Pow2(n + 6) == 4 * Pow2(n + 4);
  }

  lemma GroupBound(value: nat, p: nat)
    ensures value / 128 < p <==> value < 128 * p
  {
  }

  /** A varuint reads back if and only if it is below 2^35 (at shift 0), whatever follows it. */
  lemma {:induction false} VaruintReadsBack(value: nat, shift: nat, acc: nat, rest: seq<Byte>)
    requires shift == 0 || shift == 7 || shift == 14 || shift == 21 || shift == 28
    ensures ReadVaruint(WriteVaruint(value) + rest, shift, acc) ==
            if value < Pow2(35 - shift) then Ok((acc + Scale(value, shift), rest))
            else Err("MCMP v3 varuint too long")
    decreases value
  {
    hide Scale, Pow2;
    var data := WriteVaruint(value) + rest;
    Pow2Group(28 - shift);
    Pow2AtZero();
    if value < 128 {
      assert data[1..] == rest;
    } else {
      assert data[1..] == WriteVaruint(value / 128) + rest && data[0] == value % 128 + 128;
      assert data[0] % 128 == value % 128;
      ScaleGroup(value, shift);
      if shift + 7 <= 28 {
        VaruintReadsBack(value / 128, shift + 7, acc + Scale(value % 128, shift), rest);
        GroupBound(value, Pow2(28 - shift));
      }
    }
  }

  // ---------------------------------------------------------------- container

  const UINT32_LIMIT: int := 0x1_0000_0000
  const SIGNATURE_SIZE: nat := 64

  function WriteUint32(n: nat): (b: seq<Byte>)
    requires n < UINT32_LIMIT
    ensures |b| == 4
  {
    [n % 256, n / 256 % 256, n / 65536 % 256, n / 16777216]
  }

  function TakeBytes(data: seq<Byte>, n: nat): Result<(seq<Byte>, seq<Byte>)> {
    if n > |data| then Err("unexpected end of MCMP v3 body") else Ok((data[..n], data[n..]))
  }

  function ReadUint32(data: seq<Byte>): Result<(nat, seq<Byte>)> {
    var (b, rest) :- TakeBytes(data, 4);
    Ok((b[0] as int + 256 * b[1] as int + 65536 * b[2] as int + 16777216 * b[3] as int, rest))
  }

  function WriteName(name: string): seq<Byte> {
    WriteVaruint(|Encode8(name)|) + Encode8(name)
  }

  function ReadName(data: seq<Byte>): Result<(string, seq<Byte>)> {
    var (n, rest) :- ReadVaruint(data, 0, 0);
    var (bytes, after) :- TakeBytes(rest, n);
    var name :- Decode8(bytes);
    Ok((name, after))
  }

  /** Everything a container carries before its text. */
  datatype Header = Header(timestamp: nat, sender: Option<string>, signed: bool, reply: Option<(string, nat)>)

  predicate UnsignedHeader(h: Header) {
    !h.signed && h.timestamp < UINT32_LIMIT && (h.reply.Some? ==> h.reply.value.1 < UINT32_LIMIT)
  }

  function Flags(h: Header): Byte {
    (if h.reply.Some? then 1 else 0) + (if h.signed then 2 else 0) + (if h.sender.Some? then 4 else 0)
  }

  function WriteSender(h: Header): seq<Byte> {
    if h.sender.Some? then WriteName(h.sender.value) else []
  }

  function WriteReply(h: Header): seq<Byte>
    requires UnsignedHeader(h)
  {
    if h.reply.Some? then WriteName(h.reply.value.0) + WriteUint32(h.reply.value.1) else []
  }

  function WriteHeader(h: Header): seq<Byte>
    requires UnsignedHeader(h)
  {
    [Flags(h)] + (WriteUint32(h.timestamp) + (WriteSender(h) + WriteReply(h)))
  }

  function ReadSender(flags: Byte, data: seq<Byte>): Result<(Option<string>, seq<Byte>)> {
    if flags / 4 % 2 == 1 then
      var (name, rest) :- ReadName(data);
      Ok((Some(name), rest))
    else Ok((None, data))
  }

  function ReadReply(flags: Byte, data: seq<Byte>): Result<(Option<(string, nat)>, seq<Byte>)> {
    if flags % 2 == 1 then
      var (name, rest) :- ReadName(data);
      var (time, after) :- ReadUint32(rest);
      Ok((Some((name, time)), after))
    else Ok((None, data))
  }

  /** The signature of a signed container is read past and not verified. */
  function SkipSignature(flags: Byte, data: seq<Byte>): Result<(seq<Byte>, seq<Byte>)> {
    if flags / 2 % 2 == 1 then TakeBytes(data, SIGNATURE_SIZE) else Ok(([], data))
  }

  function ReadHeader(data: seq<Byte>): Result<(Header, seq<Byte>)> {
    if data == [] then Err("unexpected end of MCMP v3 body")
    else if data[0] >= 8 then Err("unsupported MCMP v3 flags")
    else
      var flags := data[0];
      var (timestamp, d1) :- ReadUint32(data[1..]);
      var (sender, d2) :- ReadSender(flags, d1);
      var (_, d3) :- SkipSignature(flags, d2);
      var (reply, d4) :- ReadReply(flags, d3);
      Ok((Header(timestamp, sender, flags / 2 % 2 == 1, reply), d4))
  }

  function EncodeV3Body(m: Model, text: string, timestamp: int, sender: Option<string>,
                        replyName: Option<string>, replyTime: Option<int>): Result<seq<Byte>>
    requires ValidModel(m)
  {
    if timestamp < 0 || timestamp >= UINT32_LIMIT then Err("timestamp out of range")
    else if replyName.None? != replyTime.None? then Err("reply name and timestamp must be provided together")
    else if replyTime.Some? && (replyTime.value < 0 || replyTime.value >= UINT32_LIMIT) then
      Err("reply timestamp out of range")
    else
      var reply := if replyName.Some? then Some((replyName.value, replyTime.value as nat)) else None;
      Ok(WriteHeader(Header(timestamp, sender, false, reply)) + CompressToBytes(m, text))
  }

  function DecodeV3Body(m: Model, body: seq<Byte>): Result<(Header, string)>
    requires ValidModel(m)
  {
    var (header, rest) :- ReadHeader(body);
    var text :- DecompressBytes(m, rest);
    Ok((header, text))
  }

  // ---------------------------------------------------------------- round trip

  lemma TakeBytesOf(a: seq<Byte>, rest: seq<Byte>)
    ensures TakeBytes(a + rest, |a|) == Ok((a, rest))
  {
    assert (a + rest)[..|a|] == a && (a + rest)[|a|..] == rest;
  }

  lemma Uint32ReadsBack(n: nat, rest: seq<Byte>)
    requires n < UINT32_LIMIT
    ensures ReadUint32(WriteUint32(n) + rest) == Ok((n, rest))
  {
    TakeBytesOf(WriteUint32(n), rest);
    assert n / 65536 == n / 256 / 256 && n / 16777216 == n / 65536 / 256;
  }

  predicate ShortName(name: string) {
    |Encode8(name)| < Pow2(35)
  }

  /** A name reads back if and only if its UTF-8 form is shorter than 2^35 bytes. */
  lemma NameReadsBack(name: string, rest: seq<Byte>)
    ensures ReadName(WriteName(name) + rest) ==
            if ShortName(name) then Ok((name, rest)) else Err("MCMP v3 varuint too long")
  {
    hide ReadVaruint, WriteVaruint, Encode8, Decode8, TakeBytes, Pow2;
    var bytes := Encode8(name);
    VaruintReadsBack(|bytes|, 0, 0, bytes + rest);
    assert WriteName(name) + rest == WriteVaruint(|bytes|) + (bytes + rest);
    TakeBytesOf(bytes, rest);
    TextReadsBack(name);
  }

  predicate ShortNames(h: Header) {
    (h.sender.Some? ==> ShortName(h.sender.value)) && (h.reply.Some? ==> ShortName(h.reply.value.0))
  }

  lemma FlagBits(h: Header)
    ensures Flags(h) < 8
    ensures Flags(h) % 2 == 1 <==> h.reply.Some?
    ensures Flags(h) / 2 % 2 == 1 <==> h.signed
    ensures Flags(h) / 4 % 2 == 1 <==> h.sender.Some?
  {
  }

  lemma SenderReadsBack(h: Header, rest: seq<Byte>)
    ensures ReadSender(Flags(h), WriteSender(h) + rest) ==
            if h.sender.Some? && !ShortName(h.sender.value) then Err("MCMP v3 varuint too long") else Ok((h.sender, rest))
  {
    hide Flags, ReadName, WriteName, ShortName;
    FlagBits(h);
    if h.sender.Some? {
      NameReadsBack(h.sender.value, rest);
    } else {
      assert [] + rest == rest;
    }
  }

  lemma ReplyReadsBack(h: Header, rest: seq<Byte>)
    requires UnsignedHeader(h)
    ensures ReadReply(Flags(h), WriteReply(h) + rest) ==
            if h.reply.Some? && !ShortName(h.reply.value.0) then Err("MCMP v3 varuint too long") else Ok((h.reply, rest))
  {
    hide Flags, ReadName, WriteName, ShortName, ReadUint32, WriteUint32;
    FlagBits(h);
    if h.reply.Some? {
      var name, time := WriteName(h.reply.value.0), WriteUint32(h.reply.value.1);
      NameReadsBack(h.reply.value.0, time + rest);
      Uint32ReadsBack(h.reply.value.1, rest);
      assert WriteReply(h) + rest == name + (time + rest);
    } else {
      assert [] + rest == rest;
    }
  }

  /** A header reads back, leaving the reader exactly on the text, if and only if its names are short
      enough; otherwise reading fails rather than returning other fields. */
  lemma HeaderReadsBack(h: Header, rest: seq<Byte>)
    requires UnsignedHeader(h)
    ensures ReadHeader(WriteHeader(h) + rest) ==
            if ShortNames(h) then Ok((h, rest)) else Err("MCMP v3 varuint too long")
  {
    hide Flags, ReadSender, WriteSender, ReadReply, WriteReply, ShortName, ReadUint32, WriteUint32;
    FlagBits(h);
    var time, sender, reply := WriteUint32(h.timestamp), WriteSender(h), WriteReply(h);
    var data := WriteHeader(h) + rest;
    assert data[1..] == time + (sender + (reply + rest));
    Uint32ReadsBack(h.timestamp, sender + (reply + rest));
    SenderReadsBack(h, reply + rest);
    ReplyReadsBack(h, rest);
  }

  /** A signed header: the signature stands between the names. */
  function WriteSigned(h: Header, signature: seq<Byte>): seq<Byte>
    requires UnsignedHeader(h)
  {
    [Flags(h) + 2] + (WriteUint32(h.timestamp) + (WriteSender(h) + (signature + WriteReply(h))))
  }

  /** A signature is read past, and every other field comes back as from an unsigned header. */
  lemma SignedHeaderReads(h: Header, signature: seq<Byte>, rest: seq<Byte>)
    requires UnsignedHeader(h) && ShortNames(h) && |signature| == 64
    ensures ReadHeader(WriteSigned(h, signature) + rest) == Ok((h.(signed := true), rest))
  {
    hide ReadSender, WriteSender, ReadReply, WriteReply, ShortName, ReadUint32, WriteUint32;
    FlagBits(h);
    var time, sender, reply := WriteUint32(h.timestamp), WriteSender(h), WriteReply(h);
    var data := WriteSigned(h, signature) + rest;
    assert data[1..] == time + (sender + (signature + (reply + rest)));
    Uint32ReadsBack(h.timestamp, sender + (signature + (reply + rest)));
    SenderReadsBack(h, signature + (reply + rest));
    SameFlags(h);
    assert (signature + (reply + rest))[64..] == reply + rest;
    ReplyReadsBack(h, rest);
  }

  /** The signature flag is neither of the others. */
  lemma SameFlags(h: Header)
    requires UnsignedHeader(h)
    ensures forall d :: ReadSender(Flags(h) + 2, d) == ReadSender(Flags(h), d)
    ensures forall d :: ReadReply(Flags(h) + 2, d) == ReadReply(Flags(h), d)
  {
    hide ReadName, ReadUint32;
  }

  /** A body with a flag outside the three known ones is refused, whatever follows. */
  lemma UnknownFlagsRefused(m: Model, body: seq<Byte>)
    requires ValidModel(m) && body != [] && body[0] / 8 > 0
    ensures ReadHeader(body).Err? && DecodeV3Body(m, body).Err?
  {
  }

  /** The container returns every field it was given, and the text if and only if the text's own binary
      form does; its text segment is exactly the compressed form. */
  lemma BodyRoundTrip(m: Model, text: string, timestamp: int, sender: Option<string>,
                      replyName: Option<string>, replyTime: Option<int>)
    requires ValidModel(m)
    requires EncodeV3Body(m, text, timestamp, sender, replyName, replyTime).Ok?
    requires sender.Some? ==> ShortName(sender.value)
    requires replyName.Some? ==> ShortName(replyName.value)
    ensures var body := EncodeV3Body(m, text, timestamp, sender, replyName, replyTime).value;
            && ReadHeader(body).Ok?
            && var (h, segment) := ReadHeader(body).value;
               && h.timestamp == timestamp && h.sender == sender && !h.signed
               && h.reply.Some? == replyName.Some?
               && (h.reply.Some? ==> replyTime.Some? && h.reply.value == (replyName.value, replyTime.value))
               && segment == CompressToBytes(m, text)
               && (DecodeV3Body(m, body).Ok? ==> DecodeV3Body(m, body).value.0 == h)
               && (DecodeV3Body(m, body) == Ok((h, text)) <==> BinaryReturns(m, text))
  {
    hide ReadHeader, WriteHeader, CompressToBytes, DecompressBytes, ShortName, BinaryReturns;
    var reply := if replyName.Some? then Some((replyName.value, replyTime.value as nat)) else None;
    HeaderReadsBack(Header(timestamp, sender, false, reply), CompressToBytes(m, text));
    BinaryRoundTrip(m, text);
  }
}
