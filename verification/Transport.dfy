/** The text transports and the send/receive pipeline: `encode_if_smaller`, `try_decode_prefixed`,
    `encode_v3_text`, `try_decode_v3_text`, `encode_outbound` and `decode_incoming_body`.

    MCOtxt, the other codec the receiver knows, is a parameter: any partial function on texts. */
module Transport {
  import opened Wrappers
  import opened ArithmeticCoder
  import opened FrequencyTable
  import opened MeshCodec
  import opened Base91
  import opened Utf8
  import opened Container

  const PREFIX_V2: string := "mcmp2:"
  const PREFIX_V3: string := "mcmp3:"
  const PREFIX_MCOTXT: string := "mct:"
  const TRANSPORT_MCOTXT: int := 4

  // ---------------------------------------------------------------- stripping and framing

  /** The characters `str.lstrip` removes. */
  predicate IsSpace(c: char) {
    var cp := c as int;
    || 0x09 <= cp <= 0x0D || 0x1C <= cp <= 0x20 || cp == 0x85 || cp == 0xA0 || cp == 0x1680
    || 0x2000 <= cp <= 0x200A || cp == 0x2028 || cp == 0x2029 || cp == 0x202F || cp == 0x205F || cp == 0x3000
  }

  function LStrip(s: string): string {
    if s != "" && IsSpace(s[0]) then LStrip(s[1..]) else s
  }

  predicate StartsWith(s: string, prefix: string) {
    prefix <= s
  }

  predicate LowerHex(c: char) {
    '0' <= c <= '9' || 'a' <= c <= 'f'
  }

  /** `^r:[0-9a-f]{4}:[0-9a-f]{2}$`; the final `$` also matches before one last newline. */
  predicate IsReaction(s: string) {
    && (|s| == 9 || (|s| == 10 && s[9] == '\n'))
    && s[0] == 'r' && s[1] == ':' && s[6] == ':'
    && LowerHex(s[2]) && LowerHex(s[3]) && LowerHex(s[4]) && LowerHex(s[5]) && LowerHex(s[7]) && LowerHex(s[8])
  }

  predicate IsFramed(s: string) {
    || StartsWith(s, PREFIX_V2) || StartsWith(s, PREFIX_V3) || StartsWith(s, PREFIX_MCOTXT)
    || StartsWith(s, "aei1") || StartsWith(s, "IE4:") || StartsWith(s, "VE3:") || StartsWith(s, "rmt1:")
    || IsReaction(s)
  }

  predicate HasPayload(s: string, prefix: string) {
    StartsWith(LStrip(s), prefix) && |LStrip(s)| > |prefix|
  }

  // ---------------------------------------------------------------- v2

  predicate IsMarker(c: char) {
    c == '!' || c == '"' || c == '#'
  }

  function Packed(m: Model, text: string): string
    requires ValidModel(m)
  {
    var (escapes, bits) := CompressBits(m, text);
    [if escapes then '#' else '"'] + Encode91(StripZeros(PackBits(bits)))
  }

  function CompressTransport(m: Model, text: string): string
    requires ValidModel(m)
  {
    if text == "" then "!"
    else if |Packed(m, text)| >= |text| && !IsMarker(text[0]) then text
    else Packed(m, text)
  }

  function EncodeIfSmaller(m: Model, text: string): string
    requires ValidModel(m)
  {
    if text == "" || StartsWith(text, PREFIX_V2) then text
    else
      var candidate := PREFIX_V2 + CompressTransport(m, text);
      if |Encode8(candidate)| < |Encode8(text)| then candidate else text
  }

  function DecompressTransport(m: Model, text: string): Result<string>
    requires ValidModel(m)
  {
    if text == "" || text[0] == '!' then Ok("")
    else if text[0] != '"' && text[0] != '#' then Err("Unknown MCMP v2 marker")
    else
      var payload :- DecodeV2(text[1..]);
      DecodeArithmetic(m, payload, text[0] == '#')
  }

  function TryDecodePrefixed(m: Model, text: string): Option<string>
    requires ValidModel(m)
  {
    if HasPayload(text, PREFIX_V2) then
      match DecompressTransport(m, LStrip(text)[|PREFIX_V2|..])
      case Ok(s) => Some(s)
      case Err(_) => None
    else None
  }

  // ---------------------------------------------------------------- v3

  function EncodeV3Text(m: Model, text: string, timestamp: int, sender: Option<string>,
                        replyName: Option<string>, replyTime: Option<int>): string
    requires ValidModel(m)
  {
    if text == "" || HasPayload(text, PREFIX_V3) || HasPayload(text, PREFIX_V2) then text
    else
      match EncodeV3Body(m, text, timestamp, sender, replyName, replyTime)
      case Ok(body) => PREFIX_V3 + Encode91(body)
      case Err(_) => text
  }

  function TryDecodeV3Text(m: Model, text: string): Option<(Header, string)>
    requires ValidModel(m)
  {
    if HasPayload(text, PREFIX_V3) then
      match DecodeV3(LStrip(text)[|PREFIX_V3|..])
      case Ok(body) => (match DecodeV3Body(m, body) case Ok(d) => Some(d) case Err(_) => None)
      case Err(_) => None
    else None
  }

  /** The length of the compressed segment of a v3 payload, if it is one. */
  function SegmentBytes(text: string): Option<nat> {
    if HasPayload(text, PREFIX_V3) then
      match DecodeV3(LStrip(text)[|PREFIX_V3|..])
      case Ok(body) => (match ReadHeader(body) case Ok(h) => Some(|h.1|) case Err(_) => None)
      case Err(_) => None
    else None
  }

  // ---------------------------------------------------------------- pipeline

  /** Compress for sending; version 3 always wraps, every other version here is the v2 transport. */
  function EncodeOutbound(m: Model, text: string, version: int, timestamp: int): string
    requires ValidModel(m) && version != TRANSPORT_MCOTXT
  {
    if text == "" || IsFramed(text) then text
    else if version == 3 then EncodeV3Text(m, text, timestamp, None, None, None)
    else EncodeIfSmaller(m, text)
  }

  function TryDecodeIncoming(m: Model, mcotxt: string -> Option<string>, text: string): Option<string>
    requires ValidModel(m)
  {
    if text == "" then None
    else if StartsWith(LStrip(text), PREFIX_MCOTXT) then mcotxt(text)
    else if !StartsWith(LStrip(text), PREFIX_V3) && !StartsWith(LStrip(text), PREFIX_V2) then None
    else
      match TryDecodeV3Text(m, text)
      case Some((_, s)) => Some(s)
      case None => TryDecodePrefixed(m, text)
  }

  function DecodeIncomingBody(m: Model, mcotxt: string -> Option<string>, text: string): string
    requires ValidModel(m)
  {
    match TryDecodeIncoming(m, mcotxt, text)
    case Some(s) => s
    case None => text
  }

  // ---------------------------------------------------------------- properties

  /** Nothing the receiver would try to decode. */
  predicate LooksPlain(text: string) {
    && !StartsWith(LStrip(text), PREFIX_V2)
    && !StartsWith(LStrip(text), PREFIX_V3)
    && !StartsWith(LStrip(text), PREFIX_MCOTXT)
  }

  lemma {:induction false} Encode8Concat(a: string, b: string)
    ensures Encode8(a + b) == Encode8(a) + Encode8(b)
  {
    hide EncodeScalar;
    if a == "" {
      assert a + b == b;
      assert Encode8("") + Encode8(b) == Encode8(b);
    } else {
      var s, head := a + b, EncodeScalar(a[0]);
      assert s[0] == a[0] && s[1..] == a[1..] + b;
      assert Encode8(s) == head + Encode8(s[1..]) && Encode8(a) == head + Encode8(a[1..]);
      Encode8Concat(a[1..], b);
      hide Encode8;
      assert head + (Encode8(a[1..]) + Encode8(b)) == head + Encode8(a[1..]) + Encode8(b);
    }
  }

  lemma PackedDecodes(m: Model, text: string)
    requires ValidModel(m)
    ensures Packed(m, text) != ""
    ensures DecompressTransport(m, Packed(m, text)) == DecodeArithmetic(m, CodedBytes(m, text, true), HasExtras(m, text))
  {
    hide Encode91, DecodeV2, DecodeArithmetic, StripZeros, PackBits, EncodeText, Finish;
    var payload := CodedBytes(m, text, true);
    BothInvert(payload);
    assert Packed(m, text)[1..] == Encode91(payload);
  }

  lemma PrefixedIsRead(prefix: string, payload: string)
    requires (prefix == PREFIX_V2 || prefix == PREFIX_V3) && payload != ""
    ensures var wire := prefix + payload;
            && LStrip(wire) == wire && HasPayload(wire, prefix) && wire[|prefix|..] == payload
            && !StartsWith(wire, PREFIX_MCOTXT)
            && (prefix == PREFIX_V2 ==> !StartsWith(wire, PREFIX_V3))
  {
    var wire := prefix + payload;
    assert wire[0] == 'm' && wire[1] == 'c' && wire[2] == 'm' && wire[3] == 'p';
    assert prefix == PREFIX_V2 ==> wire[4] == '2';
    assert PREFIX_MCOTXT[2] == 't' && PREFIX_V3[4] == '3';
  }

  /** When version 2 sends the text as it is: nothing to send, framed already, no shorter in characters
      (though it may be in bytes), or no shorter in bytes with its prefix. */
  predicate GoesPlainV2(m: Model, text: string)
    requires ValidModel(m)
  {
    || text == "" || IsFramed(text)
    || (|Packed(m, text)| >= |text| && !IsMarker(text[0]))
    || |Encode8(PREFIX_V2 + Packed(m, text))| >= |Encode8(text)|
  }

  lemma V2WireIs(m: Model, text: string, timestamp: int)
    requires ValidModel(m)
    ensures EncodeOutbound(m, text, 2, timestamp) ==
            if GoesPlainV2(m, text) then text else PREFIX_V2 + Packed(m, text)
    ensures !GoesPlainV2(m, text) ==> PREFIX_V2 + Packed(m, text) != text
  {
    hide Packed, Encode8;
    Encode8Concat(PREFIX_V2, text);
  }

  /** What a text sent plain comes to: itself, unless the receiver can decode it to something else. */
  lemma PlainReturns(m: Model, mcotxt: string -> Option<string>, text: string)
    requires ValidModel(m)
    ensures DecodeIncomingBody(m, mcotxt, text) == text <==>
            LooksPlain(text) || TryDecodeIncoming(m, mcotxt, text) in {None, Some(text)}
  {
    hide TryDecodeV3Text, TryDecodePrefixed;
  }

  /** The v2 pipeline never makes a message longer, and the receiver gets the text back if and only if
      either it goes out plain and is not taken for something else, or the codec returns it, which for
      a text that does not mix ESC with unknown characters means that it is transmissible. */
  lemma V2Pipeline(m: Model, mcotxt: string -> Option<string>, text: string, timestamp: int)
    requires ValidModel(m)
    ensures var wire := EncodeOutbound(m, text, 2, timestamp);
            && |Encode8(wire)| <= |Encode8(text)|
            && (DecodeIncomingBody(m, mcotxt, wire) == text <==>
                if GoesPlainV2(m, text) then LooksPlain(text) || TryDecodeIncoming(m, mcotxt, text) in {None, Some(text)}
                else Returns(m, text, true))
    ensures (ESC in text ==> !HasExtras(m, text) && OneEscape(m)) ==> (Returns(m, text, true) <==> Transmissible(m, text))
  {
    hide Packed, DecompressTransport, Encode8, IsFramed, LooksPlain, DecodeArithmetic, CodedBytes, Transmissible, EncodeOutbound;
    V2WireIs(m, text, timestamp);
    if GoesPlainV2(m, text) {
      PlainReturns(m, mcotxt, text);
    } else {
      PackedDecodes(m, text);
      V2WireReads(m, mcotxt, text);
    }
    if ESC in text ==> !HasExtras(m, text) && OneEscape(m) {
      RoundTrip(m, text, true);
    }
  }

  /** What the receiver makes of a packed text: its decoding, or the wire text where it does not decode. */
  lemma V2WireReads(m: Model, mcotxt: string -> Option<string>, text: string)
    requires ValidModel(m)
    ensures var wire := PREFIX_V2 + Packed(m, text);
            DecodeIncomingBody(m, mcotxt, wire) ==
            match DecompressTransport(m, Packed(m, text)) case Ok(s) => s case Err(_) => wire
  {
    PackedDecodes(m, text);
    PrefixedIsRead(PREFIX_V2, Packed(m, text));
    hide Packed, DecompressTransport, LStrip;
  }

  lemma {:induction false} EncodeBitsNonEmpty(bits: seq<Bit>)
    requires bits != []
    ensures EncodeBits(bits) != ""
  {
    if |bits| > 13 {
      PairFits(bits);
    } else {
      TailBound(bits);
    }
  }

  /** What the receiver makes of a wrapped body: its text, or the wire text where it does not decode. */
  lemma V3WireReads(m: Model, mcotxt: string -> Option<string>, body: seq<Byte>)
    requires ValidModel(m) && Encode91(body) != ""
    ensures var wire := PREFIX_V3 + Encode91(body);
            DecodeIncomingBody(m, mcotxt, wire) == match DecodeV3Body(m, body) case Ok(d) => d.1 case Err(_) => wire
  {
    hide Encode91, DecodeV3, DecodeV3Body, LStrip;
    BothInvert(body);
    PrefixedIsRead(PREFIX_V3, Encode91(body));
    assert !StartsWith(PREFIX_V3 + Encode91(body), PREFIX_V2) by {
      assert (PREFIX_V3 + Encode91(body))[4] == '3' && PREFIX_V2[4] == '2';
    }
  }

  /** When version 3 sends the text as it is: nothing to send, framed already (with or without leading
      white space), or a timestamp the container cannot carry. */
  predicate GoesPlainV3(text: string, timestamp: int) {
    || text == "" || IsFramed(text) || HasPayload(text, PREFIX_V3) || HasPayload(text, PREFIX_V2)
    || timestamp < 0 || timestamp >= UINT32_LIMIT
  }

  /** Through the v3 pipeline the receiver gets the text back if and only if either it goes out plain and
      is not taken for something else, or its binary form returns it. */
  lemma V3Pipeline(m: Model, mcotxt: string -> Option<string>, text: string, timestamp: int)
    requires ValidModel(m)
    ensures DecodeIncomingBody(m, mcotxt, EncodeOutbound(m, text, 3, timestamp)) == text <==>
            if GoesPlainV3(text, timestamp)
            then LooksPlain(text) || TryDecodeIncoming(m, mcotxt, text) in {None, Some(text)}
            else BinaryReturns(m, text)
  {
    hide Encode91, DecodeV3Body, DecodeIncomingBody, IsReaction, BinaryReturns, LooksPlain, CompressToBytes;
    if GoesPlainV3(text, timestamp) {
      PlainReturns(m, mcotxt, text);
    } else {
      var body := EncodeV3Body(m, text, timestamp, None, None, None).value;
      var wire := EncodeOutbound(m, text, 3, timestamp);
      assert wire == PREFIX_V3 + Encode91(body) && wire != text;
      BodyRoundTrip(m, text, timestamp, None, None, None);
      BodyNonEmpty(m, text, timestamp, None, None, None);
      V3WireReads(m, mcotxt, body);
    }
  }

  lemma BodyNonEmpty(m: Model, text: string, timestamp: int, sender: Option<string>,
                     replyName: Option<string>, replyTime: Option<int>)
    requires ValidModel(m) && EncodeV3Body(m, text, timestamp, sender, replyName, replyTime).Ok?
    ensures Encode91(EncodeV3Body(m, text, timestamp, sender, replyName, replyTime).value) != ""
  {
    hide CompressToBytes, EncodeBits, WriteSender, WriteReply;
    var body := EncodeV3Body(m, text, timestamp, sender, replyName, replyTime).value;
    assert |DataBits(body)| == 8 * |body| > 0;
    EncodeBitsNonEmpty(DataBits(body));
  }

  // ---------------------------------------------------------------- containers with names and anchors

  /** The container can carry these fields. */
  predicate Carriable(timestamp: int, replyName: Option<string>, replyTime: Option<int>) {
    && 0 <= timestamp < UINT32_LIMIT && replyName.Some? == replyTime.Some?
    && (replyTime.Some? ==> 0 <= replyTime.value < UINT32_LIMIT)
  }

  function HeaderOf(timestamp: int, sender: Option<string>, replyName: Option<string>, replyTime: Option<int>): Header
    requires Carriable(timestamp, replyName, replyTime)
  {
    Header(timestamp, sender, false, if replyName.Some? then Some((replyName.value, replyTime.value)) else None)
  }

  /** `encode_v3_text` wraps every text that is not a payload already, if its fields can be carried. A reader
      of the wire text gets every field back, and the text if and only if its binary form returns it; the
      length reported for the segment is that of the compressed text. Names of 2^35 bytes or more make the
      whole payload unreadable. */
  lemma WrappedReads(m: Model, text: string, timestamp: int, sender: Option<string>,
                     replyName: Option<string>, replyTime: Option<int>)
    requires ValidModel(m) && text != "" && !HasPayload(text, PREFIX_V3) && !HasPayload(text, PREFIX_V2)
    ensures var wire := EncodeV3Text(m, text, timestamp, sender, replyName, replyTime);
            if !Carriable(timestamp, replyName, replyTime) then wire == text
            else
              var h := HeaderOf(timestamp, sender, replyName, replyTime);
              && SegmentBytes(wire) == (if ShortNames(h) then Some(|CompressToBytes(m, text)|) else None)
              && (TryDecodeV3Text(m, wire).Some? ==> ShortNames(h) && TryDecodeV3Text(m, wire).value.0 == h)
              && (TryDecodeV3Text(m, wire) == Some((h, text)) <==> ShortNames(h) && BinaryReturns(m, text))
  {
    if Carriable(timestamp, replyName, replyTime) {
      var h := HeaderOf(timestamp, sender, replyName, replyTime);
      BodyIs(m, text, timestamp, sender, replyName, replyTime);
      BodyNonEmpty(m, text, timestamp, sender, replyName, replyTime);
      var body := EncodeV3Body(m, text, timestamp, sender, replyName, replyTime).value;
      hide *;
      FramedBodyReads(m, body);
      BodyReads(m, text, h);
      WrapsBody(m, text, timestamp, sender, replyName, replyTime);
    } else {
      hide HasPayload, Encode91;
    }
  }

  lemma WrapsBody(m: Model, text: string, timestamp: int, sender: Option<string>,
                  replyName: Option<string>, replyTime: Option<int>)
    requires ValidModel(m) && text != "" && !HasPayload(text, PREFIX_V3) && !HasPayload(text, PREFIX_V2)
    requires EncodeV3Body(m, text, timestamp, sender, replyName, replyTime).Ok?
    ensures EncodeV3Text(m, text, timestamp, sender, replyName, replyTime)
            == PREFIX_V3 + Encode91(EncodeV3Body(m, text, timestamp, sender, replyName, replyTime).value)
  {
    hide EncodeV3Body, Encode91, HasPayload;
  }

  lemma BodyIs(m: Model, text: string, timestamp: int, sender: Option<string>,
               replyName: Option<string>, replyTime: Option<int>)
    requires ValidModel(m) && Carriable(timestamp, replyName, replyTime)
    ensures UnsignedHeader(HeaderOf(timestamp, sender, replyName, replyTime))
    ensures EncodeV3Body(m, text, timestamp, sender, replyName, replyTime)
            == Ok(WriteHeader(HeaderOf(timestamp, sender, replyName, replyTime)) + CompressToBytes(m, text))
  {
    hide WriteHeader, CompressToBytes;
  }

  /** A framed body is read as the body is. */
  lemma FramedBodyReads(m: Model, body: seq<Byte>)
    requires ValidModel(m) && Encode91(body) != ""
    ensures var wire := PREFIX_V3 + Encode91(body);
            && SegmentBytes(wire) == (match ReadHeader(body) case Ok(h) => Some(|h.1|) case Err(_) => None)
            && TryDecodeV3Text(m, wire) == (match DecodeV3Body(m, body) case Ok(d) => Some(d) case Err(_) => None)
  {
    hide Encode91, DecodeV3, ReadHeader, DecodeV3Body, LStrip;
    BothInvert(body);
    PrefixedIsRead(PREFIX_V3, Encode91(body));
  }

  lemma BodyReads(m: Model, text: string, h: Header)
    requires ValidModel(m) && UnsignedHeader(h)
    ensures var body := WriteHeader(h) + CompressToBytes(m, text);
            && (ShortNames(h) ==> ReadHeader(body) == Ok((h, CompressToBytes(m, text))))
            && (!ShortNames(h) ==> ReadHeader(body).Err? && DecodeV3Body(m, body).Err?)
            && (DecodeV3Body(m, body).Ok? ==> DecodeV3Body(m, body).value.0 == h)
            && (DecodeV3Body(m, body) == Ok((h, text)) <==> ShortNames(h) && BinaryReturns(m, text))
  {
    hide CompressToBytes, ReadHeader, WriteHeader, DecompressBytes, BinaryReturns, ShortNames;
    HeaderReadsBack(h, CompressToBytes(m, text));
    BinaryRoundTrip(m, text);
  }

  // ---------------------------------------------------------------- texts taken for something else

  /** Any text that reads as a v2 frame with the empty marker, behind white space or not, is emptied when
      it goes out as it is. */
  lemma FrameLookalikeIsLost(m: Model, mcotxt: string -> Option<string>, text: string)
    requires ValidModel(m) && StartsWith(LStrip(text), PREFIX_V2 + "!")
    ensures DecodeIncomingBody(m, mcotxt, text) == "" != text && !LooksPlain(text)
  {
    hide DecodeV3Body, DecodeV3, DecodeV2, LStrip;
    var s := LStrip(text);
    assert s[|PREFIX_V2|] == '!' && s[..|PREFIX_V2|] == PREFIX_V2 && s[4] == '2' && s[2] == 'm';
    assert PREFIX_V3[4] == '3' && PREFIX_MCOTXT[2] == 't';
    assert text != "" by { LStripOfEmpty(); }
  }

  lemma LStripOfEmpty()
    ensures LStrip("") == ""
  {
  }

  /** A frame nobody wrote: a prefix alone, an unknown v2 marker, or a character outside the alphabet. */
  predicate MalformedFrame(text: string) {
    var s := LStrip(text);
    || (StartsWith(s, PREFIX_V2)
        && (|s| == |PREFIX_V2| || !IsMarker(s[|PREFIX_V2|])
            || (s[|PREFIX_V2|] != '!' && !InAlphabet(s[|PREFIX_V2| + 1..]))))
    || (StartsWith(s, PREFIX_V3) && (|s| == |PREFIX_V3| || !InAlphabet(s[|PREFIX_V3|..])))
  }

  /** Such a text comes back as it was sent. */
  lemma MalformedFrameReturns(m: Model, mcotxt: string -> Option<string>, text: string)
    requires ValidModel(m) && MalformedFrame(text)
    ensures DecodeIncomingBody(m, mcotxt, text) == text
  {
    hide LStrip, InAlphabet, DecodeV3Body, DecodeArithmetic;
    var s := LStrip(text);
    assert PREFIX_V2[4] == '2' && PREFIX_V3[4] == '3' && PREFIX_MCOTXT[2] == 't';
    assert StartsWith(s, PREFIX_V2) ==> s[4] == '2' && s[2] == 'm';
    assert StartsWith(s, PREFIX_V3) ==> s[4] == '3' && s[2] == 'm';
    if StartsWith(s, PREFIX_V2) && |s| > |PREFIX_V2| {
      assert s[|PREFIX_V2|..][1..] == s[|PREFIX_V2| + 1..];
    }
  }

  /** The coded bits hold a one, so the packed text is at least two characters. */
  lemma PackedIsTwo(m: Model, text: string)
    requires ValidModel(m)
    ensures |Packed(m, text)| >= 2
  {
    hide EncodeText, EncodeBits, StripZeros, PackBits;
    var bits := CompressBits(m, text).1;
    PackCarries(bits);
    var c := EncodeText(m, FRESH_CODER, StartContext(m), HasExtras(m, text), text);
    FinishHasOne(c);
    var i :| 0 <= i < |bits| && bits[i] == 1;
    var data := StripZeros(PackBits(bits));
    assert BitAt(data, i) == 1;
    EncodeBitsNonEmpty(DataBits(data));
  }

  lemma FinishHasOne(c: Coder)
    ensures exists i :: 0 <= i < |Finish(c)| && Finish(c)[i] == 1
  {
    var b := if c.iv.low < QUARTER then 0 else 1;
    var tail := Repeat(1 - b, c.pending + 1);
    assert Finish(c) == c.bits + [b] + tail;
    assert Finish(c)[|c.bits|] == b;
    assert tail[|tail| - 1] == 1 - b;
    assert Finish(c)[|Finish(c)| - 1] == 1 - b;
  }

  lemma LookalikeShapes()
    ensures LStrip(" mcmp2:!") == "mcmp2:!" == LStrip("mcmp2:!") == PREFIX_V2 + "!"
  {
    var t := " mcmp2:!";
    assert t[1..] == "mcmp2:!";
  }

  lemma SpacedIsNotFramed()
    ensures !IsFramed(" mcmp2:!") && IsFramed("mcmp2:!")
  {
    var t := " mcmp2:!";
    assert t[0] == ' ' && |t| == 8;
    assert PREFIX_V2[0] == PREFIX_V3[0] == PREFIX_MCOTXT[0] == 'm';
    assert "mcmp2:!"[..6] == PREFIX_V2;
  }

  /** Framing is judged without stripping and decoding with it: on every model these two texts, with and
      without a leading space, go out plain and arrive empty. */
  lemma LeadingSpaceIsLost(m: Model, mcotxt: string -> Option<string>, timestamp: int, spaced: bool)
    requires ValidModel(m)
    ensures var text := if spaced then " mcmp2:!" else "mcmp2:!";
            && IsFramed(text) == !spaced && GoesPlainV2(m, text)
            && DecodeIncomingBody(m, mcotxt, EncodeOutbound(m, text, 2, timestamp)) == ""
  {
    hide IsFramed, GoesPlainV2, EncodeOutbound, DecodeIncomingBody, LStrip;
    var text := if spaced then " mcmp2:!" else "mcmp2:!";
    LookalikeShapes();
    SpacedIsNotFramed();
    FrameLookalikeIsLost(m, mcotxt, text);
    SpacedIsPlain(m);
    V2WireIs(m, text, timestamp);
  }

  lemma {:induction false} AtLeastOneByte(s: string)
    ensures |Encode8(s)| >= |s|
  {
    if s != "" {
      AtLeastOneByte(s[1..]);
    }
  }

  lemma {:induction false} AsciiIsOneByte(s: string)
    requires forall i :: 0 <= i < |s| ==> s[i] as int < 128
    ensures |Encode8(s)| == |s|
  {
    if s != "" {
      assert |EncodeScalar(s[0])| == 1;
      AsciiIsOneByte(s[1..]);
    }
  }

  lemma SpacedIsPlain(m: Model)
    requires ValidModel(m)
    ensures GoesPlainV2(m, " mcmp2:!") && GoesPlainV2(m, "mcmp2:!")
  {
    hide Packed, Encode8, IsReaction;
    PackedIsTwo(m, " mcmp2:!");
    AtLeastOneByte(PREFIX_V2 + Packed(m, " mcmp2:!"));
    AsciiIsOneByte(" mcmp2:!");
    assert "mcmp2:!"[..6] == PREFIX_V2;
  }
}
