/** Which texts go out as they are and how each incoming text is read, with every prefix spelt out. */
module Framing {
  import opened Wrappers
  import opened ArithmeticCoder
  import opened FrequencyTable
  import opened MeshCodec
  import opened Base91
  import opened Utf8
  import opened Container
  import opened Transport

  /** A reaction: four and two lower-case hexadecimal digits, with or without a final newline. */
  ghost predicate Reaction(text: string) {
    exists hash, id :: ReactionOf(text, hash, id)
  }

  ghost predicate ReactionOf(text: string, hash: string, id: string) {
    && |hash| == 4 && |id| == 2 && AllHex(hash) && AllHex(id)
    && (text == "r:" + hash + ":" + id || text == "r:" + hash + ":" + id + "\n")
  }

  predicate AllHex(s: string) {
    forall i :: 0 <= i < |s| ==> HexDigit(s[i])
  }

  predicate HexDigit(c: char) {
    c in "0123456789abcdef"
  }

  /** The transport envelopes: seven prefixes, and reactions. */
  ghost predicate Envelope(text: string) {
    || "mcmp2:" <= text || "mcmp3:" <= text || "mct:" <= text || "aei1" <= text || "IE4:" <= text || "VE3:" <= text
    || "rmt1:" <= text || Reaction(text)
  }

  /** White space, the prefix, and at least one more character. */
  ghost predicate Behind(text: string, prefix: string) {
    exists k :: SpacesUpTo(text, k) && prefix < text[k..]
  }

  ghost predicate SpacesUpTo(text: string, k: int) {
    0 <= k <= |text| && forall i :: 0 <= i < k ==> IsSpace(text[i])
  }

  /** The characters Python strips. */
  lemma SpacesAre(c: char)
    ensures IsSpace(c) <==> c as int in {0x09, 0x0A, 0x0B, 0x0C, 0x0D, 0x1C, 0x1D, 0x1E, 0x1F, 0x20, 0x85, 0xA0, 0x1680,
                                         0x2000, 0x2001, 0x2002, 0x2003, 0x2004, 0x2005, 0x2006, 0x2007, 0x2008, 0x2009,
                                         0x200A, 0x2028, 0x2029, 0x202F, 0x205F, 0x3000}
  {
  }

  // ---------------------------------------------------------------- the shapes

  lemma HexIs(c: char)
    ensures LowerHex(c) <==> HexDigit(c)
  {
    var digits := "0123456789abcdef";
    if LowerHex(c) {
      var i := if c <= '9' then c as int - '0' as int else c as int - 'a' as int + 10;
      assert digits[i] == c;
    }
  }

  lemma ReactionParts(text: string)
    requires IsReaction(text)
    ensures ReactionOf(text, text[2..6], text[7..9])
  {
    HexIs(text[2]); HexIs(text[3]); HexIs(text[4]); HexIs(text[5]); HexIs(text[7]); HexIs(text[8]);
    hide HexDigit, LowerHex;
    FourHex(text[2..6]);
    TwoHex(text[7..9]);
    hide AllHex;
    ReactionText(text);
  }

  lemma FourHex(s: string)
    requires |s| == 4 && HexDigit(s[0]) && HexDigit(s[1]) && HexDigit(s[2]) && HexDigit(s[3])
    ensures AllHex(s)
  {
    hide HexDigit;
  }

  lemma TwoHex(s: string)
    requires |s| == 2 && HexDigit(s[0]) && HexDigit(s[1])
    ensures AllHex(s)
  {
    hide HexDigit;
  }

  lemma ReactionText(text: string)
    requires (|text| == 9 || (|text| == 10 && text[9] == '\n')) && text[0] == 'r' && text[1] == ':' && text[6] == ':'
    ensures text == "r:" + text[2..6] + ":" + text[7..9] || text == "r:" + text[2..6] + ":" + text[7..9] + "\n"
  {
    var base := "r:" + text[2..6] + ":" + text[7..9];
    assert base == text[..9];
    if |text| == 10 {
      assert text == text[..9] + "\n";
    }
  }

  lemma ReactionShape(text: string, hash: string, id: string)
    requires ReactionOf(text, hash, id)
    ensures IsReaction(text)
  {
    HexIs(hash[0]); HexIs(hash[1]); HexIs(hash[2]); HexIs(hash[3]);
    HexIs(id[0]); HexIs(id[1]);
    hide LowerHex, HexDigit;
    assert text[0] == 'r' && text[1] == ':' && text[6] == ':';
    assert text[2] == hash[0] && text[3] == hash[1] && text[4] == hash[2] && text[5] == hash[3];
    assert text[7] == id[0] && text[8] == id[1];
    assert |text| == 10 ==> text[9] == '\n';
  }

  lemma ReactionIs(text: string)
    ensures IsReaction(text) <==> Reaction(text)
  {
    hide IsReaction, ReactionOf;
    if IsReaction(text) {
      ReactionFits(text);
      ReactionParts(text);
    }
    if hash, id :| ReactionOf(text, hash, id) {
      ReactionShape(text, hash, id);
    }
  }

  lemma ReactionFits(text: string)
    requires IsReaction(text)
    ensures |text| >= 9
  {
  }

  lemma EnvelopeIs(text: string)
    ensures IsFramed(text) <==> Envelope(text)
  {
    ReactionIs(text);
    hide IsReaction, Reaction;
  }

  lemma {:induction false} StripIs(text: string) returns (k: nat)
    ensures SpacesUpTo(text, k) && LStrip(text) == text[k..] && (k < |text| ==> !IsSpace(text[k]))
  {
    hide IsSpace;
    if text != "" && IsSpace(text[0]) {
      var j := StripIs(text[1..]);
      k := j + 1;
      assert text[1..][j..] == text[k..];
      assert forall i :: 0 < i < k ==> text[i] == text[1..][i - 1];
    } else {
      k := 0;
    }
  }

  lemma PayloadIs(text: string, prefix: string)
    requires prefix != "" && !IsSpace(prefix[0])
    ensures HasPayload(text, prefix) <==> Behind(text, prefix)
  {
    var k := StripIs(text);
    hide IsSpace, LStrip;
    if j :| SpacesUpTo(text, j) && prefix < text[j..] {
      assert text[j] == text[j..][0] == prefix[0];
      assert j == k;
    }
  }

  // ---------------------------------------------------------------- sending

  /** Every envelope goes out as it is, on every version. On version 3 so does a text with an MCMP payload
      behind white space, or one whose timestamp the container cannot carry; everything else is wrapped. */
  lemma SendsV3(m: Model, text: string, timestamp: int)
    requires ValidModel(m)
    ensures var wire := EncodeOutbound(m, text, 3, timestamp);
            if text == "" || Envelope(text) || Behind(text, "mcmp2:") || Behind(text, "mcmp3:")
               || timestamp < 0 || timestamp >= 0x1_0000_0000
            then wire == text
            else
              var body := WriteHeader(Header(timestamp, None, false, None)) + CompressToBytes(m, text);
              wire == "mcmp3:" + Encode91(body) != text
  {
    EnvelopeIs(text);
    PayloadIs(text, "mcmp2:");
    PayloadIs(text, "mcmp3:");
    if 0 <= timestamp < UINT32_LIMIT {
      BodyIs(m, text, timestamp, None, None, None);
    }
    hide IsFramed, Envelope, Behind, HasPayload, Encode91, WriteHeader, CompressToBytes;
    if timestamp < 0 || timestamp >= UINT32_LIMIT {
      assert !Carriable(timestamp, None, None);
    } else if !(text == "" || Envelope(text) || Behind(text, "mcmp2:") || Behind(text, "mcmp3:")) {
      assert !("mcmp3:" <= text) by { NotWrapped(text); }
    }
  }

  lemma NotWrapped(text: string)
    requires !Envelope(text)
    ensures !("mcmp3:" <= text)
  {
  }

  /** Every other version but MCOtxt packs a text that is no envelope if its packed form is shorter, in
      characters (unless the text starts with a marker) and, with the prefix, in bytes. */
  lemma SendsV2(m: Model, text: string, version: int, timestamp: int)
    requires ValidModel(m) && version != 3 && version != 4
    ensures var wire, packed := EncodeOutbound(m, text, version, timestamp), "mcmp2:" + Packed(m, text);
            wire == if text == "" || Envelope(text) || (|Packed(m, text)| >= |text| && text[0] !in "!\"#")
                       || |Encode8(packed)| >= |Encode8(text)|
                    then text else packed
  {
    EnvelopeIs(text);
    V2WireIs(m, text, timestamp);
    hide IsFramed, Envelope, Packed, Encode8;
    if text != "" {
      MarkerIs(text[0]);
    }
  }

  lemma MarkerIs(c: char)
    ensures IsMarker(c) <==> c in "!\"#"
  {
    var markers := "!\"#";
    assert markers[0] == '!' && markers[1] == '"' && markers[2] == '#';
  }

  // ---------------------------------------------------------------- receiving

  function OrElse(r: Option<string>, text: string): string {
    if r.Some? then r.value else text
  }

  /** How every incoming text is read: white space aside, by its prefix alone; a body that does not decode is
      left as it is. */
  lemma Reads(m: Model, mcotxt: string -> Option<string>, text: string, k: nat)
    requires ValidModel(m) && SpacesUpTo(text, k) && (k < |text| ==> !IsSpace(text[k]))
    ensures var s := text[k..];
            DecodeIncomingBody(m, mcotxt, text) ==
            if "mct:" <= s then OrElse(mcotxt(text), text)
            else if "mcmp3:" < s then
              match DecodeV3(s[6..])
              case Ok(body) => (match DecodeV3Body(m, body) case Ok(d) => d.1 case Err(_) => text)
              case Err(_) => text
            else if "mcmp2:" < s then
              match DecompressTransport(m, s[6..]) case Ok(r) => r case Err(_) => text
            else text
  {
    var j := StripIs(text);
    assert j == k;
    hide LStrip, IsSpace, DecodeV3, DecodeV3Body, DecompressTransport;
    OnePrefix(text[k..]);
    ReadsStripped(m, mcotxt, text);
  }

  lemma OnePrefix(s: string)
    ensures "mcmp3:" <= s ==> !("mct:" <= s) && !("mcmp2:" <= s)
    ensures "mcmp2:" <= s ==> !("mct:" <= s)
  {
    assert "mcmp3:"[4] == '3' && "mcmp2:"[4] == '2' && "mct:"[2] == 't' && "mcmp3:"[2] == 'm' && "mcmp2:"[2] == 'm';
  }

  lemma ReadsStripped(m: Model, mcotxt: string -> Option<string>, text: string)
    requires ValidModel(m)
    ensures var s := LStrip(text);
            DecodeIncomingBody(m, mcotxt, text) ==
            if "mct:" <= s then OrElse(mcotxt(text), text)
            else if "mcmp3:" < s then
              match DecodeV3(s[6..])
              case Ok(body) => (match DecodeV3Body(m, body) case Ok(d) => d.1 case Err(_) => text)
              case Err(_) => text
            else if "mcmp2:" < s then
              match DecompressTransport(m, s[6..]) case Ok(r) => r case Err(_) => text
            else text
  {
    var s := LStrip(text);
    OnePrefix(s);
    LStripOfEmpty();
    hide LStrip, IsSpace, DecodeV3, DecodeV3Body, DecompressTransport;
    assert "mcmp3:" < s <==> StartsWith(s, PREFIX_V3) && |s| > 6;
    assert "mcmp2:" < s <==> StartsWith(s, PREFIX_V2) && |s| > 6;
  }
}
