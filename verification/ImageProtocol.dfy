/** Images over the mesh: fragments, reassembly, the fragment packet and the IE4 envelope.

    Reading a number in base 36 (`int(part, 36)`) is a parameter, known only on plain digit strings. */
module ImageProtocol {
  import opened Wrappers
  import opened ArithmeticCoder
  import opened Collections

  const MAX_FRAGMENTS: nat := 255
  const FRAGMENT_BYTES: nat := 152
  const MAX_ENCODED_BYTES: nat := 38760
  const PACKET_MAGIC: Byte := 0x49

  datatype Packet = Packet(session: string, index: int, data: seq<Byte>)

  // ---------------------------------------------------------------- fragments

  function FragmentCount(size: nat): nat {
    (size + FRAGMENT_BYTES - 1) / FRAGMENT_BYTES
  }

  function UpTo(encoded: seq<Byte>, k: nat): nat {
    if FRAGMENT_BYTES * k < |encoded| then FRAGMENT_BYTES * k else |encoded|
  }

  function FragmentAt(session: string, encoded: seq<Byte>, k: nat): Packet {
    Packet(session, k, encoded[UpTo(encoded, k)..UpTo(encoded, k + 1)])
  }

  function Fragments(session: string, encoded: seq<Byte>): (packets: seq<Packet>)
    ensures |packets| == FragmentCount(|encoded|)
  {
    seq(FragmentCount(|encoded|), k requires 0 <= k < FragmentCount(|encoded|) => FragmentAt(session, encoded, k))
  }

  function FragmentImage(session: string, encoded: seq<Byte>): Result<seq<Packet>> {
    if |encoded| < 1 || |encoded| > MAX_ENCODED_BYTES then Err("encoded image size is out of bounds")
    else if FragmentCount(|encoded|) > MAX_FRAGMENTS then Err("encoded image requires more than 255 fragments")
    else Ok(Fragments(session, encoded))
  }

  /** The packets by index; a later packet replaces an earlier one. */
  function ByIndex(packets: seq<Packet>): map<int, Packet> {
    if packets == [] then map[]
    else
      var last := packets[|packets| - 1];
      ByIndex(packets[..|packets| - 1])[last.index := last]
  }

  function Join(packets: map<int, Packet>, n: nat): seq<Byte>
    requires forall k :: 0 <= k < n ==> k in packets
  {
    if n == 0 then [] else Join(packets, n - 1) + packets[n - 1].data
  }

  function Reassemble(packets: seq<Packet>, total: nat): Option<seq<Byte>> {
    var held := ByIndex(packets);
    if |held| != total || exists k :: 0 <= k < total && k !in held then None else Some(Join(held, total))
  }

  ghost predicate Arrived(packets: seq<Packet>, k: int) {
    exists j :: 0 <= j < |packets| && packets[j].index == k
  }

  /** Only fragments of one image. */
  ghost predicate FragmentsOf(packets: seq<Packet>, session: string, encoded: seq<Byte>) {
    forall j :: 0 <= j < |packets| ==>
      0 <= packets[j].index < FragmentCount(|encoded|) && packets[j] == FragmentAt(session, encoded, packets[j].index)
  }

  lemma {:induction false} ByIndexKeys(packets: seq<Packet>)
    ensures forall k :: k in ByIndex(packets) <==> Arrived(packets, k)
  {
    if packets != [] {
      var n := |packets| - 1;
      var front := packets[..n];
      ByIndexKeys(front);
      assert Arrived(packets, packets[n].index);
      forall k
        ensures Arrived(packets, k) <==> Arrived(front, k) || k == packets[n].index
      {
        if j :| 0 <= j < |front| && front[j].index == k {
          assert packets[j].index == k;
        }
        if j :| 0 <= j < |packets| && packets[j].index == k && j != n {
          assert front[j].index == k;
        }
      }
    }
  }

  lemma {:induction false} ByIndexHolds(packets: seq<Packet>, session: string, encoded: seq<Byte>)
    requires FragmentsOf(packets, session, encoded)
    ensures forall k :: k in ByIndex(packets) ==>
              0 <= k < FragmentCount(|encoded|) && ByIndex(packets)[k] == FragmentAt(session, encoded, k)
  {
    hide FragmentAt, FragmentCount;
    if packets != [] {
      ByIndexHolds(packets[..|packets| - 1], session, encoded);
    }
  }

  lemma {:induction false} JoinIsPrefix(held: map<int, Packet>, session: string, encoded: seq<Byte>, n: nat)
    requires forall k :: 0 <= k < n ==> k in held && held[k] == FragmentAt(session, encoded, k)
    ensures Join(held, n) == encoded[..UpTo(encoded, n)]
  {
    if n > 0 {
      JoinIsPrefix(held, session, encoded, n - 1);
      assert held[n - 1] == FragmentAt(session, encoded, n - 1);
    }
  }

  lemma {:induction false} FullRange(keys: set<int>, n: nat)
    requires forall k :: k in keys <==> 0 <= k < n
    ensures |keys| == n
  {
    if n == 0 {
      assert forall k :: k !in keys;
      assert keys == {};
    } else {
      FullRange(keys - {n - 1}, n - 1);
    }
  }

  lemma OnlyFragmentsReassemble(session: string, encoded: seq<Byte>, got: seq<Packet>)
    requires FragmentsOf(got, session, encoded)
    ensures var total := FragmentCount(|encoded|);
            Reassemble(got, total) == if forall k :: 0 <= k < total ==> Arrived(got, k) then Some(encoded) else None
  {
    hide FragmentAt, FragmentsOf, Arrived;
    ByIndexHolds(got, session, encoded);
    ByIndexKeys(got);
    var total, held := FragmentCount(|encoded|), ByIndex(got);
    if forall k :: 0 <= k < total ==> Arrived(got, k) {
      FullRange(held.Keys, total);
      JoinIsPrefix(held, session, encoded, total);
      assert encoded[..UpTo(encoded, total)] == encoded;
    }
  }

  /** Any list of an image's fragments, in any order and with repeats, gives the image back if every
      fragment is there, and nothing otherwise. */
  lemma FragmentsReassemble(session: string, encoded: seq<Byte>, got: seq<Packet>)
    requires FragmentImage(session, encoded).Ok?
    requires forall j :: 0 <= j < |got| ==> got[j] in FragmentImage(session, encoded).value
    ensures var packets := FragmentImage(session, encoded).value;
            Reassemble(got, |packets|) ==
            if forall k :: 0 <= k < |packets| ==> packets[k] in got then Some(encoded) else None
  {
    hide UpTo, Reassemble;
    var packets := FragmentImage(session, encoded).value;
    forall k | 0 <= k < |packets|
      ensures Arrived(got, k) <==> packets[k] in got
    {
      if Arrived(got, k) {
        var j :| 0 <= j < |got| && got[j].index == k;
        assert got[j] == packets[k];
      }
    }
    OnlyFragmentsReassemble(session, encoded, got);
  }

  /** Any packets whatever reassemble if and only if their indices are exactly those below the total. */
  lemma ReassemblesExactly(packets: seq<Packet>, total: nat)
    ensures Reassemble(packets, total).Some? <==> forall k :: Arrived(packets, k) <==> 0 <= k < total
  {
    ByIndexKeys(packets);
    hide Arrived, ByIndex;
    var held := ByIndex(packets).Keys;
    if forall k :: 0 <= k < total ==> k in held {
      var full := set k | k in held && 0 <= k < total;
      FullRange(full, total);
      SubsetSize(full, held);
      assert full == held <==> forall k :: k in held ==> 0 <= k < total;
    }
  }

  // ---------------------------------------------------------------- hexadecimal session IDs

  function HexDigit(c: char): (d: int)
    ensures -1 <= d < 16
  {
    if '0' <= c <= '9' then c as int - '0' as int
    else if 'a' <= c <= 'f' then c as int - 'a' as int + 10
    else if 'A' <= c <= 'F' then c as int - 'A' as int + 10
    else -1
  }

  /** Digits of bases up to 36, in lower case. */
  function DigitChar(d: nat): char
    requires d < 36
  {
    if d < 10 then ('0' as int + d) as char else ('a' as int + d - 10) as char
  }

  predicate IsHex(s: string) {
    forall i :: 0 <= i < |s| ==> HexDigit(s[i]) >= 0
  }

  predicate IsSession(s: string) {
    |s| == 8 && IsHex(s)
  }

  function Lower(s: string): string {
    seq(|s|, i requires 0 <= i < |s| => if 'A' <= s[i] <= 'Z' then (s[i] as int + 32) as char else s[i])
  }

  function FromHex(s: string): (data: seq<Byte>)
    requires IsHex(s) && |s| % 2 == 0
    ensures 2 * |data| == |s|
  {
    seq(|s| / 2, i requires 0 <= i < |s| / 2 => 16 * HexDigit(s[2 * i]) + HexDigit(s[2 * i + 1]))
  }

  function ToHex(data: seq<Byte>): string {
    seq(2 * |data|, i requires 0 <= i < 2 * |data| =>
      DigitChar(if i % 2 == 0 then data[i / 2] / 16 else data[i / 2] % 16))
  }

  lemma LowerDigit(c: char)
    requires HexDigit(c) >= 0
    ensures DigitChar(HexDigit(c)) == Lower([c])[0]
  {
  }

  lemma PairReadsBack(s: string, k: nat)
    requires IsHex(s) && |s| % 2 == 0 && 2 * k < |s|
    ensures FromHex(s)[k] / 16 == HexDigit(s[2 * k]) && FromHex(s)[k] % 16 == HexDigit(s[2 * k + 1])
  {
    hide HexDigit;
  }

  lemma HexReadsBack(s: string)
    requires IsHex(s) && |s| % 2 == 0
    ensures ToHex(FromHex(s)) == Lower(s)
  {
    hide FromHex, HexDigit;
    forall i | 0 <= i < |s|
      ensures ToHex(FromHex(s))[i] == Lower(s)[i]
    {
      PairReadsBack(s, i / 2);
      LowerDigit(s[i]);
    }
  }

  lemma BytesReadBack(data: seq<Byte>)
    ensures IsHex(ToHex(data)) && FromHex(ToHex(data)) == data
  {
    forall i | 0 <= i < 2 * |data|
      ensures HexDigit(ToHex(data)[i]) == if i % 2 == 0 then data[i / 2] / 16 else data[i / 2] % 16
    {
    }
    forall i | 0 <= i < |data|
      ensures FromHex(ToHex(data))[i] == data[i]
    {
      assert 2 * i / 2 == i && (2 * i + 1) / 2 == i;
    }
  }

  // ---------------------------------------------------------------- packets

  function EncodePacket(p: Packet): Result<seq<Byte>> {
    if !IsSession(p.session) then Err("image session ID must be 8 hex characters")
    else if !(0 <= p.index < MAX_FRAGMENTS) then Err("image fragment index must be 0..254")
    else if !(1 <= |p.data| <= FRAGMENT_BYTES) then Err("image fragment payload must be 1..152 bytes")
    else Ok(Payload(FromHex(p.session), p.index, p.data))
  }

  function Payload(session: seq<Byte>, index: Byte, data: seq<Byte>): seq<Byte> {
    [PACKET_MAGIC] + session + [index] + data
  }

  function ParsePacket(payload: seq<Byte>): Option<Packet> {
    if !(7 <= |payload| <= 6 + FRAGMENT_BYTES) || payload[0] != PACKET_MAGIC then None
    else Some(Packet(ToHex(payload[1..5]), payload[5], payload[6..]))
  }

  /** An encoded packet parses back to itself, with the session ID in lower case. */
  lemma PacketReadsBack(p: Packet)
    requires EncodePacket(p).Ok?
    ensures ParsePacket(EncodePacket(p).value) == Some(p.(session := Lower(p.session)))
  {
    var payload := EncodePacket(p).value;
    assert payload[1..5] == FromHex(p.session) && payload[6..] == p.data;
    HexReadsBack(p.session);
  }

  /** Every payload that parses is what its packet encodes to, except that parsing takes index 255,
      which encoding refuses. */
  lemma ParsedPacketEncodes(payload: seq<Byte>)
    requires ParsePacket(payload).Some?
    ensures EncodePacket(ParsePacket(payload).value) ==
            if payload[5] == 255 then Err("image fragment index must be 0..254") else Ok(payload)
  {
    BytesReadBack(payload[1..5]);
    PayloadIs(payload);
    hide IsHex, ToHex, FromHex, Payload;
  }

  lemma PayloadIs(payload: seq<Byte>)
    requires |payload| >= 6 && payload[0] == PACKET_MAGIC
    ensures Payload(payload[1..5], payload[5], payload[6..]) == payload
  {
  }

  /** Fragmenting succeeds exactly on legal sizes; every fragment then encodes, and their number is the
      one the envelope demands. */
  lemma FragmentsEncode(session: string, encoded: seq<Byte>, k: nat)
    requires IsSession(session)
    ensures FragmentImage(session, encoded).Ok? <==> 1 <= |encoded| <= MAX_ENCODED_BYTES
    ensures FragmentImage(session, encoded).Ok? ==>
              var packets := FragmentImage(session, encoded).value;
              && ValidEnvelope(Envelope(session, Avif, |packets|, 1, 1, |encoded|))
              && (k < |packets| ==> EncodePacket(packets[k]).Ok?)
  {
    hide FromHex, IsHex;
  }

  // ---------------------------------------------------------------- base 36

  function Base36(value: nat): (s: string)
    ensures |s| >= 1
  {
    if value < 36 then [DigitChar(value)] else Base36(value / 36) + [DigitChar(value % 36)]
  }

  predicate PlainDigit(c: char) {
    '0' <= c <= '9' || 'a' <= c <= 'z'
  }

  predicate PlainDigits(s: string) {
    s != "" && forall i :: 0 <= i < |s| ==> PlainDigit(s[i])
  }

  function Digit36(c: char): nat
    requires PlainDigit(c)
  {
    if c <= '9' then c as int - '0' as int else c as int - 'a' as int + 10
  }

  function Value36(s: string): nat
    requires forall i :: 0 <= i < |s| ==> PlainDigit(s[i])
  {
    if s == "" then 0 else 36 * Value36(s[..|s| - 1]) + Digit36(s[|s| - 1])
  }

  function Pow36(k: nat): nat {
    if k == 0 then 1 else 36 * Pow36(k - 1)
  }

  /** Base 36 reads back, in no more digits than the value needs. */
  lemma {:induction false} Base36ReadsBack(value: nat, k: nat)
    ensures PlainDigits(Base36(value)) && Value36(Base36(value)) == value
    ensures k >= 1 && value < Pow36(k) ==> |Base36(value)| <= k
    decreases value
  {
    var s := Base36(value);
    if value < 36 {
      assert s[..0] == "";
    } else {
      Base36ReadsBack(value / 36, if k > 0 then k - 1 else 0);
      assert s[..|s| - 1] == Base36(value / 36);
      if k == 1 {
        assert Pow36(1) == 36 * Pow36(0);
      }
    }
  }

  /** The digit loop. */
  method Base36Loop(value: nat) returns (s: string)
    ensures s == Base36(value)
  {
    if value == 0 {
      return "0";
    }
    hide Base36, DigitChar;
    var v := value;
    s := "";
    assert Base36(value) + "" == Base36(value);
    while v != 0
      invariant (if v == 0 then "" else Base36(v)) + s == Base36(value)
    {
      Base36Step(v, s);
      s := [DigitChar(v % 36)] + s;
      v := v / 36;
    }
    assert "" + s == s;
  }

  lemma Base36Step(v: nat, s: string)
    requires v != 0
    ensures (if v / 36 == 0 then "" else Base36(v / 36)) + ([DigitChar(v % 36)] + s) == Base36(v) + s
  {
    hide DigitChar;
    if v < 36 {
      assert "" + ([DigitChar(v)] + s) == [DigitChar(v)] + s;
    } else {
      assert Base36(v / 36) + ([DigitChar(v % 36)] + s) == Base36(v / 36) + [DigitChar(v % 36)] + s;
    }
  }

  // ---------------------------------------------------------------- the envelope

  datatype ImageFormat = Avif | Jpeg

  datatype Envelope = Envelope(session: string, format: ImageFormat, total: int, width: int, height: int, size: int)

  predicate ValidEnvelope(e: Envelope) {
    && IsSession(e.session) && 1 <= e.total <= MAX_FRAGMENTS && 1 <= e.width <= 256 && 1 <= e.height <= 256
    && 1 <= e.size <= MAX_ENCODED_BYTES && e.total == FragmentCount(e.size)
  }

  /** `int(s, 16)`. */
  function HexValue(s: string): nat
    requires IsHex(s)
  {
    if s == "" then 0 else 16 * HexValue(s[..|s| - 1]) + HexDigit(s[|s| - 1])
  }

  /** The last `width` hexadecimal digits of a number. */
  function HexDigits(n: nat, width: nat): string {
    if width == 0 then "" else HexDigits(n / 16, width - 1) + [DigitChar(n % 16)]
  }

  function Pow16(k: nat): nat {
    if k == 0 then 1 else 16 * Pow16(k - 1)
  }

  lemma {:induction false} SessionReadsBack(s: string)
    requires IsHex(s)
    ensures HexDigits(HexValue(s), |s|) == Lower(s) && HexValue(s) < Pow16(|s|)
  {
    if s != "" {
      var n := |s| - 1;
      SessionReadsBack(s[..n]);
      LowerDigit(s[n]);
      assert HexValue(s) / 16 == HexValue(s[..n]) && HexValue(s) % 16 == HexDigit(s[n]);
      assert Lower(s) == Lower(s[..n]) + Lower([s[n]]);
    }
  }

  function JoinFields(fields: seq<string>): string
    requires fields != []
  {
    if |fields| == 1 then fields[0] else fields[0] + ":" + JoinFields(fields[1..])
  }

  function SplitFields(s: string): (fields: seq<string>)
    ensures fields != []
  {
    if s == "" then [""]
    else
      var rest := SplitFields(s[1..]);
      if s[0] == ':' then [""] + rest else [[s[0]] + rest[0]] + rest[1..]
  }

  lemma {:induction false} SplitAtField(field: string, rest: string)
    requires ':' !in field
    ensures SplitFields(field) == [field] && SplitFields(field + ":" + rest) == [field] + SplitFields(rest)
  {
    var s := field + ":" + rest;
    if field == "" {
      assert s[1..] == rest;
    } else {
      SplitAtField(field[1..], rest);
      assert s[1..] == field[1..] + ":" + rest;
      assert field == [field[0]] + field[1..];
    }
  }

  /** Splitting undoes joining, for fields without the separator. */
  lemma {:induction false} FieldsReadBack(fields: seq<string>)
    requires fields != [] && forall i :: 0 <= i < |fields| ==> ':' !in fields[i]
    ensures SplitFields(JoinFields(fields)) == fields
  {
    if |fields| == 1 {
      SplitAtField(fields[0], "");
    } else {
      FieldsReadBack(fields[1..]);
      SplitAtField(fields[0], JoinFields(fields[1..]));
    }
  }

  function Numbers(e: Envelope): seq<nat>
    requires ValidEnvelope(e)
  {
    [HexValue(e.session), if e.format.Avif? then 0 else 1, e.total, e.width, e.height, e.size]
  }

  function EncodeEnvelope(e: Envelope): Result<string> {
    if !ValidEnvelope(e) then Err("invalid image envelope")
    else
      var n := Numbers(e);
      Ok("IE4:" + JoinFields([Base36(n[0]), Base36(n[1]), Base36(n[2]), Base36(n[3]), Base36(n[4]), Base36(n[5])]))
  }

  function ParseEnvelope(int36: string -> Option<int>, text: string): Option<Envelope> {
    if !("IE4:" <= text) then None
    else
      var parts := SplitFields(text[4..]);
      if |parts| != 6 || |parts[0]| > 7 || !PlainDigits(parts[0]) then None
      else if exists i :: 0 <= i < 6 && int36(parts[i]).None? then None
      else
        var sid, format := Value36(parts[0]), int36(parts[1]).value;
        if sid > 0xFFFF_FFFF || format < 0 || format > 1 then None
        else
          var e := Envelope(HexDigits(sid, 8), if format == 0 then Avif else Jpeg, int36(parts[2]).value,
                            int36(parts[3]).value, int36(parts[4]).value, int36(parts[5]).value);
          if ValidEnvelope(e) then Some(e) else None
  }

  /** The number reader on plain digit strings. */
  ghost predicate Reads36(int36: string -> Option<int>) {
    forall s :: PlainDigits(s) ==> int36(s) == Some(Value36(s))
  }

  lemma LowerIsSession(s: string)
    requires IsSession(s)
    ensures IsSession(Lower(s))
  {
  }

  /** An encoded envelope parses back to itself, with the session ID in lower case. */
  lemma EnvelopeReadsBack(int36: string -> Option<int>, e: Envelope)
    requires Reads36(int36) && ValidEnvelope(e)
    ensures EncodeEnvelope(e).Ok?
    ensures ParseEnvelope(int36, EncodeEnvelope(e).value) == Some(e.(session := Lower(e.session)))
  {
    var n := Numbers(e);
    EnvelopeFields(e);
    SessionReadsBack(e.session);
    SevenDigits();
    LowerIsSession(e.session);
    hide Base36, Value36, JoinFields, SplitFields, HexValue, HexDigits, Lower, Pow16, Pow36, IsHex, PlainDigits, EncodeEnvelope;
    forall i | 0 <= i < 6
      ensures PlainDigits(Base36(n[i])) && int36(Base36(n[i])) == Some(n[i]) && Value36(Base36(n[i])) == n[i]
    {
      Base36ReadsBack(n[i], 7);
    }
    Base36ReadsBack(n[0], 7);
  }

  lemma EnvelopeFields(e: Envelope)
    requires ValidEnvelope(e)
    ensures var n := Numbers(e);
            && EncodeEnvelope(e).Ok? && "IE4:" <= EncodeEnvelope(e).value
            && SplitFields(EncodeEnvelope(e).value[4..])
               == [Base36(n[0]), Base36(n[1]), Base36(n[2]), Base36(n[3]), Base36(n[4]), Base36(n[5])]
  {
    var n := Numbers(e);
    var fields := [Base36(n[0]), Base36(n[1]), Base36(n[2]), Base36(n[3]), Base36(n[4]), Base36(n[5])];
    hide Base36, JoinFields, SplitFields, HexValue, IsHex;
    forall i | 0 <= i < 6
      ensures ':' !in Base36(n[i])
    {
      NoColon(n[i]);
    }
    assert forall i :: 0 <= i < 6 ==> fields[i] == Base36(n[i]);
    FieldsReadBack(fields);
    assert ("IE4:" + JoinFields(fields))[4..] == JoinFields(fields);
  }

  lemma NoColon(value: nat)
    ensures ':' !in Base36(value)
  {
    Base36ReadsBack(value, 7);
    hide Base36, Value36;
    assert !PlainDigit(':');
  }

  /** Which envelopes are sent, and which can be received: an eight-digit session, sides of at most 256, and as many
      fragments of 152 bytes as the size needs, at most 255. A received session is the number that was sent. */
  lemma EnvelopeIs(int36: string -> Option<int>, text: string, e: Envelope)
    ensures EncodeEnvelope(e).Ok? <==>
            && |e.session| == 8 && IsHex(e.session) && 1 <= e.total <= 255 && 1 <= e.width <= 256 && 1 <= e.height <= 256
            && 1 <= e.size <= 38760 && 152 * (e.total - 1) < e.size <= 152 * e.total
    ensures ParseEnvelope(int36, text) == Some(e) ==>
            && EncodeEnvelope(e).Ok? && |text| >= 4 && PlainDigits(SplitFields(text[4..])[0])
            && HexValue(e.session) == Value36(SplitFields(text[4..])[0])
  {
    hide Base36, Value36, JoinFields, SplitFields, HexDigits, HexValue, IsHex;
    if ParseEnvelope(int36, text) == Some(e) {
      SevenDigits();
      HexDigitsValue(Value36(SplitFields(text[4..])[0]), 8);
    }
  }

  lemma {:induction false} HexDigitsValue(n: nat, width: nat)
    ensures IsHex(HexDigits(n, width)) && (n < Pow16(width) ==> HexValue(HexDigits(n, width)) == n)
  {
    if width > 0 {
      HexDigitsValue(n / 16, width - 1);
      var s := HexDigits(n, width);
      assert s[..|s| - 1] == HexDigits(n / 16, width - 1);
      assert HexDigit(DigitChar(n % 16)) == n % 16;
    }
  }

  lemma SevenDigits()
    ensures Pow16(8) == 0x1_0000_0000 < Pow36(7)
  {
    assert Pow16(4) == 65536;
    assert Pow36(3) == 46656 && Pow36(5) == 60466176;
  }
}
