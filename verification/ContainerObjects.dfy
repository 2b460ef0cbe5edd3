/** The container's byte reader, whose offset moves as it reads, and the varuint loops, proved against
    `Container`. */
module ContainerObjects {
  import opened Wrappers
  import opened ArithmeticCoder
  import opened Utf8
  import opened Base91
  import opened Base91Loops
  import opened Container
  import opened Transport

  method WriteVaruintLoop(value: nat) returns (out: seq<Byte>)
    ensures out == WriteVaruint(value)
  {
    out := [];
    var v := value;
    while v >= 128
      invariant out + WriteVaruint(v) == WriteVaruint(value)
      decreases v
    {
      assert out + ([v % 128 + 128] + WriteVaruint(v / 128)) == out + [v % 128 + 128] + WriteVaruint(v / 128);
      out := out + [v % 128 + 128];
      v := v / 128;
    }
    out := out + [v];
  }

  /** What a step of the reader did: its result and the bytes still unread. */
  function Step<T>(r: Result<T>, rest: seq<Byte>): Result<(T, seq<Byte>)> {
    if r.Ok? then Ok((r.value, rest)) else Err(r.error)
  }

  class ByteReader {
    const data: seq<Byte>
    var offset: nat

    ghost predicate Valid()
      reads this
    {
      offset <= |data|
    }

    ghost function Unread(): seq<Byte>
      requires Valid()
      reads this
    {
      data[offset..]
    }

    constructor (data: seq<Byte>)
      ensures Valid() && this.data == data && Unread() == data
    {
      this.data := data;
      offset := 0;
    }

    method ReadByte() returns (r: Result<Byte>)
      requires Valid()
      modifies this
      ensures Valid()
      ensures r == if old(Unread()) == [] then Err("unexpected end of MCMP v3 body") else Ok(old(Unread())[0])
      ensures Unread() == if r.Ok? then old(Unread())[1..] else old(Unread())
    {
      if offset >= |data| {
        return Err("unexpected end of MCMP v3 body");
      }
      r := Ok(data[offset]);
      offset := offset + 1;
    }

    method ReadBytes(length: nat) returns (r: Result<seq<Byte>>)
      requires Valid()
      modifies this
      ensures Valid()
      ensures Step(r, Unread()) == TakeBytes(old(Unread()), length)
    {
      if offset + length > |data| {
        return Err("unexpected end of MCMP v3 body");
      }
      assert data[offset..][..length] == data[offset..offset + length];
      assert data[offset..][length..] == data[offset + length..];
      r := Ok(data[offset..offset + length]);
      offset := offset + length;
    }

    method ReadUint() returns (r: Result<nat>)
      requires Valid()
      modifies this
      ensures Valid()
      ensures Step(r, Unread()) == ReadUint32(old(Unread()))
    {
      var b := ReadBytes(4);
      if b.Err? {
        return Err(b.error);
      }
      var v := b.value;
      r := Ok(v[0] as int + 256 * v[1] as int + 65536 * v[2] as int + 16777216 * v[3] as int);
    }

    method ReadVar() returns (r: Result<nat>)
      requires Valid()
      modifies this
      ensures Valid()
      ensures Step(r, Unread()) == ReadVaruint(old(Unread()), 0, 0)
    {
      var result, shift := 0, 0;
      while true
        invariant Valid() && 0 <= shift <= 28 && result >= 0
        invariant ReadVaruint(Unread(), shift, result) == ReadVaruint(old(Unread()), 0, 0)
        decreases 28 - shift
      {
        var byte := ReadByte();
        if byte.Err? {
          return Err(byte.error);
        }
        result := result + Scale(byte.value % 128, shift);
        if byte.value < 128 {
          return Ok(result);
        }
        shift := shift + 7;
        if shift > 28 {
          return Err("MCMP v3 varuint too long");
        }
      }
    }

    method ReadNameField() returns (r: Result<string>)
      requires Valid()
      modifies this
      ensures Valid()
      ensures Step(r, Unread()) == ReadName(old(Unread()))
    {
      hide ReadVaruint, Decode8, TakeBytes;
      var n := ReadVar();
      if n.Err? {
        return Err(n.error);
      }
      var bytes := ReadBytes(n.value);
      if bytes.Err? {
        return Err(bytes.error);
      }
      r := Decode8(bytes.value);
    }

    method ReadReplyFields(flags: Byte) returns (r: Result<Option<(string, nat)>>)
      requires Valid()
      modifies this
      ensures Valid()
      ensures Step(r, Unread()) == ReadReply(flags, old(Unread()))
    {
      hide ReadName, ReadUint32;
      if flags % 2 == 0 {
        return Ok(None);
      }
      var name := ReadNameField();
      if name.Err? {
        return Err(name.error);
      }
      var time := ReadUint();
      if time.Err? {
        return Err(time.error);
      }
      r := Ok(Some((name.value, time.value)));
    }

    method ReadSenderField(flags: Byte) returns (r: Result<Option<string>>)
      requires Valid()
      modifies this
      ensures Valid()
      ensures Step(r, Unread()) == ReadSender(flags, old(Unread()))
    {
      hide ReadName;
      if flags / 4 % 2 == 0 {
        return Ok(None);
      }
      var name := ReadNameField();
      if name.Err? {
        return Err(name.error);
      }
      r := Ok(Some(name.value));
    }

    /** Shared by decoding and by measuring the text segment, so the two cannot disagree. */
    method ReadHeaderFields() returns (r: Result<Header>)
      requires Valid()
      modifies this
      ensures Valid()
      ensures Step(r, Unread()) == ReadHeader(old(Unread()))
    {
      hide ReadSender, ReadReply, ReadUint32, TakeBytes;
      var flags := ReadByte();
      if flags.Err? {
        return Err(flags.error);
      }
      if flags.value >= 8 {
        return Err("unsupported MCMP v3 flags");
      }
      var timestamp := ReadUint();
      if timestamp.Err? {
        return Err(timestamp.error);
      }
      var sender := ReadSenderField(flags.value);
      if sender.Err? {
        return Err(sender.error);
      }
      var signed := flags.value / 2 % 2 == 1;
      if signed {
        var signature := ReadBytes(SIGNATURE_SIZE);
        if signature.Err? {
          return Err(signature.error);
        }
      }
      var reply := ReadReplyFields(flags.value);
      if reply.Err? {
        return Err(reply.error);
      }
      r := Ok(Header(timestamp.value, sender.value, signed, reply.value));
    }
  }

  /** `v3_compressed_text_bytes`: strip, unframe, walk only the header, and count what is left. */
  method CompressedTextBytes(text: string) returns (r: Option<nat>)
    ensures r == SegmentBytes(text)
  {
    hide ReadHeader, DecodeV3, LStrip;
    var stripped := LStrip(text);
    if !(PREFIX_V3 <= stripped) || |stripped| <= |PREFIX_V3| {
      return None;
    }
    var body := DecodeTextV3(stripped[|PREFIX_V3|..]);
    if body.Err? {
      return None;
    }
    var reader := new ByteReader(body.value);
    var header := reader.ReadHeaderFields();
    if header.Err? {
      return None;
    }
    r := Some(|body.value| - reader.offset);
  }
}
