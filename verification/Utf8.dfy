/** UTF-8 as section 3 of RFC 3629 defines it, with a strict decoder: overlong forms, surrogates and
    values past U+10FFFF are errors. */
module Utf8 {
  import opened Wrappers
  import opened ArithmeticCoder

  predicate IsScalar(cp: int) {
    0 <= cp < 0xD800 || 0xE000 <= cp <= 0x10FFFF
  }

  function Prepend(ch: char, rest: Result<string>): Result<string> {
    if rest.Ok? then Ok([ch] + rest.value) else rest
  }

  function EncodeScalar(c: char): (b: seq<Byte>)
    ensures 1 <= |b| <= 4
    ensures b[0] < 2 <==> c as int < 2
  {
    var cp := c as int;
    if cp < 0x80 then [cp]
    else if cp < 0x800 then [0xC0 + cp / 64, 0x80 + cp % 64]
    else if cp < 0x10000 then [0xE0 + cp / 4096, 0x80 + cp / 64 % 64, 0x80 + cp % 64]
    else [0xF0 + cp / 262144, 0x80 + cp / 4096 % 64, 0x80 + cp / 64 % 64, 0x80 + cp % 64]
  }

  function Encode8(s: string): (data: seq<Byte>)
    ensures |s| <= |data|
  {
    if s == "" then [] else EncodeScalar(s[0]) + Encode8(s[1..])
  }

  predicate IsCont(b: Byte) {
    0x80 <= b < 0xC0
  }

  /** A codepoint from its six-bit groups, highest first. */
  function Join(a: int, b: int, c: int, d: int): int {
    ((a * 64 + b) * 64 + c) * 64 + d
  }

  /** The codepoint at the front of the data and its width, or width 0 for no valid character. */
  function DecodeScalar(data: seq<Byte>): (r: (int, nat))
    ensures r.1 <= |data|
    ensures r.1 > 0 ==> IsScalar(r.0)
  {
    if data == [] then (0, 0)
    else
      var lead := data[0] as int;
      if lead < 0x80 then (lead, 1)
      else if 0xC2 <= lead < 0xE0 && |data| >= 2 && IsCont(data[1]) then
        (Join(0, 0, lead - 0xC0, data[1] as int - 0x80), 2)
      else if 0xE0 <= lead < 0xF0 && |data| >= 3 && IsCont(data[1]) && IsCont(data[2]) then
        var cp := Join(0, lead - 0xE0, data[1] as int - 0x80, data[2] as int - 0x80);
        if cp >= 0x800 && IsScalar(cp) then (cp, 3) else (0, 0)
      else if 0xF0 <= lead < 0xF5 && |data| >= 4 && IsCont(data[1]) && IsCont(data[2]) && IsCont(data[3]) then
        var cp := Join(lead - 0xF0, data[1] as int - 0x80, data[2] as int - 0x80, data[3] as int - 0x80);
        if 0x10000 <= cp <= 0x10FFFF then (cp, 4) else (0, 0)
      else (0, 0)
  }

  function Decode8(data: seq<Byte>): Result<string>
    decreases |data|
  {
    if data == [] then Ok("")
    else
      var (cp, w) := DecodeScalar(data);
      if w == 0 then Err("invalid UTF-8") else Prepend(cp as char, Decode8(data[w..]))
  }

  lemma JoinOfGroups(cp: nat)
    ensures Join(cp / 262144, cp / 4096 % 64, cp / 64 % 64, cp % 64) == cp
  {
    var h := cp / 64;
    assert cp / 4096 == h / 64;
    assert cp / 262144 == h / 64 / 64;
  }

  lemma GroupsOfJoin(a: nat, b: nat, c: nat, d: nat)
    requires b < 64 && c < 64 && d < 64
    ensures var cp := Join(a, b, c, d);
            cp / 262144 == a && cp / 4096 % 64 == b && cp / 64 % 64 == c && cp % 64 == d
  {
    var cp := Join(a, b, c, d);
    var h := (a * 64 + b) * 64 + c;
    assert cp / 64 == h && cp % 64 == d;
    assert h / 64 == a * 64 + b && h % 64 == c;
    assert cp / 4096 == h / 64;
    assert cp / 262144 == h / 64 / 64;
  }

  lemma ScalarReadsBack(c: char, rest: seq<Byte>)
    ensures DecodeScalar(EncodeScalar(c) + rest) == (c as int, |EncodeScalar(c)|)
  {
    hide Join;
    var cp := c as int;
    JoinOfGroups(cp);
    var data := EncodeScalar(c) + rest;
    assert forall i :: 0 <= i < |EncodeScalar(c)| ==> data[i] == EncodeScalar(c)[i];
    if 0x80 <= cp < 0x800 {
      assert cp / 64 % 64 == cp / 64;
    } else if 0x800 <= cp < 0x10000 {
      assert cp / 4096 % 64 == cp / 4096;
    }
  }

  lemma {:induction false} TextReadsBack(s: string)
    ensures Decode8(Encode8(s)) == Ok(s)
  {
    if s != "" {
      hide EncodeScalar, DecodeScalar;
      var rest := Encode8(s[1..]);
      ScalarReadsBack(s[0], rest);
      TextReadsBack(s[1..]);
      assert (EncodeScalar(s[0]) + rest)[|EncodeScalar(s[0])|..] == rest;
      assert s == [s[0]] + s[1..];
    }
  }

  lemma ScalarIsStrict(data: seq<Byte>)
    requires DecodeScalar(data).1 > 0
    ensures var (cp, w) := DecodeScalar(data); EncodeScalar(cp as char) == data[..w]
  {
    var (cp, w) := DecodeScalar(data);
    if w == 2 {
      GroupsOfJoin(0, 0, data[0] as int - 0xC0, data[1] as int - 0x80);
      assert 0x80 <= cp < 0x800;
    } else if w == 3 {
      GroupsOfJoin(0, data[0] as int - 0xE0, data[1] as int - 0x80, data[2] as int - 0x80);
      assert 0x800 <= cp < 0x10000;
    } else if w == 4 {
      GroupsOfJoin(data[0] as int - 0xF0, data[1] as int - 0x80, data[2] as int - 0x80, data[3] as int - 0x80);
    }
  }

  /** The decoder accepts only what the encoder writes. */
  lemma {:induction false} DecodeIsStrict(data: seq<Byte>)
    requires Decode8(data).Ok?
    ensures Encode8(Decode8(data).value) == data
    decreases |data|
  {
    hide EncodeScalar, DecodeScalar, Encode8, Decode8;
    if data == [] {
      NothingDecodes();
    } else {
      DecodeStep(data);
      ScalarIsStrict(data);
      var (cp, w) := DecodeScalar(data);
      var rest := data[w..];
      EncodeCons(cp as char, Decode8(rest).value);
      DecodeIsStrict(rest);
      assert data == data[..w] + rest;
    }
  }

  lemma NothingDecodes()
    ensures Decode8([]) == Ok("") && Encode8("") == []
  {
  }

  lemma DecodeStep(data: seq<Byte>)
    requires data != [] && Decode8(data).Ok?
    ensures var (cp, w) := DecodeScalar(data);
            w > 0 && Decode8(data[w..]).Ok? && Decode8(data).value == [cp as char] + Decode8(data[w..]).value
  {
    hide DecodeScalar;
  }

  lemma EncodeCons(c: char, tail: string)
    ensures Encode8([c] + tail) == EncodeScalar(c) + Encode8(tail)
  {
    hide EncodeScalar;
    assert ([c] + tail)[1..] == tail;
  }
}
