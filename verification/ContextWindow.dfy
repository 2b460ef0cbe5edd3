/** Which context each character is coded against: the model's order many characters before it, taken from the
    text behind a run of U+0002. Coding and decoding a whole text, told by these windows alone. */
module ContextWindow {
  import opened Wrappers
  import opened ArithmeticCoder
  import opened FrequencyTable
  import opened Utf8
  import opened MeshCodec

  /** The last `order` characters before position `n`, counting `order` leading U+0002; at order 0 the source
      keeps everything. */
  function ContextAt(order: nat, text: string, n: nat): (context: Context)
    requires n <= |text|
    ensures order > 0 ==> |context| == order
  {
    if order == 0 then text[..n] else (seq(order, _ => '\U{0002}') + text[..n])[n..]
  }

  lemma AppendIsNextWindow(order: nat, text: string, n: nat)
    requires n < |text|
    ensures AppendContext(ContextAt(order, text, n), text[n], order) == ContextAt(order, text, n + 1)
  {
    var pad := seq(order, _ => '\U{0002}');
    assert text[..n + 1] == text[..n] + [text[n]];
    if order > 0 {
      var all := pad + text[..n];
      assert pad + text[..n + 1] == all + [text[n]];
      assert (all + [text[n]])[n..] == all[n..] + [text[n]];
      assert (all[n..] + [text[n]])[1..] == (all + [text[n]])[n + 1..];
    }
  }

  lemma StartIsWindow(m: Model, text: string)
    ensures StartContext(m) == ContextAt(m.order, text, 0)
  {
    assert seq(m.order, _ => '\U{0002}') + text[..0] == seq(m.order, _ => BOS);
  }

  /** The context in use at a position is the window there, whatever the text. */
  lemma {:induction false} ContextIsWindow(m: Model, text: string, n: nat)
    requires n <= |text|
    ensures ContextAfter(StartContext(m), text[..n], m.order) == ContextAt(m.order, text, n)
  {
    StartIsWindow(m, text);
    if n > 0 {
      ContextIsWindow(m, text, n - 1);
      ContextSnoc(StartContext(m), text[..n - 1], text[n - 1], m.order);
      assert text[..n] == text[..n - 1] + [text[n - 1]];
      AppendIsNextWindow(m.order, text, n - 1);
    }
  }

  lemma {:induction false} ContextSnoc(context: Context, text: string, ch: char, order: nat)
    ensures ContextAfter(context, text + [ch], order) == AppendContext(ContextAfter(context, text, order), ch, order)
    decreases |text|
  {
    hide AppendContext;
    if text == [] {
      assert [ch][1..] == [];
    } else {
      ContextSnoc(AppendContext(context, text[0], order), text[1..], ch, order);
      assert (text + [ch])[1..] == text[1..] + [ch];
    }
  }

  // ---------------------------------------------------------------- coding by windows

  /** The coder after the first `n` characters, each coded in its window. */
  function CodedUpTo(m: Model, escapes: bool, text: string, n: nat): (c: Coder)
    requires ValidModel(m) && Encodable(m, text, escapes) && n <= |text|
    ensures Settled(c.iv)
  {
    if n == 0 then FRESH_CODER
    else EncodeChar(m, CodedUpTo(m, escapes, text, n - 1), ContextAt(m.order, text, n - 1), escapes, text[n - 1])
  }

  lemma {:induction false} RestIsCoded(m: Model, escapes: bool, text: string, n: nat)
    requires ValidModel(m) && Encodable(m, text, escapes) && n <= |text|
    ensures EncodeText(m, CodedUpTo(m, escapes, text, n), ContextAt(m.order, text, n), escapes, text[n..])
            == Encode(CodedUpTo(m, escapes, text, |text|), SymbolSlice(m, ContextAt(m.order, text, |text|), escapes, EOF))
    decreases |text| - n
  {
    hide EncodeChar, SymbolSlice, Encode, ContextAt, AppendContext;
    if n < |text| {
      AppendIsNextWindow(m.order, text, n);
      assert text[n..][0] == text[n] && text[n..][1..] == text[n + 1..];
      RestIsCoded(m, escapes, text, n + 1);
    }
  }

  /** The coded bits of every text: each character in its window, escapes throughout exactly if some
      character is outside the vocabulary, and the end symbol in the window after the last. */
  lemma CompressIsByWindows(m: Model, text: string)
    requires ValidModel(m)
    ensures var escapes := exists i :: 0 <= i < |text| && text[i] !in m.vocab;
            && Encodable(m, text, escapes)
            && CompressBits(m, text) ==
               (escapes, Finish(Encode(CodedUpTo(m, escapes, text, |text|),
                                       SymbolSlice(m, ContextAt(m.order, text, |text|), escapes, EOF))))
  {
    hide EncodeChar, SymbolSlice, Encode, ContextAt, Finish;
    var escapes := HasExtras(m, text);
    StartIsWindow(m, text);
    assert text[0..] == text;
    RestIsCoded(m, escapes, text, 0);
  }

  // ---------------------------------------------------------------- decoding by windows

  /** The decoder after it has yielded the first `n` characters of the text, each in its window; none if it
      yields something else. */
  function DecodedUpTo(m: Model, data: seq<Byte>, escapes: bool, text: string, n: nat): (d: Option<Decoder>)
    requires ValidModel(m) && n <= |text|
    ensures d.Some? ==> Tracking(d.value)
  {
    if n == 0 then
      StartTracks(data);
      Some(StartDecoder(data))
    else
      match DecodedUpTo(m, data, escapes, text, n - 1)
      case None => None
      case Some(d) =>
        match DecodeTurn(m, data, d, ContextAt(m.order, text, n - 1), escapes)
        case Char(ch, next) => if ch == text[n - 1] then Some(next) else None
        case _ => None
  }

  /** All of the text is yielded, and then comes the end symbol or the limit of 4096 characters. */
  predicate EndsWith(m: Model, data: seq<Byte>, escapes: bool, text: string)
    requires ValidModel(m)
  {
    var d := DecodedUpTo(m, data, escapes, text, |text|);
    && |text| <= 4096 && d.Some?
    && (|text| == 4096 || DecodeTurn(m, data, d.value, ContextAt(m.order, text, |text|), escapes) == Stop)
  }

  lemma {:induction false} NothingAfterNone(m: Model, data: seq<Byte>, escapes: bool, text: string, n: nat)
    requires ValidModel(m) && n <= |text| && DecodedUpTo(m, data, escapes, text, n).None?
    ensures DecodedUpTo(m, data, escapes, text, |text|).None?
    decreases |text| - n
  {
    hide DecodedUpTo;
    if n < |text| {
      NoneStays(m, data, escapes, text, n);
      NothingAfterNone(m, data, escapes, text, n + 1);
    }
  }

  lemma NoneStays(m: Model, data: seq<Byte>, escapes: bool, text: string, n: nat)
    requires ValidModel(m) && n < |text| && DecodedUpTo(m, data, escapes, text, n).None?
    ensures DecodedUpTo(m, data, escapes, text, n + 1).None?
  {
    hide DecodeTurn, ContextAt, ValidModel;
  }

  lemma {:induction false} RestIsDecoded(m: Model, data: seq<Byte>, escapes: bool, text: string, n: nat)
    requires ValidModel(m) && n <= |text| && n <= 4096 && DecodedUpTo(m, data, escapes, text, n).Some?
    ensures var d := DecodedUpTo(m, data, escapes, text, n).value;
            DecodeFrom(m, data, d, ContextAt(m.order, text, n), escapes, 4096 - n) == Ok(text[n..]) <==>
            EndsWith(m, data, escapes, text)
    decreases |text| - n
  {
    hide DecodeTurn, ContextAt, AppendContext, Tracking;
    var d := DecodedUpTo(m, data, escapes, text, n).value;
    if n < |text| && n < 4096 {
      AppendIsNextWindow(m.order, text, n);
      var t := DecodeTurn(m, data, d, ContextAt(m.order, text, n), escapes);
      assert text[n..] == [text[n]] + text[n + 1..];
      if t.Char? && t.ch == text[n] {
        RestIsDecoded(m, data, escapes, text, n + 1);
        PrependedIs(t.ch, DecodeFrom(m, data, t.d, ContextAt(m.order, text, n + 1), escapes, 4096 - n - 1), text[n + 1..]);
      } else {
        NothingAfterNone(m, data, escapes, text, n + 1);
      }
    }
  }

  lemma PrependedIs(ch: char, rest: Result<string>, text: string)
    ensures Prepend(ch, rest) == Ok([ch] + text) <==> rest == Ok(text)
  {
    if rest.Ok? {
      assert ([ch] + rest.value)[1..] == rest.value && ([ch] + text)[1..] == text;
    }
  }

  /** Any bytes decode to a text if and only if reading each of its characters in its window yields it. */
  lemma DecodeIsByWindows(m: Model, data: seq<Byte>, escapes: bool, text: string)
    requires ValidModel(m)
    ensures DecodeArithmetic(m, data, escapes) == Ok(text) <==> EndsWith(m, data, escapes, text)
  {
    hide EndsWith, DecodeFrom, ContextAt;
    StartIsWindow(m, text);
    assert text[0..] == text;
    RestIsDecoded(m, data, escapes, text, 0);
  }
}
