/** Splitting a long reply into numbered parts: `BotContext.split_text`. */
module SplitText {
  import opened ArithmeticCoder
  import opened Utf8
  import opened Transport

  // ---------------------------------------------------------------- strings

  function RStrip(s: string): string {
    if s != "" && IsSpace(s[|s| - 1]) then RStrip(s[..|s| - 1]) else s
  }

  predicate AllSpaces(s: string) {
    forall i :: 0 <= i < |s| ==> IsSpace(s[i])
  }

  /** Index of the last space or newline, -1 for none. */
  function LastBreak(s: string): (i: int)
    ensures -1 <= i < |s|
  {
    if s == "" then -1
    else if s[|s| - 1] == ' ' || s[|s| - 1] == '\n' then |s| - 1
    else LastBreak(s[..|s| - 1])
  }

  function Digits(n: nat): (s: string)
    ensures |s| >= 1
  {
    if n < 10 then [('0' as int + n) as char] else Digits(n / 10) + Digits(n % 10)
  }

  lemma {:induction false} LStripSplits(s: string)
    ensures |LStrip(s)| <= |s| && s[|s| - |LStrip(s)|..] == LStrip(s) && AllSpaces(s[..|s| - |LStrip(s)|])
    ensures LStrip(s) != "" ==> !IsSpace(LStrip(s)[0])
  {
    hide IsSpace;
    if s != "" && IsSpace(s[0]) {
      LStripSplits(s[1..]);
      var n := |s| - |LStrip(s)|;
      assert s[..n] == [s[0]] + s[1..][..n - 1];
    }
  }

  lemma {:induction false} RStripSplits(s: string)
    ensures |RStrip(s)| <= |s| && s[..|RStrip(s)|] == RStrip(s)
    ensures s != "" && !IsSpace(s[0]) ==> RStrip(s) != ""
  {
    hide IsSpace;
    if s != "" && IsSpace(s[|s| - 1]) {
      RStripSplits(s[..|s| - 1]);
    }
  }

  // ---------------------------------------------------------------- cutting UTF-8

  /** Characters that fit whole in the first `budget` bytes. */
  function Fitting(s: string, budget: nat): (n: nat)
    ensures n <= |s|
  {
    if s == "" || |EncodeScalar(s[0])| > budget then 0
    else 1 + Fitting(s[1..], budget - |EncodeScalar(s[0])|)
  }

  /** `decode("utf-8", "ignore")`: bytes that start no valid character are dropped. */
  function DecodeIgnoring(data: seq<Byte>): string
    decreases |data|
  {
    if data == [] then ""
    else
      var (cp, w) := DecodeScalar(data);
      if w == 0 then DecodeIgnoring(data[1..]) else [cp as char] + DecodeIgnoring(data[w..])
  }

  lemma {:induction false} FittingBytes(s: string, budget: nat)
    ensures |Encode8(s[..Fitting(s, budget)])| <= budget
    ensures s != "" && budget >= 4 ==> Fitting(s, budget) >= 1
  {
    hide EncodeScalar;
    if s != "" && |EncodeScalar(s[0])| <= budget {
      var rest := budget - |EncodeScalar(s[0])|;
      FittingBytes(s[1..], rest);
      var head := s[..Fitting(s, budget)];
      assert head[1..] == s[1..][..Fitting(s[1..], rest)];
    }
  }

  /** A character cut short decodes to nothing: neither its lead byte nor its continuation bytes start a
      valid character on their own. */
  lemma CutScalarIsDropped(c: char, n: nat)
    requires n < |EncodeScalar(c)|
    ensures DecodeIgnoring(EncodeScalar(c)[..n]) == ""
  {
    var b := EncodeScalar(c);
    assert forall i :: 1 <= i < |b| ==> IsCont(b[i]);
    ContinuationsDrop(b[1..]);
    if n > 0 {
      assert DecodeScalar(b[..n]).1 == 0;
      assert b[..n][1..] == b[1..][..n - 1];
      ContinuationsDrop(b[1..][..n - 1]);
    }
  }

  lemma {:induction false} ContinuationsDrop(data: seq<Byte>)
    requires forall i :: 0 <= i < |data| ==> IsCont(data[i])
    ensures DecodeIgnoring(data) == ""
  {
    if data != [] {
      assert IsCont(data[0]);
      ContinuationsDrop(data[1..]);
    }
  }

  lemma DecodeOneMore(c: char, tail: seq<Byte>)
    ensures DecodeIgnoring(EncodeScalar(c) + tail) == [c] + DecodeIgnoring(tail)
  {
    ScalarReadsBack(c, tail);
    hide EncodeScalar, DecodeScalar;
    assert (EncodeScalar(c) + tail)[|EncodeScalar(c)|..] == tail;
  }

  lemma TakeConcat(a: seq<Byte>, b: seq<Byte>, n: nat)
    requires n <= |a + b|
    ensures (a + b)[..n] == if n <= |a| then a[..n] else a + b[..n - |a|]
  {
  }

  /** The first `budget` bytes, or all of them. */
  function FirstBytes(data: seq<Byte>, budget: nat): seq<Byte> {
    data[..if budget < |data| then budget else |data|]
  }

  /** Slicing the bytes and decoding leniently keeps exactly the characters that fit whole. */
  lemma {:induction false} SliceKeepsWholeCharacters(s: string, budget: nat)
    ensures DecodeIgnoring(FirstBytes(Encode8(s), budget)) == s[..Fitting(s, budget)]
  {
    if s != "" {
      var b, rest := EncodeScalar(s[0]), Encode8(s[1..]);
      if |b| > budget {
        CutScalarIsDropped(s[0], budget);
        hide EncodeScalar, DecodeIgnoring;
        TakeConcat(b, rest, budget);
      } else {
        SliceKeepsWholeCharacters(s[1..], budget - |b|);
        var tail := FirstBytes(rest, budget - |b|);
        DecodeOneMore(s[0], tail);
        hide EncodeScalar, DecodeIgnoring;
        assert FirstBytes(b + rest, budget) == b + tail;
        assert s[..Fitting(s, budget)] == [s[0]] + s[1..][..Fitting(s[1..], budget - |b|)];
      }
    }
  }

  // ---------------------------------------------------------------- chunks

  predicate StartsInk(s: string) {
    s == "" || !IsSpace(s[0])
  }

  /** Length of the next chunk: what fits, cut back to a late word break, at least one character. */
  function ChunkLength(s: string, budget: nat): nat
    requires s != ""
  {
    var fit := Fitting(s, budget);
    if fit == 0 then 1
    else if |s| > fit && LastBreak(s[..fit]) > budget / 2 then |RStrip(s[..LastBreak(s[..fit]) + 1])|
    else fit
  }

  lemma ChunkLengthBounds(s: string, budget: nat)
    requires s != "" && StartsInk(s)
    ensures 1 <= ChunkLength(s, budget) <= |s|
    ensures budget >= 4 ==> ChunkLength(s, budget) <= Fitting(s, budget)
  {
    hide IsSpace, Fitting;
    var fit := Fitting(s, budget);
    RStripSplits(s[..LastBreak(s[..fit]) + 1]);
    FittingBytes(s, budget);
  }

  function Chunks(s: string, budget: nat): seq<string>
    requires StartsInk(s)
    decreases |s|
  {
    if s == "" then []
    else
      var n := ChunkLength(s, budget);
      ChunkLengthBounds(s, budget);
      LStripSplits(s[n..]);
      [s[..n]] + Chunks(LStrip(s[n..]), budget)
  }

  function Strip(s: string): (r: string)
    ensures StartsInk(r)
  {
    LStripSplits(s);
    RStripSplits(LStrip(s));
    RStrip(LStrip(s))
  }

  function Budget(maxBytes: int): nat {
    if maxBytes > 8 then maxBytes - 8 else 1
  }

  function Label(i: nat, total: nat): string {
    "(" + Digits(i) + "/" + Digits(total) + ") "
  }

  function Numbered(parts: seq<string>): (r: seq<string>)
    ensures |r| == |parts|
  {
    seq(|parts|, i requires 0 <= i < |parts| => Label(i + 1, |parts|) + parts[i])
  }

  function Split(text: string, maxBytes: int): seq<string> {
    var s := Strip(text);
    if s == "" then []
    else if |Encode8(s)| <= maxBytes then [s]
    else Numbered(Chunks(s, Budget(maxBytes)))
  }

  // ---------------------------------------------------------------- nothing is lost

  function Interleave(parts: seq<string>, gaps: seq<string>): string
    requires |parts| == |gaps|
  {
    if parts == [] then "" else parts[0] + gaps[0] + Interleave(parts[1..], gaps[1..])
  }

  /** The chunks with only white space between them are the text, and no chunk is empty. */
  lemma {:induction false} ChunksReassemble(s: string, budget: nat) returns (gaps: seq<string>)
    requires StartsInk(s)
    ensures |gaps| == |Chunks(s, budget)| && Interleave(Chunks(s, budget), gaps) == s
    ensures forall i :: 0 <= i < |gaps| ==> AllSpaces(gaps[i]) && Chunks(s, budget)[i] != ""
    decreases |s|
  {
    hide ChunkLength, AllSpaces, IsSpace;
    gaps := [];
    if s != "" {
      var n := ChunkLength(s, budget);
      ChunkLengthBounds(s, budget);
      var rest := s[n..];
      LStripSplits(rest);
      var after := LStrip(rest);
      var more := ChunksReassemble(after, budget);
      var gap := rest[..|rest| - |after|];
      gaps := [gap] + more;
      assert Chunks(s, budget) == [s[..n]] + Chunks(after, budget);
      ThreePieces(s, n, after);
      hide *;
      InterleaveCons(s[..n], gap, Chunks(after, budget), more);
    }
  }

  lemma ThreePieces(s: string, n: nat, after: string)
    requires n <= |s| && |after| <= |s| - n && s[n..][|s| - n - |after|..] == after
    ensures s == s[..n] + s[n..][..|s| - n - |after|] + after
  {
    var rest := s[n..];
    var gap := rest[..|rest| - |after|];
    assert rest == gap + after;
    assert s == s[..n] + rest;
    assert s[..n] + (gap + after) == s[..n] + gap + after;
  }

  lemma InterleaveCons(part: string, gap: string, parts: seq<string>, gaps: seq<string>)
    requires |parts| == |gaps|
    ensures Interleave([part] + parts, [gap] + gaps) == part + gap + Interleave(parts, gaps)
  {
    assert ([part] + parts)[1..] == parts && ([gap] + gaps)[1..] == gaps;
  }

  /** With room for a whole character, every chunk fits the budget. */
  lemma {:induction false} ChunksFit(s: string, budget: nat, i: nat)
    requires StartsInk(s) && budget >= 4 && i < |Chunks(s, budget)|
    ensures |Encode8(Chunks(s, budget)[i])| <= budget
    decreases |s|
  {
    hide ChunkLength, Fitting, IsSpace, Encode8;
    var n := ChunkLength(s, budget);
    ChunkLengthBounds(s, budget);
    LStripSplits(s[n..]);
    if i == 0 {
      FittingBytes(s, budget);
      PrefixFits(s[..Fitting(s, budget)], n);
      assert s[..Fitting(s, budget)][..n] == s[..n];
    } else {
      ChunksFit(LStrip(s[n..]), budget, i - 1);
    }
  }

  lemma PrefixFits(s: string, n: nat)
    requires n <= |s|
    ensures |Encode8(s[..n])| <= |Encode8(s)|
  {
    Encode8Concat(s[..n], s[n..]);
    assert s == s[..n] + s[n..];
  }

  predicate Ascii(s: string) {
    forall i :: 0 <= i < |s| ==> s[i] as int < 128
  }

  lemma {:induction false} DigitsAscii(n: nat)
    ensures Ascii(Digits(n)) && (n < 100 ==> |Digits(n)| <= 2)
  {
    if n >= 10 {
      DigitsAscii(n / 10);
      DigitsAscii(n % 10);
    }
  }

  lemma LabelBytes(i: nat, total: nat)
    ensures |Encode8(Label(i, total))| == 4 + |Digits(i)| + |Digits(total)|
    ensures i < 100 && total < 100 ==> |Encode8(Label(i, total))| <= 8
  {
    DigitsAscii(i);
    DigitsAscii(total);
    hide Digits;
    AsciiIsOneByte(Label(i, total));
  }

  predicate AllDigits(s: string) {
    forall i :: 0 <= i < |s| ==> '0' <= s[i] <= '9'
  }

  /** A string of digits as a number. */
  function Value(s: string): nat
    requires AllDigits(s)
  {
    if s == "" then 0 else 10 * Value(s[..|s| - 1]) + (s[|s| - 1] as int - '0' as int)
  }

  lemma {:induction false} DigitsReadBack(n: nat)
    ensures AllDigits(Digits(n)) && Value(Digits(n)) == n
  {
    if n < 10 {
      assert Digits(n)[..0] == "";
    } else {
      DigitsReadBack(n / 10);
      DigitsReadBack(n % 10);
      assert |Digits(n % 10)| == 1;
      assert Digits(n)[..|Digits(n)| - 1] == Digits(n / 10);
    }
  }

  /** What a text is split into: nothing, itself, or its chunks in order, each behind its own number and then
      the number of parts, both in decimal. */
  lemma PartReads(text: string, maxBytes: int, i: nat) returns (number: string, total: string)
    requires i < |Split(text, maxBytes)|
    ensures AllDigits(number) && Value(number) == i + 1 && AllDigits(total) && Value(total) == |Split(text, maxBytes)|
    ensures var s, parts := Strip(text), Split(text, maxBytes);
            if |Encode8(s)| <= maxBytes then parts == [s]
            else
              var chunks := Chunks(s, Budget(maxBytes));
              |parts| == |chunks| && parts[i] == "(" + number + "/" + total + ") " + chunks[i]
  {
    number, total := Digits(i + 1), Digits(|Split(text, maxBytes)|);
    DigitsReadBack(i + 1);
    DigitsReadBack(|Split(text, maxBytes)|);
    if |Encode8(Strip(text))| > maxBytes {
      SplitIsNumbered(text, maxBytes);
      hide Split, Digits, Chunks, Strip, Encode8, StartsInk, AllDigits, Value;
      NumberedAt(Chunks(Strip(text), Budget(maxBytes)), i);
    }
  }

  lemma SplitIsNumbered(text: string, maxBytes: int)
    requires |Encode8(Strip(text))| > maxBytes && Split(text, maxBytes) != []
    ensures Split(text, maxBytes) == Numbered(Chunks(Strip(text), Budget(maxBytes)))
  {
    hide Chunks, Strip, Encode8, StartsInk, Numbered;
  }

  lemma NumberedAt(parts: seq<string>, i: nat)
    requires i < |parts|
    ensures Numbered(parts)[i] == "(" + Digits(i + 1) + "/" + Digits(|parts|) + ") " + parts[i]
  {
    assert Numbered(parts)[i] == Label(i + 1, |parts|) + parts[i];
    hide Digits;
    assert Label(i + 1, |parts|) == "(" + Digits(i + 1) + "/" + Digits(|parts|) + ") ";
  }

  /** A word break. */
  predicate Breaks(c: char) {
    c == ' ' || c == '\n'
  }

  ghost predicate BreakAt(s: string, fit: nat, i: int) {
    0 <= i < fit <= |s| && Breaks(s[i]) && forall j :: i < j < fit ==> !Breaks(s[j])
  }

  lemma {:induction false} LastBreakIs(s: string, fit: nat)
    requires fit <= |s|
    ensures var b := LastBreak(s[..fit]); if b >= 0 then BreakAt(s, fit, b) else forall j :: 0 <= j < fit ==> !Breaks(s[j])
  {
    if fit > 0 && !Breaks(s[fit - 1]) {
      LastBreakIs(s, fit - 1);
      assert s[..fit][..fit - 1] == s[..fit - 1];
    }
  }

  lemma {:induction false} RStripStops(s: string)
    ensures var r := RStrip(s); |r| <= |s| && r == s[..|r|] && (r != "" ==> !IsSpace(r[|r| - 1]))
    ensures AllSpaces(s[|RStrip(s)|..])
  {
    hide IsSpace;
    if s != "" && IsSpace(s[|s| - 1]) {
      var front := s[..|s| - 1];
      RStripStops(front);
      var n := |RStrip(s)|;
      assert s[n..] == front[n..] + [s[|s| - 1]];
    }
  }

  /** As many characters as fit whole. */
  predicate MostThatFit(s: string, budget: nat, fit: nat) {
    && fit <= |s| && |Encode8(s[..fit])| <= budget && (fit < |s| ==> |Encode8(s[..fit + 1])| > budget)
  }

  /** The first `n` characters end with the last ink before this break. */
  predicate EndsBefore(s: string, n: nat, cut: int) {
    0 <= cut < |s| && n <= cut && AllSpaces(s[n..cut + 1]) && (n > 0 ==> !IsSpace(s[n - 1]))
  }

  /** The next chunk, of length `n`, where `fit` characters fit: one if none does; but where more is to come and
      the last break among them is past half the budget, what stands before that break. */
  ghost predicate NextChunk(s: string, budget: nat, fit: nat, n: nat)
    requires fit <= |s|
  {
    if fit == 0 then n == 1
    else if fit == |s| || forall j :: budget / 2 < j < fit ==> !Breaks(s[j]) then n == fit
    else exists cut :: BreakAt(s, fit, cut) && EndsBefore(s, n, cut)
  }

  lemma {:induction false} FittingIsMost(s: string, budget: nat)
    ensures Fitting(s, budget) < |s| ==> |Encode8(s[..Fitting(s, budget) + 1])| > budget
  {
    hide EncodeScalar;
    if s != "" {
      var w := |EncodeScalar(s[0])|;
      if w <= budget {
        FittingIsMost(s[1..], budget - w);
        var n := Fitting(s, budget);
        if n < |s| {
          assert s[..n + 1][1..] == s[1..][..n];
        }
      } else {
        assert s[..1][1..] == "";
      }
    }
  }

  /** A chunk cut back to a break. */
  lemma CutIs(s: string, b: nat, n: nat)
    requires b < |s| && Breaks(s[b]) && n == |RStrip(s[..b + 1])|
    ensures EndsBefore(s, n, b)
  {
    var head := s[..b + 1];
    RStripStops(head);
    BreakIsSpace(s[b]);
    hide IsSpace, RStrip, Breaks;
    assert s[n..b + 1] == head[n..];
    assert head[b] == s[b];
  }

  lemma ChunkIs(s: string, budget: nat)
    requires s != ""
    ensures MostThatFit(s, budget, Fitting(s, budget)) && NextChunk(s, budget, Fitting(s, budget), ChunkLength(s, budget))
  {
    var fit := Fitting(s, budget);
    FittingBytes(s, budget);
    FittingIsMost(s, budget);
    LastBreakIs(s, fit);
    var b := LastBreak(s[..fit]);
    hide Fitting, Encode8, RStrip, LastBreak, Breaks, EndsBefore;
    if fit > 0 && |s| > fit && b > budget / 2 {
      assert s[..fit][..b + 1] == s[..b + 1];
      CutIs(s, b, ChunkLength(s, budget));
    }
  }

  lemma BreakIsSpace(c: char)
    requires Breaks(c)
    ensures IsSpace(c)
  {
  }

  /** For a limit of at least 12 bytes and at most 99 parts, every part fits, number included. */
  lemma PartsFit(text: string, maxBytes: int, i: nat)
    requires maxBytes >= 12 && i < |Split(text, maxBytes)| <= 99
    ensures |Encode8(Split(text, maxBytes)[i])| <= maxBytes
  {
    hide Chunks, Encode8, Label, Strip;
    var s := Strip(text);
    if |Encode8(s)| > maxBytes {
      var parts := Chunks(s, Budget(maxBytes));
      ChunksFit(s, Budget(maxBytes), i);
      LabelBytes(i + 1, |parts|);
      Encode8Concat(Label(i + 1, |parts|), parts[i]);
    }
  }

  // ---------------------------------------------------------------- how many parts

  /** The bytes every turn but the last uses up: what fits, less a character that did not, or more than half
      when it is cut at a word. */
  function Turn(budget: nat): nat
    requires budget >= 4
  {
    if budget - 3 <= budget / 2 + 2 then budget - 3 else budget / 2 + 2
  }

  lemma {:induction false} FittingIsFull(s: string, budget: nat)
    requires Fitting(s, budget) < |s|
    ensures |Encode8(s[..Fitting(s, budget)])| + 4 > budget
  {
    hide EncodeScalar;
    if |EncodeScalar(s[0])| <= budget {
      var rest := budget - |EncodeScalar(s[0])|;
      FittingIsFull(s[1..], rest);
      var head := s[..Fitting(s, budget)];
      assert head[1..] == s[1..][..Fitting(s[1..], rest)];
    }
  }

  lemma {:induction false} RStripSpaces(s: string)
    ensures |RStrip(s)| <= |s| && AllSpaces(s[|RStrip(s)|..])
  {
    hide IsSpace;
    if s != "" && IsSpace(s[|s| - 1]) {
      var t := s[..|s| - 1];
      RStripSpaces(t);
      assert s[|RStrip(s)|..] == t[|RStrip(t)|..] + [s[|s| - 1]];
    }
  }

  lemma {:induction false} LStripPast(p: string, q: string)
    requires AllSpaces(p)
    ensures |LStrip(p + q)| <= |q|
  {
    hide IsSpace;
    if p == "" {
      assert p + q == q;
      LStripSplits(q);
    } else {
      assert (p + q)[0] == p[0] && (p + q)[1..] == p[1..] + q;
      LStripPast(p[1..], q);
    }
  }

  lemma PrefixBytes(s: string, j: nat, k: nat)
    requires j <= k <= |s|
    ensures |Encode8(s)| == |Encode8(s[..k])| + |Encode8(s[k..])|
    ensures |Encode8(s[..k])| >= k && |Encode8(s[..k])| >= |Encode8(s[..j])|
  {
    assert s == s[..k] + s[k..];
    Encode8Concat(s[..k], s[k..]);
    AtLeastOneByte(s[..k]);
    assert s[..k][..j] == s[..j];
    PrefixFits(s[..k], j);
  }

  /** A chunk cut at a word and the spaces after it reach past the break. */
  lemma CutReaches(s: string, budget: nat)
    requires s != "" && StartsInk(s)
    requires var fit := Fitting(s, budget); 0 < fit < |s| && LastBreak(s[..fit]) > budget / 2
    ensures var cut := LastBreak(s[..Fitting(s, budget)]);
            ChunkLength(s, budget) <= cut + 1 <= |s| && |LStrip(s[ChunkLength(s, budget)..])| <= |s| - (cut + 1)
  {
    var fit := Fitting(s, budget);
    var cut := LastBreak(s[..fit]);
    var head := s[..fit][..cut + 1];
    assert head == s[..cut + 1];
    RStripSpaces(head);
    hide IsSpace, Fitting;
    var n := ChunkLength(s, budget);
    assert n == |RStrip(head)|;
    assert s[n..] == head[n..] + s[cut + 1..];
    LStripPast(head[n..], s[cut + 1..]);
  }

  lemma TurnIsUsed(s: string, budget: nat)
    requires s != "" && StartsInk(s) && budget >= 4
    ensures ChunkLength(s, budget) <= |s|
    ensures var rest := LStrip(s[ChunkLength(s, budget)..]);
            rest != "" ==> |Encode8(s)| >= |Encode8(rest)| + Turn(budget)
  {
    ChunkLengthBounds(s, budget);
    FittingBytes(s, budget);
    var n, fit := ChunkLength(s, budget), Fitting(s, budget);
    LStripSplits(s[n..]);
    var rest := LStrip(s[n..]);
    var k := |s| - |rest|;
    assert s[k..] == rest by { assert s[n..][|s[n..]| - |rest|..] == s[k..]; }
    if rest != "" {
      if fit < |s| && LastBreak(s[..fit]) > budget / 2 {
        CutReaches(s, budget);
        hide *;
        PrefixBytes(s, 0, k);
        TurnOfCut(budget, LastBreak(s[..fit]));
      } else if fit < |s| {
        FittingIsFull(s, budget);
        assert n == fit;
        hide *;
        PrefixBytes(s, fit, k);
        TurnOfFit(budget, |Encode8(s[..fit])|);
      }
    }
  }

  lemma TurnOfCut(budget: nat, cut: int)
    requires budget >= 4 && cut > budget / 2
    ensures cut + 1 >= Turn(budget)
  {
  }

  lemma TurnOfFit(budget: nat, bytes: nat)
    requires budget >= 4 && bytes + 4 > budget
    ensures bytes >= Turn(budget)
  {
  }

  /** The number of chunks, bounded by what the turns use up. */
  lemma {:induction false} ChunkCount(s: string, budget: nat)
    requires s != "" && StartsInk(s) && budget >= 4
    ensures |Chunks(s, budget)| >= 1
    ensures (|Chunks(s, budget)| - 1) * Turn(budget) < |Encode8(s)|
    decreases |s|
  {
    hide *;
    NextChunks(s, budget);
    NoChunks(budget);
    TurnIsUsed(s, budget);
    AtLeastOneByte(s);
    var rest := LStrip(s[ChunkLength(s, budget)..]);
    if rest != "" {
      ChunkCount(rest, budget);
      OneTurnMore(|Chunks(rest, budget)|, Turn(budget));
    }
  }

  lemma OneTurnMore(c: nat, t: nat)
    ensures (c - 1) * t + t == c * t
  {
  }

  /** A condition on the text before it is split: with a limit of at least 12 bytes, a text of at most 99
      turns is split into at most 99 parts, and every one fits. */
  lemma ShortTextsFit(text: string, maxBytes: int, i: nat)
    requires maxBytes >= 12 && |Encode8(Strip(text))| <= 99 * Turn(Budget(maxBytes)) && i < |Split(text, maxBytes)|
    ensures |Split(text, maxBytes)| <= 99 && |Encode8(Split(text, maxBytes)[i])| <= maxBytes
  {
    hide Encode8, Chunks, Label, Strip;
    var s := Strip(text);
    if s != "" {
      var b := Budget(maxBytes);
      ChunkCount(s, b);
      var c, t := |Chunks(s, b)|, Turn(b);
      if c - 1 >= 99 {
        MulMonotone(t, 99, c - 1);
      }
      assert c <= 99;
    }
    PartsFit(text, maxBytes, i);
  }

  // ---------------------------------------------------------------- both bounds are exact

  function Repeated(c: char, n: nat): string {
    seq(n, _ => c)
  }

  /** `n` blocks of one character. */
  function Row(c: char, step: nat, n: nat): string {
    if n == 0 then "" else Repeated(c, step) + Row(c, step, n - 1)
  }

  ghost predicate AllOf(s: string, c: char) {
    forall i :: 0 <= i < |s| ==> s[i] == c
  }

  lemma {:induction false} RowShape(c: char, step: nat, n: nat)
    requires step >= 1
    ensures AllOf(Row(c, step, n), c) && (n >= 1 ==> |Row(c, step, n)| >= step + n - 1)
  {
    if n > 0 {
      RowShape(c, step, n - 1);
    }
  }

  lemma {:induction false} AllOfFits(s: string, c: char, budget: nat)
    requires AllOf(s, c)
    ensures c as int < 128 ==> Fitting(s, budget) == if |s| <= budget then |s| else budget
    ensures |EncodeScalar(c)| > budget ==> Fitting(s, budget) == 0
  {
    if s != "" && |EncodeScalar(c)| <= budget {
      AllOfFits(s[1..], c, budget - |EncodeScalar(c)|);
    }
  }

  lemma {:induction false} NoBreak(s: string, c: char)
    requires AllOf(s, c) && c != ' ' && c != '\n'
    ensures LastBreak(s) == -1
  {
    if s != "" {
      NoBreak(s[..|s| - 1], c);
    }
  }

  lemma RowTurn(c: char, step: nat, n: nat, budget: nat)
    requires !IsSpace(c) && step >= 1 && n >= 1
    requires (c as int < 128 && step == budget) || (|EncodeScalar(c)| > budget && step == 1)
    ensures var s := Row(c, step, n);
            && s != "" && StartsInk(s) && ChunkLength(s, budget) == step <= |s|
            && s[..step] == Repeated(c, step) && s[step..] == Row(c, step, n - 1)
    ensures StartsInk(Row(c, step, n - 1)) && LStrip(Row(c, step, n - 1)) == Row(c, step, n - 1)
  {
    hide IsSpace, Fitting, EncodeScalar;
    var s := Row(c, step, n);
    RowShape(c, step, n);
    RowShape(c, step, n - 1);
    SpacesAndBreaks(c);
    AllOfFits(s, c, budget);
    NoBreak(s[..Fitting(s, budget)], c);
  }

  /** The blocks are the chunks: they fill the budget, or hold the one character too big for it. */
  lemma {:induction false} RowChunks(c: char, step: nat, n: nat, budget: nat)
    requires !IsSpace(c) && step >= 1
    requires (c as int < 128 && step == budget) || (|EncodeScalar(c)| > budget && step == 1)
    ensures StartsInk(Row(c, step, n)) && |Chunks(Row(c, step, n), budget)| == n
    ensures n > 0 ==> Chunks(Row(c, step, n), budget)[n - 1] == Repeated(c, step)
    decreases n
  {
    if n > 0 {
      RowTurn(c, step, n, budget);
      hide IsSpace, EncodeScalar, ChunkLength, LStrip, Row, Repeated;
      RowChunks(c, step, n - 1, budget);
      var s, rest := Row(c, step, n), Row(c, step, n - 1);
      assert Chunks(s, budget) == [s[..step]] + Chunks(rest, budget);
    }
  }

  lemma SpacesAndBreaks(c: char)
    requires !IsSpace(c)
    ensures c != ' ' && c != '\n'
  {
  }

  lemma RowSplits(c: char, step: nat, n: nat, maxBytes: int)
    requires !IsSpace(c) && step >= 1 && n >= 1 && step + n - 1 > maxBytes
    requires var budget := Budget(maxBytes);
             (c as int < 128 && step == budget) || (|EncodeScalar(c)| > budget && step == 1)
    ensures var parts := Split(Row(c, step, n), maxBytes);
            |parts| == n && parts[n - 1] == Label(n, n) + Repeated(c, step)
  {
    hide IsSpace, Label, EncodeScalar, Chunks;
    var s := Row(c, step, n);
    RowShape(c, step, n);
    RowChunks(c, step, n, Budget(maxBytes));
    AtLeastOneByte(s);
    assert Strip(s) == s;
  }

  /** Whatever the budget, a hundred parts or more do not all have to fit. */
  lemma ManyPartsOverflow(n: nat, maxBytes: nat)
    requires n >= 100 && maxBytes >= 12
    ensures var parts := Split(Row('a', maxBytes - 8, n), maxBytes);
            |parts| == n && |Encode8(parts[n - 1])| > maxBytes
  {
    hide Split, Row, Label;
    RowSplits('a', maxBytes - 8, n, maxBytes);
    LabelBytes(n, n);
    ThreeDigits(n);
    Encode8Concat(Label(n, n), Repeated('a', maxBytes - 8));
    AsciiIsOneByte(Repeated('a', maxBytes - 8));
  }

  lemma ThreeDigits(n: nat)
    requires n >= 100
    ensures |Digits(n)| >= 3
  {
    assert |Digits(n / 10)| >= 2;
  }

  /** And with a budget under 12 bytes, twelve parts do not. */
  lemma SmallBudgetOverflows(maxBytes: int)
    requires maxBytes < 12
    ensures var parts := Split(Row('\U{1F600}', 1, 12), maxBytes);
            |parts| == 12 && |Encode8(parts[11])| > maxBytes
  {
    var c := '\U{1F600}';
    assert |EncodeScalar(c)| == 4 && Repeated(c, 1)[1..] == "";
    assert |Encode8(Repeated(c, 1))| == 4;
    RowSplits(c, 1, 12, maxBytes);
    LabelBytes(12, 12);
    assert |Digits(12)| == 2;
    hide Split, Row, Label;
    Encode8Concat(Label(12, 12), Repeated(c, 1));
  }

  // ---------------------------------------------------------------- the loop

  method SplitLoop(text: string, maxBytes: int) returns (r: seq<string>)
    ensures r == Split(text, maxBytes)
  {
    hide Chunks, IsSpace, Encode8, ChunkLength, LStrip, Strip, Label, Numbered;
    var s := Strip(text);
    if s == "" {
      return [];
    }
    if |Encode8(s)| <= maxBytes {
      return [s];
    }
    var budget := Budget(maxBytes);
    var parts := [];
    var remaining := s;
    assert [] + Chunks(s, budget) == Chunks(s, budget);
    while remaining != ""
      invariant StartsInk(remaining)
      invariant parts + Chunks(remaining, budget) == Chunks(s, budget)
      decreases |remaining|
    {
      var chunk := TakeChunk(remaining, budget);
      NextChunks(remaining, budget);
      ChunkLengthBounds(remaining, budget);
      LStripSplits(remaining[|chunk|..]);
      assert parts + ([chunk] + Chunks(LStrip(remaining[|chunk|..]), budget))
             == parts + [chunk] + Chunks(LStrip(remaining[|chunk|..]), budget);
      parts := parts + [chunk];
      remaining := LStrip(remaining[|chunk|..]);
    }
    NoChunks(budget);
    assert parts + [] == parts;
    r := Numbered(parts);
  }

  lemma NoChunks(budget: nat)
    ensures Chunks("", budget) == []
  {
  }

  lemma NextChunks(s: string, budget: nat)
    requires s != "" && StartsInk(s)
    ensures var n := ChunkLength(s, budget);
            && 1 <= n <= |s| && |LStrip(s[n..])| < |s| && StartsInk(LStrip(s[n..]))
            && Chunks(s, budget) == [s[..n]] + Chunks(LStrip(s[n..]), budget)
  {
    hide ChunkLength, IsSpace;
    ChunkLengthBounds(s, budget);
    LStripSplits(s[ChunkLength(s, budget)..]);
  }

  /** Slice the bytes, decode leniently, fall back to one character, cut at a late word break. */
  method TakeChunk(remaining: string, budget: nat) returns (chunk: string)
    requires remaining != ""
    ensures ChunkLength(remaining, budget) <= |remaining| && chunk == remaining[..ChunkLength(remaining, budget)]
  {
    SliceKeepsWholeCharacters(remaining, budget);
    hide IsSpace, Fitting, Encode8, DecodeIgnoring;
    var data := Encode8(remaining);
    chunk := DecodeIgnoring(data[..if budget < |data| then budget else |data|]);
    ghost var fit := Fitting(remaining, budget);
    assert chunk == remaining[..fit];
    if chunk == "" {
      chunk := [remaining[0]];
      assert fit == 0 && remaining[..1] == chunk;
    } else if |remaining| > |chunk| {
      var cut := LastBreak(chunk);
      if cut > budget / 2 {
        RStripSplits(chunk[..cut + 1]);
        assert chunk[..cut + 1] == remaining[..cut + 1];
        ghost var kept := |RStrip(chunk[..cut + 1])|;
        assert chunk[..cut + 1][..kept] == remaining[..kept];
        chunk := RStrip(chunk[..cut + 1]);
      }
    }
  }
}
