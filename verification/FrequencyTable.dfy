/** The context model's frequency tables: `_MeshModel._compute_cdf` and `get_cdf`.

    The floating-point n-gram blend is a parameter of the model: whatever natural numbers it yields,
    the integer normalisation after it must produce a usable cumulative table. */
module FrequencyTable {
  import opened Wrappers
  import opened ArithmeticCoder

  const BOS: char := '\U{0002}'
  const EOF: char := '\U{0003}'
  const ESC: char := '\U{0004}'
  const ESC_PROB: nat := 500
  const SCRIPT_BOOST: nat := 8

  type Context = string

  datatype Script = Common | Latin | Cyrillic | Other

  function CharScript(c: char): Script {
    var cp := c as int;
    if cp < 0x0041 then Common
    else if cp <= 0x024F || 0x1E00 <= cp <= 0x1EFF then Latin
    else if 0x0400 <= cp <= 0x052F then Cyrillic
    else if cp > 0xFFFF then Common
    else Other
  }

  /** `matchOrder` is the longest n-gram order with counts for a context (-1 when there is none);
      `rescaled` is the seed frequency after the float rescaling; `blended` is the sum of the
      `int(value * factor)` terms the n-gram blend adds to a symbol. */
  datatype Model = Model(
    order: nat,
    vocab: seq<char>,
    matchOrder: Context -> int,
    rescaled: (Context, bool, nat) -> nat,
    blended: (Context, bool, nat) -> nat)

  /** `from_dict` always adds both control symbols. */
  predicate ValidModel(m: Model) {
    EOF in m.vocab && ESC in m.vocab && |m.vocab| <= CDF_SCALE
  }

  // ---------------------------------------------------------------- seeds and blend

  /** The nearest script other than Common, scanning the context from its end. */
  function NearestScript(context: Context): Option<Script> {
    if context == [] then None
    else
      var c := context[|context| - 1];
      if c != BOS && CharScript(c) != Common then Some(CharScript(c))
      else NearestScript(context[..|context| - 1])
  }

  function Boost(m: Model, context: Context): nat {
    if m.matchOrder(context) <= 2 then SCRIPT_BOOST * 4 else SCRIPT_BOOST
  }

  function Epsilon(m: Model, context: Context, escapes: bool, c: char): (e: nat)
    ensures c != ESC || escapes ==> e >= 1
  {
    var boost := Boost(m, context);
    var near := NearestScript(context);
    if c == ESC && escapes then ESC_PROB
    else if c == ESC then 0
    else if near.Some? && (CharScript(c) == near.value || CharScript(c) == Common) then boost
    else if CharScript(c) == Common then AtLeastOne(boost / 3)
    else 1
  }

  function Sum(f: seq<nat>): nat {
    if f == [] then 0 else Sum(f[..|f| - 1]) + f[|f| - 1]
  }

  function Epsilons(m: Model, context: Context, escapes: bool): (f: seq<nat>)
    ensures |f| == |m.vocab|
  {
    seq<nat>(|m.vocab|, i requires 0 <= i < |m.vocab| => Epsilon(m, context, escapes, m.vocab[i]))
  }

  function AtLeastOne(x: nat): (r: nat)
    ensures r >= 1
  {
    if x >= 1 then x else 1
  }

  function Rescaled(m: Model, context: Context, escapes: bool): (f: seq<nat>)
    ensures |f| == |m.vocab|
    ensures forall i :: 0 <= i < |f| ==> f[i] == AtLeastOne(m.rescaled(context, escapes, i))
  {
    seq<nat>(|m.vocab|, i requires 0 <= i < |m.vocab| => AtLeastOne(m.rescaled(context, escapes, i)))
  }

  function Min(a: int, b: int): int { if a <= b then a else b }

  function Seeds(m: Model, context: Context, escapes: bool): (f: seq<nat>)
    ensures |f| == |m.vocab|
    ensures forall i :: 0 <= i < |f| && (m.vocab[i] != ESC || escapes) ==> f[i] >= 1
  {
    var eps := Epsilons(m, context, escapes);
    if Sum(eps) > CDF_SCALE / 2 then Rescaled(m, context, escapes) else eps
  }

  function Frequencies(m: Model, context: Context, escapes: bool): (f: seq<nat>)
    ensures |f| == |m.vocab|
    ensures forall i :: 0 <= i < |f| && (m.vocab[i] != ESC || escapes) ==> f[i] >= 1
  {
    var seeds := Seeds(m, context, escapes);
    seq<nat>(|seeds|, i requires 0 <= i < |seeds| => seeds[i] + m.blended(context, escapes, i))
  }

  /** Which codepoints are of which script. */
  lemma ScriptRanges(c: char)
    ensures var cp := c as int;
            && (CharScript(c) == Latin <==> 0x41 <= cp <= 0x24F || 0x1E00 <= cp <= 0x1EFF)
            && (CharScript(c) == Cyrillic <==> 0x400 <= cp <= 0x52F)
            && (CharScript(c) == Common <==> cp < 0x41 || cp > 0xFFFF)
  {
  }

  /** The character says something about the script of the context. */
  predicate Telling(c: char) {
    c != BOS && CharScript(c) != Common
  }

  /** The last telling character of the context is at `i`. */
  ghost predicate LastTelling(context: Context, i: int) {
    0 <= i < |context| && Telling(context[i]) && forall j :: i < j < |context| ==> !Telling(context[j])
  }

  lemma {:induction false} NearestScriptFound(context: Context)
    ensures match NearestScript(context)
            case Some(s) => exists i :: LastTelling(context, i) && CharScript(context[i]) == s
            case None => forall i :: 0 <= i < |context| ==> !Telling(context[i])
  {
    hide CharScript;
    if context != [] {
      var n := |context| - 1;
      var front := context[..n];
      if Telling(context[n]) {
        assert LastTelling(context, n);
      } else {
        NearestScriptFound(front);
        hide Telling;
        if i :| LastTelling(front, i) && NearestScript(front) == Some(CharScript(front[i])) {
          assert LastTelling(context, i) && front[i] == context[i];
        } else {
          assert forall i :: 0 <= i < n ==> front[i] == context[i];
        }
      }
    }
  }

  /** The script of the context is that of its last telling character, and there is none without one. */
  lemma NearestScriptIs(context: Context, s: Script)
    ensures NearestScript(context) == Some(s) <==> exists i :: LastTelling(context, i) && CharScript(context[i]) == s
    ensures NearestScript(context) == None <==> forall i :: 0 <= i < |context| ==> !Telling(context[i])
  {
    NearestScriptFound(context);
    hide NearestScript, Telling, CharScript;
    if i, j :| LastTelling(context, i) && LastTelling(context, j) && i < j {
      assert false;
    }
  }

  /** What a symbol starts with: 500 or nothing for ESC; 32, or 8 after a match of at least three characters,
      for a symbol that fits the script of the context; and where no character tells the script, a third of
      that for Common symbols. Everything else starts with 1. */
  ghost predicate SeedRule(m: Model, context: Context, escapes: bool, c: char, e: nat) {
    var boost := if m.matchOrder(context) >= 3 then 8 else 32;
    if c == ESC then e == if escapes then 500 else 0
    else if forall i :: 0 <= i < |context| ==> !Telling(context[i]) then
      e == if CharScript(c) == Common then (if boost == 8 then 2 else 10) else 1
    else
      exists i :: LastTelling(context, i) && e == if CharScript(c) in {Common, CharScript(context[i])} then boost else 1
  }

  /** While they take at most half the scale, these are the seeds; beyond that none is zero. */
  lemma SeedIs(m: Model, context: Context, escapes: bool, i: nat)
    requires i < |m.vocab|
    ensures SeedRule(m, context, escapes, m.vocab[i], Epsilons(m, context, escapes)[i])
    ensures var total := Sum(Epsilons(m, context, escapes));
            if total <= 0x80000 then SeedRule(m, context, escapes, m.vocab[i], Seeds(m, context, escapes)[i])
            else Seeds(m, context, escapes)[i] == AtLeastOne(m.rescaled(context, escapes, i))
  {
    var near := NearestScript(context);
    NearestScriptIs(context, if near.Some? then near.value else Common);
    hide NearestScript, Sum;
  }

  // ---------------------------------------------------------------- normalisation

  /** The first index holding the maximum of the first `n` entries. */
  function FirstMax(f: seq<nat>, n: nat): (k: nat)
    requires 0 < n <= |f|
    ensures k < n
  {
    if n == 1 then 0
    else
      var k := FirstMax(f, n - 1);
      if f[n - 1] > f[k] then n - 1 else k
  }

  predicate Indices(order: seq<nat>, n: nat) {
    forall i :: 0 <= i < |order| ==> order[i] < n
  }

  function InsertDescending(f: seq<nat>, order: seq<nat>, i: nat): (r: seq<nat>)
    requires i < |f| && Indices(order, |f|)
    ensures Indices(r, |f|)
    ensures Indices(order, i + 1) ==> Indices(r, i + 1)
  {
    if order == [] || f[order[0]] < f[i] then [i] + order
    else [order[0]] + InsertDescending(f, order[1..], i)
  }

  /** Indices by falling frequency, equal frequencies in rising index order (a stable reverse sort). */
  function Descending(f: seq<nat>, n: nat): (order: seq<nat>)
    requires n <= |f|
    ensures Indices(order, n)
  {
    if n == 0 then []
    else
      InsertDescending(f, Descending(f, n - 1), n - 1)
  }

  function Trim(f: seq<nat>, order: seq<nat>, remaining: int): (r: seq<nat>)
    requires Indices(order, |f|)
    ensures |r| == |f|
    decreases |order|
  {
    if order == [] || remaining <= 0 then f
    else
      var k := order[0];
      var remove := Min(f[k] as int - 1, remaining);
      Trim(f[k := f[k] - remove], order[1..], remaining - remove)
  }

  function CutBy(f: seq<nat>, excess: nat): (r: seq<nat>)
    ensures |r| == |f|
  {
    Trim(f, Descending(f, |f|), excess)
  }

  /** Bring the total to exactly the scale: raise the largest entry, or cut the largest ones. */
  function Normalise(f: seq<nat>): (r: seq<nat>)
    requires |f| > 0
    ensures |r| == |f|
  {
    var total := Sum(f);
    if total == CDF_SCALE then f
    else if total < CDF_SCALE then
      var k := FirstMax(f, |f|);
      f[k := f[k] + (CDF_SCALE - total)]
    else CutBy(f, total - CDF_SCALE)
  }

  function Cumulate(f: seq<nat>): (highs: seq<int>)
    ensures |highs| == |f|
  {
    seq(|f|, i requires 0 <= i < |f| => Sum(f[..i + 1]))
  }

  function Cdf(m: Model, context: Context, escapes: bool): (highs: seq<int>)
    requires ValidModel(m)
    ensures |highs| == |m.vocab|
  {
    Cumulate(Normalise(Frequencies(m, context, escapes)))
  }

  // ---------------------------------------------------------------- sums

  lemma {:induction false} SumUpdate(f: seq<nat>, k: nat, v: nat)
    requires k < |f|
    ensures Sum(f[k := v]) == Sum(f) - f[k] + v
  {
    var n := |f| - 1;
    if k == n {
      assert f[k := v][..n] == f[..n];
    } else {
      SumUpdate(f[..n], k, v);
      assert f[k := v][..n] == f[..n][k := v];
    }
  }

  lemma SumTake(f: seq<nat>, n: nat)
    requires n < |f|
    ensures Sum(f[..n + 1]) == Sum(f[..n]) + f[n]
  {
    assert f[..n + 1][..n] == f[..n];
  }

  lemma {:induction false} SumMonotone(f: seq<nat>, i: nat, j: nat)
    requires i <= j <= |f|
    ensures Sum(f[..i]) <= Sum(f[..j])
    decreases j - i
  {
    if i < j {
      SumMonotone(f, i, j - 1);
      SumTake(f, j - 1);
    }
  }

  // ---------------------------------------------------------------- the trim order

  /** Falling frequencies, ties in rising index order. */
  predicate Falling(f: seq<nat>, order: seq<nat>)
    requires Indices(order, |f|)
  {
    forall i, j :: 0 <= i < j < |order| ==>
      f[order[i]] > f[order[j]] || (f[order[i]] == f[order[j]] && order[i] < order[j])
  }

  lemma {:induction false} InsertMembers(f: seq<nat>, order: seq<nat>, i: nat)
    requires i < |f| && Indices(order, |f|)
    ensures forall k :: k in InsertDescending(f, order, i) <==> k == i || k in order
  {
    if !(order == [] || f[order[0]] < f[i]) {
      InsertMembers(f, order[1..], i);
      assert order == [order[0]] + order[1..];
    }
  }

  lemma {:induction false} InsertKeepsFalling(f: seq<nat>, order: seq<nat>, i: nat)
    requires i < |f| && Indices(order, i)
    requires Falling(f, order)
    ensures Falling(f, InsertDescending(f, order, i))
  {
    if order == [] || f[order[0]] < f[i] {
      forall j | 0 < j < |order| + 1
        ensures f[i] > f[([i] + order)[j]]
      {
        assert f[order[0]] >= f[order[j - 1]];
      }
    } else {
      InsertKeepsFalling(f, order[1..], i);
      InsertMembers(f, order[1..], i);
      var rest := InsertDescending(f, order[1..], i);
      forall j | 0 <= j < |rest|
        ensures f[order[0]] > f[rest[j]] || (f[order[0]] == f[rest[j]] && order[0] < rest[j])
      {
        if rest[j] != i {
          assert rest[j] in order[1..];
          var q :| 0 <= q < |order[1..]| && order[1..][q] == rest[j];
          assert order[q + 1] == rest[j];
        }
      }
    }
  }

  lemma {:induction false} DescendingIsFalling(f: seq<nat>, n: nat)
    requires n <= |f|
    ensures Falling(f, Descending(f, n))
  {
    if n > 0 {
      DescendingIsFalling(f, n - 1);
      InsertKeepsFalling(f, Descending(f, n - 1), n - 1);
    }
  }

  // ---------------------------------------------------------------- trimming

  /** How much an entry can give up and stay at least one. */
  function Spare(x: nat): nat { if x > 0 then x - 1 else 0 }

  function Slack(f: seq<nat>, order: seq<nat>): nat
    requires Indices(order, |f|)
  {
    if order == [] then 0 else Spare(f[order[0]]) + Slack(f, order[1..])
  }

  lemma {:induction false} SlackOfInsert(f: seq<nat>, order: seq<nat>, i: nat)
    requires i < |f| && Indices(order, |f|)
    ensures Slack(f, InsertDescending(f, order, i)) == Slack(f, order) + Spare(f[i])
  {
    if order == [] || f[order[0]] < f[i] {
      assert ([i] + order)[1..] == order;
    } else {
      SlackOfInsert(f, order[1..], i);
      assert InsertDescending(f, order, i)[1..] == InsertDescending(f, order[1..], i);
    }
  }

  lemma {:induction false} SlackCovers(f: seq<nat>, n: nat)
    requires n <= |f|
    ensures Slack(f, Descending(f, n)) >= Sum(f[..n]) - n
  {
    if n > 0 {
      SlackCovers(f, n - 1);
      SlackOfInsert(f, Descending(f, n - 1), n - 1);
      SumTake(f, n - 1);
    }
  }

  lemma {:induction false} SlackFrame(f: seq<nat>, order: seq<nat>, k: nat, v: nat)
    requires k < |f| && k !in order && Indices(order, |f|)
    ensures Slack(f[k := v], order) == Slack(f, order)
  {
    if order != [] {
      SlackFrame(f, order[1..], k, v);
    }
  }

  lemma {:induction false} NoSlackInZeros(f: seq<nat>, order: seq<nat>)
    requires Indices(order, |f|)
    requires forall i :: 0 <= i < |order| ==> f[order[i]] == 0
    ensures Slack(f, order) == 0
  {
    if order != [] {
      NoSlackInZeros(f, order[1..]);
    }
  }

  lemma FallingTail(f: seq<nat>, order: seq<nat>, v: nat)
    requires order != [] && Indices(order, |f|) && Falling(f, order)
    ensures order[0] !in order[1..]
    ensures Falling(f[order[0] := v], order[1..])
  {
  }

  /** With something left to remove, the next entry in the order always has something to give. */
  lemma FirstHasSpare(f: seq<nat>, order: seq<nat>, remaining: nat)
    requires Indices(order, |f|) && Falling(f, order) && 0 < remaining <= Slack(f, order)
    ensures order != [] && f[order[0]] > 1
  {
    if f[order[0]] <= 1 {
      NoSlackInZeros(f, order);
    }
  }

  /** Trimming removes exactly `remaining`, never empties an entry and never touches a zero. */
  lemma {:induction false} TrimIsExact(f: seq<nat>, order: seq<nat>, remaining: nat)
    requires Indices(order, |f|) && Falling(f, order) && remaining <= Slack(f, order)
    ensures Sum(Trim(f, order, remaining)) == Sum(f) - remaining
    ensures var r := Trim(f, order, remaining);
            forall i :: 0 <= i < |f| ==> r[i] <= f[i] && (r[i] == 0 <==> f[i] == 0)
    decreases |order|
  {
    hide Falling, Sum;
    if remaining > 0 {
      FirstHasSpare(f, order, remaining);
      var k, rest := order[0], order[1..];
      var remove := Min(f[k] as int - 1, remaining);
      SumUpdate(f, k, f[k] - remove);
      FallingTail(f, order, f[k] - remove);
      SlackFrame(f, rest, k, f[k] - remove);
      TrimIsExact(f[k := f[k] - remove], rest, remaining - remove);
    }
  }

  lemma {:induction false} TrimFrame(f: seq<nat>, order: seq<nat>, remaining: int, i: nat)
    requires Indices(order, |f|) && i < |f| && i !in order
    ensures Trim(f, order, remaining)[i] == f[i]
    decreases |order|
  {
    if order != [] && remaining > 0 {
      var k := order[0];
      var remove := Min(f[k] as int - 1, remaining);
      TrimFrame(f[k := f[k] - remove], order[1..], remaining - remove, i);
    }
  }

  /** An entry is cut only when every entry before it in the order is already down to one. */
  lemma {:induction false} TrimCutsLargestFirst(f: seq<nat>, order: seq<nat>, remaining: nat, p: nat, q: nat)
    requires Indices(order, |f|) && Falling(f, order) && remaining <= Slack(f, order)
    requires p < q < |order|
    requires Trim(f, order, remaining)[order[q]] != f[order[q]]
    ensures Trim(f, order, remaining)[order[p]] == 1
    decreases |order|
  {
    FirstHasSpare(f, order, remaining);
    var k, rest := order[0], order[1..];
    var remove := Min(f[k] as int - 1, remaining);
    var g := f[k := f[k] - remove];
    FallingTail(f, order, f[k] - remove);
    SlackFrame(f, rest, k, f[k] - remove);
    assert rest[q - 1] == order[q] != k;
    if p == 0 {
      TrimFrame(g, rest, remaining - remove, k);
    } else {
      assert rest[p - 1] == order[p];
      TrimCutsLargestFirst(g, rest, remaining - remove, p - 1, q - 1);
    }
  }

  // ---------------------------------------------------------------- the table

  lemma {:induction false} FirstMaxIsMax(f: seq<nat>, n: nat)
    requires 0 < n <= |f|
    ensures forall j :: 0 <= j < n ==> f[j] <= f[FirstMax(f, n)]
    ensures forall j :: 0 <= j < FirstMax(f, n) ==> f[j] < f[FirstMax(f, n)]
  {
    if n > 1 {
      FirstMaxIsMax(f, n - 1);
    }
  }

  lemma RaiseIsExact(f: seq<nat>)
    requires |f| > 0 && Sum(f) <= CDF_SCALE
    ensures Sum(Normalise(f)) == CDF_SCALE
    ensures forall i :: 0 <= i < |f| ==> Normalise(f)[i] >= f[i]
    ensures forall i :: 0 <= i < |f| && f[i] == 0 && Normalise(f)[i] > 0 ==> forall j :: 0 <= j < |f| ==> f[j] == 0
  {
    RaiseGoesToFirst(f);
    var k := FirstMax(f, |f|);
    SumUpdate(f, k, f[k] + (CDF_SCALE - Sum(f)));
    hide Sum, FirstMax, Normalise, Larger;
    forall j | 0 <= j < |f| && f[k] == 0
      ensures f[j] == 0
    {
      if j != k {
        LargerIsNoLess(f, k, j);
      }
    }
  }

  lemma LargerIsNoLess(f: seq<nat>, p: nat, q: nat)
    requires p < |f| && q < |f| && Larger(f, p, q)
    ensures f[p] >= f[q]
  {
  }

  lemma CutIsExact(f: seq<nat>, excess: nat)
    requires excess + |f| <= Sum(f)
    ensures Sum(CutBy(f, excess)) == Sum(f) - excess
    ensures forall i :: 0 <= i < |f| ==> CutBy(f, excess)[i] <= f[i] && (f[i] > 0 <==> CutBy(f, excess)[i] > 0)
  {
    DescendingIsFalling(f, |f|);
    SlackCovers(f, |f|);
    assert f[..|f|] == f;
    TrimIsExact(f, Descending(f, |f|), excess);
  }

  /** Normalising hits the scale exactly, never empties a symbol and never fills an empty one. */
  lemma NormaliseIsExact(f: seq<nat>)
    requires 0 < |f| <= CDF_SCALE
    ensures Sum(Normalise(f)) == CDF_SCALE
    ensures forall i :: 0 <= i < |f| && f[i] > 0 ==> Normalise(f)[i] > 0
    ensures forall i, j :: 0 <= i < |f| && 0 <= j < |f| && f[i] == 0 && f[j] > 0 ==> Normalise(f)[i] == 0
  {
    if Sum(f) <= CDF_SCALE {
      RaiseIsExact(f);
    } else {
      CutIsExact(f, Sum(f) - CDF_SCALE);
    }
  }

  /** The entry comes before the other when the largest are taken first, equal ones by rising index. */
  predicate Larger(f: seq<nat>, p: nat, q: nat)
    requires p < |f| && q < |f|
  {
    f[p] > f[q] || (f[p] == f[q] && p < q)
  }

  /** The shortage goes to the first of the largest entries. */
  predicate RaisedAt(f: seq<nat>, r: seq<nat>, k: int) {
    && 0 <= k < |f| && Sum(f) <= CDF_SCALE && r == f[k := f[k] + (CDF_SCALE - Sum(f))]
    && forall j :: 0 <= j < |f| && j != k ==> Larger(f, k, j)
  }

  /** The excess is taken from the largest first, each cut to one before the next is touched. */
  predicate CutDown(f: seq<nat>, r: seq<nat>)
    requires |r| == |f|
  {
    && (forall i :: 0 <= i < |f| ==> r[i] <= f[i])
    && forall p, q :: 0 <= p < |f| && 0 <= q < |f| && Larger(f, p, q) && r[q] < f[q] ==> r[p] == 1
  }

  /** How a table is brought to the scale. */
  ghost predicate Adjusted(f: seq<nat>, r: seq<nat>) {
    && |r| == |f| && Sum(r) == CDF_SCALE
    && if Sum(f) <= CDF_SCALE then exists k :: RaisedAt(f, r, k) else CutDown(f, r)
  }

  lemma {:induction false} DescendingHasAll(f: seq<nat>, n: nat, k: nat)
    requires k < n <= |f|
    ensures k in Descending(f, n)
  {
    InsertMembers(f, Descending(f, n - 1), n - 1);
    if k < n - 1 {
      DescendingHasAll(f, n - 1, k);
    }
  }

  lemma CutTakesLargestFirst(f: seq<nat>, excess: nat, p: nat, q: nat)
    requires excess + |f| <= Sum(f) && p < |f| && q < |f| && Larger(f, p, q) && CutBy(f, excess)[q] < f[q]
    ensures CutBy(f, excess)[p] == 1
  {
    var order := Descending(f, |f|);
    DescendingIsFalling(f, |f|);
    SlackCovers(f, |f|);
    assert f[..|f|] == f;
    DescendingHasAll(f, |f|, p);
    DescendingHasAll(f, |f|, q);
    var a :| 0 <= a < |order| && order[a] == p;
    var b :| 0 <= b < |order| && order[b] == q;
    hide Descending, Trim, Sum, Slack;
    assert a < b;
    TrimCutsLargestFirst(f, order, excess, a, b);
  }

  lemma RaiseGoesToFirst(f: seq<nat>)
    requires |f| > 0 && Sum(f) <= CDF_SCALE
    ensures RaisedAt(f, Normalise(f), FirstMax(f, |f|))
  {
    FirstMaxIsMax(f, |f|);
    hide Sum, FirstMax;
  }

  lemma CutGoesDown(f: seq<nat>, excess: nat)
    requires excess + |f| <= Sum(f)
    ensures CutDown(f, CutBy(f, excess))
  {
    CutIsExact(f, excess);
    hide Sum, CutBy, Larger;
    forall p, q | 0 <= p < |f| && 0 <= q < |f| && Larger(f, p, q) && CutBy(f, excess)[q] < f[q]
      ensures CutBy(f, excess)[p] == 1
    {
      CutTakesLargestFirst(f, excess, p, q);
    }
  }

  lemma NormaliseIs(f: seq<nat>)
    requires 0 < |f| <= CDF_SCALE
    ensures Adjusted(f, Normalise(f))
  {
    NormaliseIsExact(f);
    hide Sum, CutBy, RaisedAt, CutDown, FirstMax;
    if Sum(f) <= CDF_SCALE {
      RaiseGoesToFirst(f);
    } else {
      CutGoesDown(f, Sum(f) - CDF_SCALE);
    }
  }

  /** The table of a context: every slice is as wide as the symbol's seed and blend, adjusted to the scale. */
  lemma TableIs(m: Model, context: Context, escapes: bool) returns (f: seq<nat>, r: seq<nat>)
    requires ValidModel(m)
    ensures |f| == |m.vocab| && Adjusted(f, r)
    ensures forall i :: 0 <= i < |f| ==> f[i] == Seeds(m, context, escapes)[i] + m.blended(context, escapes, i)
    ensures forall i :: 0 <= i < |r| ==>
              var s := SliceAt(Cdf(m, context, escapes), i); s.high - s.low == r[i] && s.total == CDF_SCALE
  {
    f := Frequencies(m, context, escapes);
    r := Normalise(f);
    NormaliseIs(f);
    hide Normalise, Seeds;
    forall i | 0 <= i < |r|
      ensures var s := SliceAt(Cdf(m, context, escapes), i); s.high - s.low == r[i] && s.total == CDF_SCALE
    {
      CumulateSlice(r, i);
    }
  }

  lemma CumulateIsCdf(f: seq<nat>)
    requires f != [] && Sum(f) == CDF_SCALE
    ensures IsCdf(Cumulate(f))
  {
    assert f[..|f|] == f;
    forall i, j | 0 <= i <= j < |f|
      ensures Cumulate(f)[i] <= Cumulate(f)[j]
    {
      SumMonotone(f, i + 1, j + 1);
    }
  }

  /** Symbol `i`'s slice is exactly as wide as its frequency. */
  lemma CumulateSlice(f: seq<nat>, i: nat)
    requires i < |f| && Sum(f) == CDF_SCALE
    ensures var s := SliceAt(Cumulate(f), i);
            s.low >= 0 && s.high - s.low == f[i] && s.high <= s.total == CDF_SCALE
  {
    SumTake(f, i);
    SumMonotone(f, i + 1, |f|);
    assert f[..|f|] == f;
    assert f[..0] == [];
  }

  /** A table for every context: non-decreasing, ending exactly at the scale, with room for every
      symbol but ESC, and for ESC too when escapes are on. */
  lemma CdfIsUsable(m: Model, context: Context, escapes: bool)
    requires ValidModel(m)
    ensures IsCdf(Cdf(m, context, escapes))
    ensures forall i :: 0 <= i < |m.vocab| && (m.vocab[i] != ESC || escapes) ==>
                      Codable(SliceAt(Cdf(m, context, escapes), i))
  {
    var raw := Frequencies(m, context, escapes);
    var f := Normalise(raw);
    NormaliseIsExact(raw);
    CumulateIsCdf(f);
    forall i | 0 <= i < |m.vocab| && (m.vocab[i] != ESC || escapes)
      ensures Codable(SliceAt(Cdf(m, context, escapes), i))
    {
      CumulateSlice(f, i);
    }
  }

  /** A symbol has a slice of positive width if and only if seeding and blending gave it a frequency. */
  lemma SliceIsOpen(m: Model, context: Context, escapes: bool, i: nat)
    requires ValidModel(m) && i < |m.vocab|
    ensures Countable(SliceAt(Cdf(m, context, escapes), i))
    ensures Codable(SliceAt(Cdf(m, context, escapes), i)) <==> Frequencies(m, context, escapes)[i] > 0
  {
    var raw := Frequencies(m, context, escapes);
    NormaliseIsExact(raw);
    CumulateSlice(Normalise(raw), i);
    var j :| 0 <= j < |m.vocab| && m.vocab[j] == EOF;
    assert raw[j] > 0;
  }
}
