/** `_compute_cdf` as the source runs it, editing one frequency list in place, and `get_cdf` with its
    bounded cache, proved against the functions of `FrequencyTable`. */
module FrequencyObjects {
  import opened ArithmeticCoder
  import opened FrequencyTable

  const CDF_CACHE_MAX: nat := 50000

  /** First pass: script-driven seeds, rescaled when they would fill more than half the scale. */
  method SeedInPlace(m: Model, context: Context, escapes: bool, freqs: array<nat>)
    requires freqs.Length == |m.vocab|
    modifies freqs
    ensures freqs[..] == Seeds(m, context, escapes)
  {
    ghost var eps := Epsilons(m, context, escapes);
    var total := 0;
    for i := 0 to freqs.Length
      invariant forall j :: 0 <= j < i ==> freqs[j] == eps[j]
      invariant total == Sum(eps[..i])
    {
      freqs[i] := Epsilon(m, context, escapes, m.vocab[i]);
      SumTake(eps, i);
      total := total + freqs[i];
    }
    assert eps[..|eps|] == eps;
    if total > CDF_SCALE / 2 {
      for i := 0 to freqs.Length
        invariant forall j :: 0 <= j < i ==> freqs[j] == AtLeastOne(m.rescaled(context, escapes, j))
      {
        freqs[i] := AtLeastOne(m.rescaled(context, escapes, i));
      }
    }
  }

  method AddBlend(m: Model, context: Context, escapes: bool, freqs: array<nat>)
    modifies freqs
    ensures forall i :: 0 <= i < freqs.Length ==> freqs[i] == old(freqs[i]) + m.blended(context, escapes, i)
  {
    for i := 0 to freqs.Length
      invariant forall j :: 0 <= j < i ==> freqs[j] == old(freqs[j]) + m.blended(context, escapes, j)
      invariant forall j :: i <= j < freqs.Length ==> freqs[j] == old(freqs[j])
    {
      freqs[i] := freqs[i] + m.blended(context, escapes, i);
    }
  }

  method Total(f: seq<nat>) returns (total: nat)
    ensures total == Sum(f)
  {
    total := 0;
    for i := 0 to |f|
      invariant total == Sum(f[..i])
    {
      SumTake(f, i);
      total := total + f[i];
    }
    assert f[..|f|] == f;
  }

  method RaiseLargest(freqs: array<nat>, diff: nat)
    requires freqs.Length > 0
    modifies freqs
    ensures var f := old(freqs[..]); var k := FirstMax(f, |f|);
            freqs[..] == f[k := f[k] + diff]
  {
    var best := 0;
    for i := 1 to freqs.Length
      invariant best == FirstMax(freqs[..], i)
    {
      if freqs[i] > freqs[best] {
        best := i;
      }
    }
    freqs[best] := freqs[best] + diff;
  }

  method TrimInPlace(freqs: array<nat>, order: seq<nat>, excess: nat)
    requires Indices(order, freqs.Length)
    modifies freqs
    ensures freqs[..] == Trim(old(freqs[..]), order, excess)
  {
    var remaining: int := excess;
    var i := 0;
    while i < |order|
      invariant 0 <= i <= |order|
      invariant Trim(freqs[..], order[i..], remaining) == Trim(old(freqs[..]), order, excess)
    {
      if remaining <= 0 {
        return;
      }
      ghost var before := freqs[..];
      var index := order[i];
      var remove := Min(freqs[index] as int - 1, remaining);
      freqs[index] := freqs[index] - remove;
      remaining := remaining - remove;
      assert freqs[..] == before[index := before[index] - remove];
      assert order[i..][1..] == order[i + 1..];
      i := i + 1;
    }
  }

  method NormaliseInPlace(freqs: array<nat>)
    requires freqs.Length > 0
    modifies freqs
    ensures freqs[..] == Normalise(old(freqs[..]))
  {
    var total := Total(freqs[..]);
    if total < CDF_SCALE {
      RaiseLargest(freqs, CDF_SCALE - total);
    } else if total > CDF_SCALE {
      TrimInPlace(freqs, Descending(freqs[..], freqs.Length), total - CDF_SCALE);
    }
  }

  method RunningTotals(f: seq<nat>) returns (highs: seq<int>)
    ensures highs == Cumulate(f)
  {
    highs := [];
    var cumulative := 0;
    for i := 0 to |f|
      invariant cumulative == Sum(f[..i])
      invariant highs == Cumulate(f)[..i]
    {
      SumTake(f, i);
      cumulative := cumulative + f[i];
      highs := highs + [cumulative];
    }
  }

  method ComputeCdf(m: Model, context: Context, escapes: bool) returns (highs: seq<int>)
    requires ValidModel(m)
    ensures highs == Cdf(m, context, escapes)
    ensures IsCdf(highs)
  {
    var freqs := new nat[|m.vocab|];
    SeedInPlace(m, context, escapes, freqs);
    AddBlend(m, context, escapes, freqs);
    assert freqs[..] == Frequencies(m, context, escapes);
    NormaliseInPlace(freqs);
    highs := RunningTotals(freqs[..]);
    CdfIsUsable(m, context, escapes);
  }

  /** The model with its table cache; a full cache only stops growing. */
  class MeshModel {
    const m: Model
    var cache: map<(bool, Context), seq<int>>

    ghost predicate Valid()
      reads this
    {
      && ValidModel(m)
      && |cache| <= CDF_CACHE_MAX
      && forall k :: k in cache ==> cache[k] == Cdf(m, k.1, k.0)
    }

    constructor (m: Model)
      requires ValidModel(m)
      ensures Valid() && this.m == m
    {
      this.m := m;
      cache := map[];
    }

    /** Cached or computed, encoder and decoder always get the same table. */
    method GetCdf(context: Context, escapes: bool) returns (cdf: seq<int>)
      requires Valid()
      modifies this`cache
      ensures Valid()
      ensures cdf == Cdf(m, context, escapes) && IsCdf(cdf)
    {
      hide Cdf, IsCdf;
      var key := (escapes, context);
      CdfIsUsable(m, context, escapes);
      if key in cache {
        return cache[key];
      }
      cdf := ComputeCdf(m, context, escapes);
      if |cache| < CDF_CACHE_MAX {
        cache := cache[key := cdf];
      }
    }
  }
}
