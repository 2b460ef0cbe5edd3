/** Stored contact routes: `normalize_contact_route`, applied again whenever a stored row is written or read. */
module ContactRoute {
  import opened Wrappers

  /** A path in hexadecimal, its hop count and its hash mode; -1 hops is a flood route. */
  datatype Route = Route(path: string, hops: int, mode: int)

  const FLOOD := Route("", -1, -1)

  /** The stored hop count may be a packed wire byte, as an unsigned or a signed byte. */
  function Packed(hops: int): int {
    hops % 256
  }

  predicate LooksPacked(hops: int) {
    hops < -1 || hops > 63
  }

  /** A packed byte is taken apart, unless its hash mode is the reserved 3. */
  predicate Unpacks(hops: int) {
    LooksPacked(hops) && Packed(hops) < 192
  }

  function HopCount(hops: int): int {
    if Unpacks(hops) then Packed(hops) % 64 else hops
  }

  function HashMode(hops: int, mode: Option<int>): int {
    var m := if Unpacks(hops) then Some(Packed(hops) / 64) else mode;
    if m.Some? && 0 <= m.value <= 2 then m.value else 0
  }

  /** Fit path and hop count to each other: a long path is cut, a short one lowers the hop count. */
  function Fit(path: string, hops: int, mode: int): Route
    requires 0 <= mode <= 2
  {
    var perHop := mode + 1;
    var actual := |path| / 2;
    var expected := hops * perHop;
    if path == "" then Route(path, hops, mode)
    else if actual > expected >= 0 then Route(path[..expected * 2], hops, mode)
    else if actual < expected && actual % perHop == 0 then Route(path, actual / perHop, mode)
    else Route(path, hops, mode)
  }

  function Normalize(path: Option<string>, length: Option<int>, mode: Option<int>): Route {
    var p := if path.Some? then path.value else "";
    var hops := if length.Some? then length.value else -1;
    if (LooksPacked(hops) && Packed(hops) == 255) || HopCount(hops) == -1 then FLOOD
    else Fit(p, HopCount(hops), HashMode(hops, mode))
  }

  /** The route a length stands for: the count itself, with the mode given, or a packed byte, signed or not,
      that holds the mode in its two upper bits. */
  lemma ReadsLength(path: string, length: int, mode: Option<int>, count: nat, upper: nat)
    requires count < 64 && upper < 3
    ensures length == count ==> Normalize(Some(path), Some(length), mode) ==
                                Fit(path, count, if mode in {Some(1), Some(2)} then mode.value else 0)
    ensures length > 63 && length == upper * 64 + count ==> Normalize(Some(path), Some(length), mode) == Fit(path, count, upper)
    ensures length < -1 && length + 256 == upper * 64 + count ==> Normalize(Some(path), Some(length), mode) == Fit(path, count, upper)
    ensures length == -1 || length == 255 ==> Normalize(Some(path), Some(length), mode) == Route("", -1, -1)
  {
    PackedIs(length);
    hide Fit, Packed;
  }

  lemma PackedIs(hops: int)
    ensures 0 <= hops < 256 ==> Packed(hops) == hops
    ensures -256 <= hops < 0 ==> Packed(hops) == hops + 256
  {
  }

  /** A fitted path is always the beginning of the stored one: all of it, or the hops that are counted. Where
      some of it is there and it has whole hops, the count is then that of the hops. */
  lemma FitIsPrefix(path: string, hops: int, mode: int)
    requires 0 <= mode <= 2
    ensures var r := Fit(path, hops, mode); var chars := 2 * (hops * (mode + 1));
            && r.path <= path && r.mode == mode
            && |r.path| == (if hops >= 0 && |path| / 2 > hops * (mode + 1) then chars else |path|)
            && (path != "" && hops >= 0 && |path| / 2 % (mode + 1) == 0 ==> |r.path| / 2 == r.hops * (mode + 1))
            && (path == "" || hops < 0 || |path| / 2 % (mode + 1) != 0 ==> r.hops == hops)
  {
    var perHop, actual := mode + 1, |path| / 2;
    if hops >= 0 {
      assert hops * perHop >= 0;
    } else {
      assert hops * perHop < 0;
    }
    if actual % perHop == 0 {
      WholeHops(actual, perHop);
    }
  }

  function Again(r: Route): Route {
    Normalize(Some(r.path), Some(r.hops), Some(r.mode))
  }

  /** Fitting twice is fitting once. */
  lemma FitIsStable(path: string, hops: int, mode: int)
    requires 0 <= mode <= 2
    ensures var r := Fit(path, hops, mode); Fit(r.path, r.hops, r.mode) == r
  {
    var perHop := mode + 1;
    var actual := |path| / 2;
    var r := Fit(path, hops, mode);
    if path != "" && actual > hops * perHop >= 0 {
      assert |r.path| / 2 == hops * perHop;
    } else if path != "" && actual < hops * perHop && actual % perHop == 0 {
      WholeHops(actual, perHop);
    }
  }

  lemma WholeHops(actual: nat, perHop: nat)
    requires 1 <= perHop <= 3 && actual % perHop == 0
    ensures actual / perHop * perHop == actual
  {
    if perHop == 2 {
      assert actual == 2 * (actual / 2);
    } else if perHop == 3 {
      assert actual == 3 * (actual / 3);
    }
  }

  lemma FitKeeps(path: string, hops: int, mode: int)
    requires 0 <= mode <= 2
    ensures Fit(path, hops, mode).mode == mode
    ensures Fit(path, hops, mode).hops == hops || 0 <= Fit(path, hops, mode).hops
  {
  }

  /** The one family that moves again: a hop count left as a reserved-mode byte is lowered to the length
      of a path of 64 or more hops, and that count is then taken for a packed byte. A caller can check
      it on the inputs. */
  predicate Drifts(path: Option<string>, length: Option<int>, mode: Option<int>) {
    && path.Some? && length.Some? && LooksPacked(length.value) && 192 <= Packed(length.value) < 255
    && var perHop := HashMode(length.value, mode) + 1;
       var actual := |path.value| / 2;
       && path.value != "" && actual % perHop == 0 && actual < length.value * perHop
       && actual / perHop >= 64 && (Packed(actual / perHop) < 192 || Packed(actual / perHop) == 255)
  }

  lemma SecondPass(r: Route)
    requires 0 <= r.mode <= 2 && r.hops != -1 && Fit(r.path, r.hops, r.mode) == r
    requires !Unpacks(r.hops) && !(LooksPacked(r.hops) && Packed(r.hops) == 255)
    ensures Again(r) == r
  {
    hide Fit;
  }

  /** Normalising twice is normalising once, except exactly for the drifting family. */
  lemma NormalizeIsIdempotent(path: Option<string>, length: Option<int>, mode: Option<int>)
    ensures Again(Normalize(path, length, mode)) == Normalize(path, length, mode) <==> !Drifts(path, length, mode)
  {
    var p := if path.Some? then path.value else "";
    var hops := if length.Some? then length.value else -1;
    var r := Normalize(path, length, mode);
    if !((LooksPacked(hops) && Packed(hops) == 255) || HopCount(hops) == -1) {
      FitIsStable(p, HopCount(hops), HashMode(hops, mode));
      FitKeeps(p, HopCount(hops), HashMode(hops, mode));
      if Drifts(path, length, mode) {
        DriftMoves(r);
      } else {
        ResultIsPlain(path, length, mode);
        SecondPass(r);
      }
    }
  }

  lemma DriftMoves(r: Route)
    requires r.hops >= 64 && (Packed(r.hops) < 192 || Packed(r.hops) == 255)
    ensures Again(r) != r
  {
  }

  lemma ResultIsPlain(path: Option<string>, length: Option<int>, mode: Option<int>)
    requires !Drifts(path, length, mode)
    requires var hops := if length.Some? then length.value else -1;
             !(LooksPacked(hops) && Packed(hops) == 255) && HopCount(hops) != -1
    ensures var r := Normalize(path, length, mode);
            r.hops != -1 && !Unpacks(r.hops) && !(LooksPacked(r.hops) && Packed(r.hops) == 255)
  {
  }

  /** In particular for every path of at most 63 bytes. */
  lemma ShortPathsAreStable(path: Option<string>, length: Option<int>, mode: Option<int>)
    requires path.Some? ==> |path.value| <= 127
    ensures Again(Normalize(path, length, mode)) == Normalize(path, length, mode)
  {
    NormalizeIsIdempotent(path, length, mode);
  }
}
