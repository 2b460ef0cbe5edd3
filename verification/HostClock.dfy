/** The host-clock verdict: `check_host_clock` with its cache, step detection and quarantine, over
    every sequence of calls. The clocks and the time references are inputs of each call. */
module HostClock {
  import opened Wrappers

  const CACHE_SECONDS: real := 600.0
  const STEP_TOLERANCE: real := 5.0
  const QUARANTINE: real := 3600.0

  datatype Verdict = Verdict(trusted: bool, verified: bool)

  datatype State = State(status: Option<Verdict>, checked: real, anchorWall: real, anchorMono: real, stepSince: Option<real>)

  /** One call: `now` is the first monotonic reading; the step is measured with `wall` and `mono`; a
      re-anchoring reads `anchorWall` and `anchorMono`; `offset` is what a reference answered, if any. */
  datatype Call = Call(force: bool, now: real, wall: real, mono: real, offset: Option<real>, threshold: real,
                       newWall: real, newMono: real)

  function Abs(x: real): real { if x < 0.0 then -x else x }

  predicate Stepped(s: State, c: Call) {
    Abs((c.wall - s.anchorWall) - (c.mono - s.anchorMono)) > STEP_TOLERANCE
  }

  predicate ServedFromCache(s: State, c: Call) {
    s.status.Some? && c.now - s.checked < CACHE_SECONDS && !c.force && !Stepped(s, c)
  }

  function ReAnchor(s: State, c: Call): State {
    s.(anchorWall := c.newWall, anchorMono := c.newMono, stepSince := None)
  }

  function Check(s: State, c: Call): (Verdict, State) {
    if ServedFromCache(s, c) then (s.status.value, s)
    else if c.offset.Some? then
      var v := Verdict(Abs(c.offset.value) <= c.threshold, true);
      (v, ReAnchor(s, c).(status := Some(v), checked := c.now))
    else
      var s1 := if Stepped(s, c) && s.stepSince.None? then s.(stepSince := Some(c.now)) else s;
      var s2 := if s1.stepSince.Some? && c.now - s1.stepSince.value >= QUARANTINE then ReAnchor(s1, c) else s1;
      var v := Verdict(s2.stepSince.None?, false);
      (v, s2.(status := Some(v), checked := c.now))
  }

  // ---------------------------------------------------------------- runs

  function Run(s: State, calls: seq<Call>): State {
    if calls == [] then s else Check(Run(s, calls[..|calls| - 1]), calls[|calls| - 1]).1
  }

  /** The verdict of call `i` of a run. */
  function VerdictAt(s: State, calls: seq<Call>, i: nat): Verdict
    requires i < |calls|
  {
    Check(Run(s, calls[..i]), calls[i]).0
  }

  /** Call `j` is not served from the cache. */
  predicate FreshAt(s: State, calls: seq<Call>, j: int) {
    0 <= j < |calls| && !ServedFromCache(Run(s, calls[..j]), calls[j])
  }

  /** Call `j` is the last one before call `n` that is not served from the cache. */
  predicate LastFresh(s: State, calls: seq<Call>, n: nat, j: int)
    requires n <= |calls|
  {
    j < n && FreshAt(s, calls, j) && forall k :: j < k < n ==> !FreshAt(s, calls, k)
  }

  lemma {:induction false} StatusIsLastFresh(s: State, calls: seq<Call>, n: nat, j: int)
    requires n <= |calls| && LastFresh(s, calls, n, j)
    ensures Run(s, calls[..n]).status == Some(VerdictAt(s, calls, j)) && Run(s, calls[..n]).checked == calls[j].now
    decreases n
  {
    var front := calls[..n];
    assert front[..n - 1] == calls[..n - 1] && front[n - 1] == calls[n - 1];
    if j < n - 1 {
      assert !FreshAt(s, calls, n - 1);
      StatusIsLastFresh(s, calls, n - 1, j);
    }
  }

  /** Over every run: a call is served from the cache if and only if it comes within ten minutes of the last
      call that was not, is not forced, and the clocks have not moved apart by more than five seconds since
      they were last anchored; then it repeats that call's verdict. Any other call is verified exactly when a
      reference answers it, and is then trusted exactly when that offset is within its threshold. */
  lemma VerdictIs(s: State, calls: seq<Call>, i: nat, j: int)
    requires i < |calls| && LastFresh(s, calls, i, j)
    ensures var c, before := calls[i], Run(s, calls[..i]);
            var drift := (c.wall - before.anchorWall) - (c.mono - before.anchorMono);
            FreshAt(s, calls, i) <==> c.now - calls[j].now >= 600.0 || c.force || drift > 5.0 || drift < -5.0
    ensures var c, v := calls[i], VerdictAt(s, calls, i);
            if !FreshAt(s, calls, i) then v == VerdictAt(s, calls, j)
            else if c.offset.Some? then v == Verdict(-c.threshold <= c.offset.value <= c.threshold, true)
            else !v.verified
  {
    StatusIsLastFresh(s, calls, i, j);
    hide Run, LastFresh;
  }

  /** A stored verdict without a reference is trusted exactly when no step is pending, and a pending step
      always has such a verdict. */
  predicate Consistent(s: State) {
    && (s.status.Some? && !s.status.value.verified ==> (s.status.value.trusted <==> s.stepSince.None?))
    && (s.stepSince.Some? ==> s.status.Some? && !s.status.value.verified)
  }

  lemma {:induction false} RunIsConsistent(s: State, calls: seq<Call>)
    requires Consistent(s)
    ensures Consistent(Run(s, calls))
    decreases |calls|
  {
    if calls != [] {
      RunIsConsistent(s, calls[..|calls| - 1]);
    }
  }

  /** A step was noticed at `since`, and nothing has ended the quarantine. */
  predicate Quarantined(s: State, since: real) {
    s.stepSince == Some(since) && s.status == Some(Verdict(false, false)) && s.checked < since + QUARANTINE
  }

  /** Noticing a step with no reference answering puts the clock in quarantine at once. */
  lemma NoticingQuarantines(s: State, c: Call)
    requires Stepped(s, c) && s.stepSince.None? && c.offset.None?
    ensures !Check(s, c).0.trusted && Quarantined(Check(s, c).1, c.now)
  {
  }

  lemma QuarantineStep(s: State, c: Call, since: real)
    requires Quarantined(s, since) && c.offset.None? && c.now < since + QUARANTINE
    ensures !Check(s, c).0.trusted && Quarantined(Check(s, c).1, since)
  {
  }

  /** No reference answers, and every call comes before the quarantine is over or is served from the
      cache. */
  predicate Unrelieved(s: State, calls: seq<Call>, since: real) {
    forall i :: 0 <= i < |calls| ==>
      && calls[i].offset.None?
      && (calls[i].now < since + QUARANTINE || ServedFromCache(Run(s, calls[..i]), calls[i]))
  }

  lemma {:induction false} QuarantineHolds(s: State, calls: seq<Call>, since: real)
    requires Quarantined(s, since) && Unrelieved(s, calls, since)
    ensures Quarantined(Run(s, calls), since)
    decreases |calls|
  {
    if calls != [] {
      var n := |calls| - 1;
      UnrelievedBefore(s, calls, since, n);
      QuarantineHolds(s, calls[..n], since);
      if !ServedFromCache(Run(s, calls[..n]), calls[n]) {
        QuarantineStep(Run(s, calls[..n]), calls[n], since);
      }
    }
  }

  lemma UnrelievedBefore(s: State, calls: seq<Call>, since: real, n: nat)
    requires Unrelieved(s, calls, since) && n <= |calls|
    ensures Unrelieved(s, calls[..n], since)
  {
    hide ServedFromCache, Run;
    forall i | 0 <= i < n
      ensures calls[..n][i].offset.None?
              && (calls[..n][i].now < since + QUARANTINE || ServedFromCache(Run(s, calls[..n][..i]), calls[..n][i]))
    {
      assert calls[..n][i] == calls[i] && calls[..n][..i] == calls[..i];
    }
  }

  /** A step noticed by some call, with no reference answering then or later. That call and, over every run
      that follows, every verdict, cached or fresh, forced or not, is untrusted until some check comes
      an hour later and is not served from the cache; that check, the first, is trusted again, measures
      later steps from its own readings, and leaves no step pending. Ten minutes past the hour no answer
      can come from the cache any more. */
  lemma QuarantineOverRuns(start: State, noticing: Call, calls: seq<Call>, i: nat)
    requires Stepped(start, noticing) && start.stepSince.None? && noticing.offset.None?
    requires i < |calls| && calls[i].offset.None?
    requires Unrelieved(Check(start, noticing).1, calls[..i], noticing.now)
    ensures !Check(start, noticing).0.trusted
    ensures var s, end := Check(start, noticing).1, noticing.now + QUARANTINE;
            var before := Run(s, calls[..i]); var (v, after) := Check(before, calls[i]);
            && v == VerdictAt(s, calls, i)
            && if calls[i].now < end || ServedFromCache(before, calls[i])
               then !v.trusted && calls[i].now < end + CACHE_SECONDS
               else v.trusted && after.stepSince.None?
                    && after.anchorWall == calls[i].newWall && after.anchorMono == calls[i].newMono
  {
    NoticingQuarantines(start, noticing);
    QuarantineHolds(Check(start, noticing).1, calls[..i], noticing.now);
  }

  // ---------------------------------------------------------------- the module's state, updated in place

  class Monitor {
    var status: Option<Verdict>
    var checkedMono: real
    var anchorWall: real
    var anchorMono: real
    var unverifiedStepSince: Option<real>

    ghost function Snapshot(): State
      reads this
    {
      State(status, checkedMono, anchorWall, anchorMono, unverifiedStepSince)
    }

    constructor (wall: real, mono: real)
      ensures Snapshot() == State(None, 0.0, wall, mono, None) && Consistent(Snapshot())
    {
      status, checkedMono, anchorWall, anchorMono, unverifiedStepSince := None, 0.0, wall, mono, None;
    }

    method CheckHostClock(c: Call) returns (v: Verdict)
      modifies this
      ensures (v, Snapshot()) == Check(old(Snapshot()), c)
    {
      var step := (c.wall - anchorWall) - (c.mono - anchorMono);
      var stepped := Abs(step) > STEP_TOLERANCE;
      var fresh_ := status.Some? && c.now - checkedMono < CACHE_SECONDS;
      if status.Some? && fresh_ && !c.force && !stepped {
        return status.value;
      }
      var trusted, verified;
      if c.offset.Some? {
        verified := true;
        trusted := Abs(c.offset.value) <= c.threshold;
        anchorWall, anchorMono := c.newWall, c.newMono;
        unverifiedStepSince := None;
      } else {
        verified := false;
        if stepped && unverifiedStepSince.None? {
          unverifiedStepSince := Some(c.now);
        }
        var since := unverifiedStepSince;
        if since.Some? && c.now - since.value >= QUARANTINE {
          unverifiedStepSince := None;
          anchorWall, anchorMono := c.newWall, c.newMono;
          since := None;
        }
        trusted := since.None?;
      }
      v := Verdict(trusted, verified);
      status := Some(v);
      checkedMono := c.now;
    }
  }
}
