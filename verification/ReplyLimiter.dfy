/** The bots' reply limiter: `BotEngine._admit` and `_touch_user_accept`, over whole runs. Times are
    real numbers; only equality of user names matters, so users are numbers. */
module ReplyLimiter {
  import opened Wrappers

  const MAX_TRACKED_USERS: nat := 1000

  type User = nat
  type BotId = nat

  // ---------------------------------------------------------------- a bounded, ordered table of users

  datatype Entry = Entry(user: User, time: real)

  function Tracked(table: seq<Entry>, user: User): bool {
    exists i :: 0 <= i < |table| && table[i].user == user
  }

  /** The stored time, 0 for a user who is not tracked. */
  function TimeOf(table: seq<Entry>, user: User): real {
    if table == [] then 0.0
    else if table[0].user == user then table[0].time
    else TimeOf(table[1..], user)
  }

  function Forget(table: seq<Entry>, user: User): (r: seq<Entry>)
    ensures |r| <= |table|
  {
    if table == [] then []
    else if table[0].user == user then table[1..]
    else [table[0]] + Forget(table[1..], user)
  }

  function Evict(table: seq<Entry>): seq<Entry> {
    if |table| > MAX_TRACKED_USERS then Evict(table[1..]) else table
  }

  /** Store a time, as the newest entry, and evict from the oldest end. */
  function Stamp(table: seq<Entry>, user: User, time: real): seq<Entry> {
    Evict(Forget(table, user) + [Entry(user, time)])
  }

  // ---------------------------------------------------------------- admission

  datatype Settings = Settings(globalSeconds: real, perUserSeconds: real)

  datatype BotConfig = BotConfig(cooldown: real, queueThreshold: real, perUserCooldown: real)

  datatype Bot = Bot(lastRun: real, queued: set<User>, cooldowns: seq<Entry>)

  datatype Engine = Engine(lastGlobal: real, accepts: seq<Entry>)

  /** The bot's own limiters: the delay to start after, or none, and the bot state either way. */
  function AdmitByBot(cfg: BotConfig, bot: Bot, user: User, now: real): (Option<real>, Bot) {
    var remaining := cfg.cooldown - (now - bot.lastRun);
    var waiting := cfg.cooldown > 0.0 && bot.lastRun > 0.0 && remaining > 0.0;
    if waiting && !(remaining <= cfg.queueThreshold && user !in bot.queued) then (None, bot)
    else
      var b1 := if waiting then bot.(queued := bot.queued + {user}) else bot;
      var delay := if waiting then remaining else 0.0;
      if cfg.perUserCooldown > 0.0 then
        var last := TimeOf(b1.cooldowns, user);
        if last > 0.0 && now - last < cfg.perUserCooldown then (None, b1)
        else (Some(delay), b1.(cooldowns := Stamp(b1.cooldowns, user, now)))
      else (Some(delay), b1)
  }

  /** One call: `now` is the first clock reading, `later` the second one, taken when the accept is stored. */
  function Admit(st: Settings, cfg: BotConfig, e: Engine, bot: Bot, user: User, now: real, later: real): (Option<real>, Engine, Bot) {
    var last := TimeOf(e.accepts, user);
    if st.globalSeconds > 0.0 && now - e.lastGlobal < st.globalSeconds && e.lastGlobal > 0.0 then (None, e, bot)
    else if st.perUserSeconds > 0.0 && last > 0.0 && now - last < st.perUserSeconds then (None, e, bot)
    else
      var (delay, b1) := AdmitByBot(cfg, bot, user, now);
      if delay.None? then (None, e, b1)
      else (delay, Engine(now, Stamp(e.accepts, user, later)), b1.(lastRun := now))
  }

  // ---------------------------------------------------------------- runs

  /** `started` are the users whose delayed runs by this bot began since its last call: they leave its queue. */
  datatype Call = Call(bot: BotId, cfg: BotConfig, user: User, now: real, later: real, started: set<User>)

  datatype State = State(engine: Engine, bots: map<BotId, Bot>, admitted: seq<Entry>)

  const FRESH := State(Engine(0.0, []), map[], [])

  function BotOf(s: State, bot: BotId): Bot {
    if bot in s.bots then s.bots[bot] else Bot(0.0, {}, [])
  }

  /** The bot as a call finds it. */
  function Found(s: State, c: Call): Bot {
    var bot := BotOf(s, c.bot);
    bot.(queued := bot.queued - c.started)
  }

  function Step(st: Settings, s: State, c: Call): State {
    var bot := Found(s, c);
    var (delay, e, b) := Admit(st, c.cfg, s.engine, bot, c.user, c.now, c.later);
    State(e, s.bots[c.bot := b], if delay.Some? then s.admitted + [Entry(c.user, c.now)] else s.admitted)
  }

  function Run(st: Settings, calls: seq<Call>): State {
    if calls == [] then FRESH else Step(st, Run(st, calls[..|calls| - 1]), calls[|calls| - 1])
  }

  /** Clock readings are positive and never go back. */
  predicate Monotonic(calls: seq<Call>) {
    && (forall i :: 0 <= i < |calls| ==> 0.0 < calls[i].now <= calls[i].later)
    && (forall i, j :: 0 <= i < j < |calls| ==> calls[i].later <= calls[j].now)
  }

  // ---------------------------------------------------------------- the table

  ghost predicate OneEntryEach(table: seq<Entry>) {
    forall i, j :: 0 <= i < j < |table| ==> table[i].user != table[j].user
  }

  lemma {:induction false} TimeOfTracked(table: seq<Entry>, i: nat)
    requires i < |table| && OneEntryEach(table)
    ensures TimeOf(table, table[i].user) == table[i].time
  {
    if i > 0 {
      TimeOfTracked(table[1..], i - 1);
    }
  }

  lemma {:induction false} TimeOfUntracked(table: seq<Entry>, user: User)
    requires !Tracked(table, user)
    ensures TimeOf(table, user) == 0.0 && Forget(table, user) == table
  {
    if table != [] {
      assert table[0].user != user;
      assert forall i :: 0 <= i < |table[1..]| ==> table[1..][i] == table[i + 1];
      TimeOfUntracked(table[1..], user);
    }
  }

  lemma {:induction false} ForgetAt(table: seq<Entry>, q: nat)
    requires q < |table| && OneEntryEach(table)
    ensures Forget(table, table[q].user) == table[..q] + table[q + 1..]
  {
    if q > 0 {
      ForgetAt(table[1..], q - 1);
      assert table[..q] == [table[0]] + table[1..][..q - 1];
      assert table[1..][q..] == table[q + 1..];
    }
  }

  lemma EvictOne(table: seq<Entry>)
    requires |table| <= MAX_TRACKED_USERS + 1
    ensures Evict(table) == if |table| <= MAX_TRACKED_USERS then table else table[1..]
  {
  }

  // ---------------------------------------------------------------- history

  ghost predicate Seen(h: seq<Entry>, user: User) {
    exists i :: 0 <= i < |h| && h[i].user == user
  }

  /** How many admissions came after the user's last one. */
  function Since(h: seq<Entry>, user: User): nat {
    if h == [] || h[|h| - 1].user == user then 0 else 1 + Since(h[..|h| - 1], user)
  }

  lemma {:induction false} SinceIndex(h: seq<Entry>, user: User)
    requires Seen(h, user)
    ensures Since(h, user) < |h| && h[|h| - 1 - Since(h, user)].user == user
    ensures forall i :: |h| - 1 - Since(h, user) < i < |h| ==> h[i].user != user
  {
    if h[|h| - 1].user != user {
      var g := h[..|h| - 1];
      var i :| 0 <= i < |h| && h[i].user == user;
      assert g[i].user == user;
      SinceIndex(g, user);
    }
  }

  function LastIndex(h: seq<Entry>, user: User): int {
    |h| - 1 - Since(h, user)
  }

  lemma SinceStep(h: seq<Entry>, e: Entry, user: User)
    ensures Since(h + [e], user) == if e.user == user then 0 else 1 + Since(h, user)
    ensures Seen(h + [e], user) <==> Seen(h, user) || e.user == user
  {
    assert (h + [e])[..|h|] == h;
    if Seen(h, user) {
      var i :| 0 <= i < |h| && h[i].user == user;
      assert (h + [e])[i].user == user;
    }
    assert (h + [e])[|h|] == e;
    if Seen(h + [e], user) && e.user != user {
      var i :| 0 <= i < |h + [e]| && (h + [e])[i].user == user;
      assert h[i].user == user;
    }
  }

  /** What the table of accepts knows about the admissions: an entry with `n` newer entries has at least
      `n` newer admissions, its time is no earlier than the admission itself, and a user who was
      admitted but is no longer tracked has at least 1000 newer admissions. */
  ghost predicate Remembers(h: seq<Entry>, a: seq<Entry>) {
    && OneEntryEach(a) && |a| <= MAX_TRACKED_USERS
    && (forall p :: 0 <= p < |a| ==> Knows(h, a, p))
    && (forall u :: Seen(h, u) && !Tracked(a, u) ==> Since(h, u) >= MAX_TRACKED_USERS)
  }

  ghost predicate Knows(h: seq<Entry>, a: seq<Entry>, p: nat)
    requires p < |a|
  {
    && Seen(h, a[p].user) && a[p].time > 0.0
    && Since(h, a[p].user) >= |a| - 1 - p
    && 0 <= LastIndex(h, a[p].user) < |h|
    && h[LastIndex(h, a[p].user)].time <= a[p].time
  }

  /** The table after the user is moved to the newest end, before eviction. */
  function Moved(a: seq<Entry>, e: Entry): seq<Entry> {
    Forget(a, e.user) + [e]
  }

  /** The moved table is the old one without the user's entry, then the new entry. */
  lemma MovedIs(a: seq<Entry>, e: Entry) returns (q: nat)
    requires OneEntryEach(a)
    ensures q <= |a| && (q < |a| <==> Tracked(a, e.user)) && (q < |a| ==> a[q].user == e.user)
    ensures Moved(a, e) == if q < |a| then a[..q] + a[q + 1..] + [e] else a + [e]
  {
    if Tracked(a, e.user) {
      q :| 0 <= q < |a| && a[q].user == e.user;
      ForgetAt(a, q);
    } else {
      q := |a|;
      TimeOfUntracked(a, e.user);
    }
  }

  /** Where an older entry of the moved table stood before. */
  lemma MovedFrom(a: seq<Entry>, e: Entry, p: nat)
    requires OneEntryEach(a) && p < |Moved(a, e)| - 1
    ensures exists q :: 0 <= q < |a| && a[q] == Moved(a, e)[p] && a[q].user != e.user && |a| - q + 1 >= |Moved(a, e)| - p
  {
    var q := MovedIs(a, e);
    hide Moved, Tracked;
    var r := if p < q then p else p + 1;
    assert a[r] == Moved(a, e)[p] && (q < |a| ==> r != q);
    if q == |a| {
      hide OneEntryEach;
      UntrackedAt(a, e.user, r);
    }
  }

  lemma UntrackedAt(a: seq<Entry>, user: User, r: nat)
    requires !Tracked(a, user) && r < |a|
    ensures a[r].user != user
  {
  }

  lemma MovedOneEntryEach(a: seq<Entry>, e: Entry)
    requires OneEntryEach(a)
    ensures OneEntryEach(Moved(a, e))
  {
    var q := MovedIs(a, e);
    hide Moved, Tracked;
    if q < |a| {
      OmitOneEntry(a, q);
      SnocOneEntry(a[..q] + a[q + 1..], e);
    } else {
      forall r | 0 <= r < |a|
        ensures a[r].user != e.user
      {
        UntrackedAt(a, e.user, r);
      }
      SnocOneEntry(a, e);
    }
  }

  lemma OmitOneEntry(a: seq<Entry>, q: nat)
    requires OneEntryEach(a) && q < |a|
    ensures var b := a[..q] + a[q + 1..]; OneEntryEach(b) && forall i :: 0 <= i < |b| ==> b[i].user != a[q].user
  {
    var b := a[..q] + a[q + 1..];
    assert forall i :: 0 <= i < |b| ==> b[i] == a[if i < q then i else i + 1];
  }

  lemma SnocOneEntry(a: seq<Entry>, e: Entry)
    requires OneEntryEach(a) && forall i :: 0 <= i < |a| ==> a[i].user != e.user
    ensures OneEntryEach(a + [e])
  {
  }

  lemma MovedShape(a: seq<Entry>, e: Entry)
    requires OneEntryEach(a)
    ensures OneEntryEach(Moved(a, e)) && |Moved(a, e)| <= |a| + 1
    ensures forall u :: Tracked(Moved(a, e), u) <==> Tracked(a, u) || u == e.user
    ensures forall p :: 0 <= p < |Moved(a, e)| - 1 ==>
              exists q :: 0 <= q < |a| && a[q] == Moved(a, e)[p] && a[q].user != e.user && |a| - q + 1 >= |Moved(a, e)| - p
  {
    var m := Moved(a, e);
    var q := MovedIs(a, e);
    MovedOneEntryEach(a, e);
    forall p | 0 <= p < |m| - 1
      ensures exists r :: 0 <= r < |a| && a[r] == m[p] && a[r].user != e.user && |a| - r + 1 >= |m| - p
    {
      MovedFrom(a, e, p);
    }
    if q < |a| {
      MovedTracks(a, e, q);
    } else {
      AppendTracks(a, e);
    }
  }

  lemma AppendTracks(a: seq<Entry>, e: Entry)
    ensures forall u :: Tracked(a + [e], u) <==> Tracked(a, u) || u == e.user
  {
    var m := a + [e];
    assert m[|a|] == e;
    forall u | Tracked(a, u)
      ensures Tracked(m, u)
    {
      var i :| 0 <= i < |a| && a[i].user == u;
      assert m[i].user == u;
    }
  }

  lemma MovedTracks(a: seq<Entry>, e: Entry, q: nat)
    requires OneEntryEach(a) && q < |a| && a[q].user == e.user && Moved(a, e) == a[..q] + a[q + 1..] + [e]
    ensures forall u :: Tracked(Moved(a, e), u) <==> Tracked(a, u)
  {
    var m := Moved(a, e);
    assert m[|m| - 1] == e;
    forall u | Tracked(a, u)
      ensures Tracked(m, u)
    {
      var i :| 0 <= i < |a| && a[i].user == u;
      assert m[if i < q then i else if i == q then |m| - 1 else i - 1].user == u;
    }
    forall u | Tracked(m, u)
      ensures Tracked(a, u)
    {
      var i :| 0 <= i < |m| && m[i].user == u;
      assert a[if i < q then i else if i == |m| - 1 then q else i + 1].user == u;
    }
  }

  lemma MovedKnows(h: seq<Entry>, a: seq<Entry>, user: User, now: real, later: real, p: nat)
    requires Remembers(h, a) && 0.0 < now <= later && p < |Moved(a, Entry(user, later))|
    ensures Knows(h + [Entry(user, now)], Moved(a, Entry(user, later)), p)
  {
    var e, m := Entry(user, now), Moved(a, Entry(user, later));
    hide Moved, Forget, Since, Seen, Tracked;
    MovedShape(a, Entry(user, later));
    MovedLast(a, Entry(user, later));
    SinceStep(h, e, m[p].user);
    if p < |m| - 1 {
      var q :| 0 <= q < |a| && a[q] == m[p] && a[q].user != user && |a| - q + 1 >= |m| - p;
      assert Knows(h, a, q);
    }
  }

  lemma MovedLast(a: seq<Entry>, e: Entry)
    ensures |Moved(a, e)| > 0 && Moved(a, e)[|Moved(a, e)| - 1] == e
  {
  }

  /** Recording an admission keeps the table's knowledge, eviction included. */
  lemma RemembersStep(h: seq<Entry>, a: seq<Entry>, user: User, now: real, later: real)
    requires Remembers(h, a) && 0.0 < now <= later
    ensures Remembers(h + [Entry(user, now)], Stamp(a, user, later))
  {
    var e, m := Entry(user, now), Moved(a, Entry(user, later));
    var g, t := h + [e], Stamp(a, user, later);
    MovedShape(a, Entry(user, later));
    EvictOne(m);
    hide Moved, Forget, Since, Seen, Evict, Tracked;
    var d := |m| - |t|;
    forall p | 0 <= p < |t|
      ensures Knows(g, t, p)
    {
      MovedKnows(h, a, user, now, later, p + d);
      assert t[p] == m[p + d];
    }
    forall u | Seen(g, u) && !Tracked(t, u)
      ensures Since(g, u) >= MAX_TRACKED_USERS
    {
      SinceStep(h, e, u);
      if Tracked(m, u) {
        EvictKeepsNewer(m, t, u);
        MovedKnows(h, a, user, now, later, 0);
      }
    }
  }

  lemma EvictKeepsNewer(m: seq<Entry>, t: seq<Entry>, u: User)
    requires Tracked(m, u) && (t == m || (|m| > 0 && t == m[1..]))
    ensures Tracked(t, u) || (t != m && m[0].user == u)
  {
    var i :| 0 <= i < |m| && m[i].user == u;
    if i > 0 && t != m {
      assert t[i - 1].user == u;
    }
  }

  // ---------------------------------------------------------------- spacing

  /** Consecutive admissions are at least `gap` apart. */
  ghost predicate Spaced(h: seq<Entry>, gap: real) {
    forall i {:trigger h[i]} :: 0 <= i < |h| - 1 ==> h[i + 1].time - h[i].time >= gap
  }

  /** n gaps, one after another. */
  function Gaps(n: nat, g: real): real {
    if n == 0 then 0.0 else Gaps(n - 1, g) + g
  }

  lemma {:induction false} GapsIs(n: nat, g: real)
    ensures Gaps(n, g) == n as real * g
  {
    if n > 0 {
      GapsIs(n - 1, g);
      OneMore((n - 1) as real, g);
    }
  }

  lemma OneMore(x: real, g: real)
    ensures (x + 1.0) * g == x * g + g
  {
  }

  lemma GapsAtLeast(n: nat, k: nat, g: real)
    requires n <= k && g >= 0.0
    ensures n as real * g <= Gaps(k, g)
  {
    GapsIs(k, g);
    assert (k as real - n as real) * g >= 0.0;
  }

  lemma {:induction false} SpacedApart(h: seq<Entry>, gap: real, i: nat, j: nat)
    requires Spaced(h, gap) && i <= j < |h|
    ensures h[j].time - h[i].time >= Gaps(j - i, gap)
    decreases j - i
  {
    if i < j {
      SpacedApart(h, gap, i, j - 1);
      assert h[j - 1 + 1].time - h[j - 1].time >= gap;
    }
  }

  /** The spacing the global setting enforces; zero or less switches it off. */
  function Gap(st: Settings): real {
    if st.globalSeconds > 0.0 then st.globalSeconds else 0.0
  }

  /** What holds at every moment of a run: `clock` is the latest reading. */
  ghost predicate Inv(st: Settings, s: State, clock: real) {
    && Remembers(s.admitted, s.engine.accepts)
    && Spaced(s.admitted, Gap(st))
    && (forall i :: 0 <= i < |s.admitted| ==> 0.0 < s.admitted[i].time <= clock)
    && s.engine.lastGlobal == (if s.admitted == [] then 0.0 else s.admitted[|s.admitted| - 1].time)
  }

  ghost predicate UserSpaced(h: seq<Entry>, gap: real) {
    forall i, j :: 0 <= i < j < |h| && h[i].user == h[j].user ==> h[j].time - h[i].time >= gap
  }

  /** A user still in the table is held back by the stored time, which is no earlier than the admission. */
  lemma TrackedIsHeld(h: seq<Entry>, a: seq<Entry>, user: User)
    requires Remembers(h, a) && Tracked(a, user)
    ensures 0 <= LastIndex(h, user) < |h| && TimeOf(a, user) > 0.0 && h[LastIndex(h, user)].time <= TimeOf(a, user)
  {
    var p :| 0 <= p < |a| && a[p].user == user;
    TimeOfTracked(a, p);
    assert Knows(h, a, p);
  }

  /** A user who was evicted has 1000 newer admissions, each a global gap apart. */
  lemma EvictedIsOld(h: seq<Entry>, a: seq<Entry>, user: User, gap: real)
    requires Remembers(h, a) && Spaced(h, gap) && gap >= 0.0 && Seen(h, user) && !Tracked(a, user)
    ensures 0 <= LastIndex(h, user) < |h| && h[|h| - 1].time - h[LastIndex(h, user)].time >= 1000.0 * gap
  {
    SinceIndex(h, user);
    hide Since, Spaced;
    var k := LastIndex(h, user);
    SpacedApart(h, gap, k, |h| - 1);
    GapsAtLeast(MAX_TRACKED_USERS, |h| - 1 - k, gap);
  }

  lemma EarlierIsEarlier(h: seq<Entry>, gap: real, i: nat, k: nat)
    requires Spaced(h, gap) && gap >= 0.0 && i <= k < |h|
    ensures h[i].time <= h[k].time
  {
    SpacedApart(h, gap, i, k);
    GapsAtLeast(0, k - i, gap);
  }

  /** An admission is at least the global gap after the one before it, and, after any admission of the
      same user, at least the per-user gap or 1001 global gaps. */
  lemma AdmissionIsSpaced(st: Settings, s: State, clock: real, cfg: BotConfig, bot: Bot, user: User, now: real, later: real, i: nat)
    requires Inv(st, s, clock) && clock <= now <= later
    requires Admit(st, cfg, s.engine, bot, user, now, later).0.Some?
    ensures s.admitted != [] ==> now - s.admitted[|s.admitted| - 1].time >= Gap(st)
    ensures i < |s.admitted| && s.admitted[i].user == user ==>
              now - s.admitted[i].time >= st.perUserSeconds || now - s.admitted[i].time >= 1001.0 * Gap(st)
  {
    hide AdmitByBot, Stamp, TimeOf, Since, Spaced, Remembers, Tracked;
    var h, a := s.admitted, s.engine.accepts;
    if i < |h| && h[i].user == user {
      SinceIndex(h, user);
      var k := LastIndex(h, user);
      EarlierIsEarlier(h, Gap(st), i, k);
      if Tracked(a, user) {
        TrackedIsHeld(h, a, user);
      } else {
        EvictedIsOld(h, a, user, Gap(st));
      }
    }
  }

  lemma SpacedSnoc(h: seq<Entry>, e: Entry, gap: real)
    requires Spaced(h, gap) && (h != [] ==> e.time - h[|h| - 1].time >= gap)
    ensures Spaced(h + [e], gap)
  {
    var g := h + [e];
    forall i | 0 <= i < |g| - 1
      ensures g[i + 1].time - g[i].time >= gap
    {
      if i + 1 < |h| {
        assert h[i + 1].time - h[i].time >= gap;
      }
    }
  }

  lemma StepKeepsInv(st: Settings, s: State, clock: real, c: Call)
    requires Inv(st, s, clock) && clock <= c.now <= c.later && 0.0 < c.now
    ensures Inv(st, Step(st, s, c), c.later)
  {
    var bot := Found(s, c);
    if Admit(st, c.cfg, s.engine, bot, c.user, c.now, c.later).0.Some? {
      AdmissionIsSpaced(st, s, clock, c.cfg, bot, c.user, c.now, c.later, 0);
      hide AdmitByBot, Stamp, TimeOf, Spaced, Remembers;
      RemembersStep(s.admitted, s.engine.accepts, c.user, c.now, c.later);
      SpacedSnoc(s.admitted, Entry(c.user, c.now), Gap(st));
    }
  }

  lemma StepKeepsUserSpacing(st: Settings, s: State, clock: real, c: Call)
    requires Inv(st, s, clock) && clock <= c.now <= c.later
    requires st.perUserSeconds <= 1001.0 * Gap(st) && UserSpaced(s.admitted, st.perUserSeconds)
    ensures UserSpaced(Step(st, s, c).admitted, st.perUserSeconds)
  {
    hide AdmitByBot, Stamp, TimeOf, Inv;
    var bot := Found(s, c);
    if Admit(st, c.cfg, s.engine, bot, c.user, c.now, c.later).0.Some? {
      forall i | 0 <= i < |s.admitted| && s.admitted[i].user == c.user
        ensures c.now - s.admitted[i].time >= st.perUserSeconds
      {
        AdmissionIsSpaced(st, s, clock, c.cfg, bot, c.user, c.now, c.later, i);
      }
    }
  }

  function Clock(calls: seq<Call>): real {
    if calls == [] then 0.0 else calls[|calls| - 1].later
  }

  lemma {:induction false} RunKeepsInv(st: Settings, calls: seq<Call>)
    requires Monotonic(calls)
    ensures Inv(st, Run(st, calls), Clock(calls))
    decreases |calls|
  {
    if calls != [] {
      hide Inv, Step;
      var rest := calls[..|calls| - 1];
      RunKeepsInv(st, rest);
      StepKeepsInv(st, Run(st, rest), Clock(rest), calls[|calls| - 1]);
    }
  }

  /** Over every run, any two admitted runs are at least the global gap apart. */
  lemma GlobalSpacing(st: Settings, calls: seq<Call>, i: nat, j: nat)
    requires Monotonic(calls) && i < j < |Run(st, calls).admitted|
    ensures Run(st, calls).admitted[j].time - Run(st, calls).admitted[i].time >= Gap(st)
  {
    RunKeepsInv(st, calls);
    hide Run, Remembers;
    var h := Run(st, calls).admitted;
    SpacedApart(h, Gap(st), i, j);
    GapsAtLeast(1, j - i, Gap(st));
  }

  /** Over every run, any two admitted runs of one user are at least the per-user gap apart, as long as
      that gap is at most 1001 global gaps: being forgotten takes 1000 later admissions. */
  lemma {:induction false} UserSpacing(st: Settings, calls: seq<Call>)
    requires Monotonic(calls) && st.perUserSeconds <= 1001.0 * Gap(st)
    ensures UserSpaced(Run(st, calls).admitted, st.perUserSeconds)
    decreases |calls|
  {
    if calls != [] {
      hide Inv, Step;
      var rest := calls[..|calls| - 1];
      UserSpacing(st, rest);
      RunKeepsInv(st, rest);
      StepKeepsUserSpacing(st, Run(st, rest), Clock(rest), calls[|calls| - 1]);
    }
  }

  // ---------------------------------------------------------------- the bound is exact

  const UNLIMITED := BotConfig(0.0, 0.0, 0.0)

  /** Users 0, 1, ..., n - 1, one global gap apart, then user 0 again. */
  function Round(n: nat, g: real): (calls: seq<Call>)
    ensures |calls| == n
  {
    if n == 0 then []
    else Round(n - 1, g) + [Call(0, UNLIMITED, n - 1, Gaps(n, g), Gaps(n, g), {})]
  }

  lemma {:induction false} RoundAt(n: nat, g: real, i: nat)
    requires i < n
    ensures Round(n, g)[i] == Call(0, UNLIMITED, i, Gaps(i + 1, g), Gaps(i + 1, g), {})
  {
    if i < n - 1 {
      RoundAt(n - 1, g, i);
    }
  }

  /** The table and history after the first `n` users. */
  function RoundEntries(n: nat, g: real): (h: seq<Entry>)
    ensures |h| == n
  {
    if n == 0 then [] else RoundEntries(n - 1, g) + [Entry(n - 1, Gaps(n, g))]
  }

  lemma {:induction false} RoundEntriesAt(n: nat, g: real, i: nat)
    requires i < n
    ensures RoundEntries(n, g)[i] == Entry(i, Gaps(i + 1, g))
  {
    if i < n - 1 {
      RoundEntriesAt(n - 1, g, i);
    }
  }

  lemma NewcomerIsUntracked(n: nat, g: real, from: nat, user: User)
    requires from <= n && (user < from || user >= n)
    ensures !Tracked(RoundEntries(n, g)[from..], user)
  {
    forall i | 0 <= i < n - from
      ensures RoundEntries(n, g)[from..][i].user != user
    {
      RoundEntriesAt(n, g, from + i);
    }
  }

  /** With no limits of its own, a bot admits any untracked user one global gap after the last accept. */
  lemma NewcomerIsAdmitted(st: Settings, e: Engine, bot: Bot, user: User, now: real)
    requires !Tracked(e.accepts, user) && (e.lastGlobal <= 0.0 || now - e.lastGlobal >= st.globalSeconds)
    ensures Admit(st, UNLIMITED, e, bot, user, now, now)
            == (Some(0.0), Engine(now, Evict(e.accepts + [Entry(user, now)])), bot.(lastRun := now))
  {
    TimeOfUntracked(e.accepts, user);
  }

  lemma NewcomerStep(st: Settings, s: State, user: User, now: real)
    requires !Tracked(s.engine.accepts, user)
    requires s.engine.lastGlobal <= 0.0 || now - s.engine.lastGlobal >= st.globalSeconds
    ensures var t := Step(st, s, Call(0, UNLIMITED, user, now, now, {}));
            && t.admitted == s.admitted + [Entry(user, now)]
            && t.engine == Engine(now, Evict(s.engine.accepts + [Entry(user, now)]))
  {
    hide Admit, Evict;
    NewcomerIsAdmitted(st, s.engine, Found(s, Call(0, UNLIMITED, user, now, now, {})), user, now);
  }

  lemma {:induction false} RoundState(st: Settings, n: nat, g: real)
    requires g >= st.globalSeconds && n <= MAX_TRACKED_USERS + 1
    ensures var s := Run(st, Round(n, g)); var h := RoundEntries(n, g);
            && s.admitted == h
            && s.engine.accepts == (if n <= MAX_TRACKED_USERS then h else h[1..])
            && s.engine.lastGlobal == Gaps(n, g)
  {
    if n > 0 {
      RoundState(st, n - 1, g);
      var h := RoundEntries(n - 1, g);
      NewcomerIsUntracked(n - 1, g, 0, n - 1);
      assert h[0..] == h;
      EvictOne(h + [Entry(n - 1, Gaps(n, g))]);
      hide Evict, Step;
      assert Round(n, g)[..n - 1] == Round(n - 1, g);
      NewcomerStep(st, Run(st, Round(n - 1, g)), n - 1, Gaps(n, g));
    }
  }

  /** The round, and then its first user again. */
  function Comeback(n: nat, g: real): (calls: seq<Call>)
    ensures |calls| == n + 1
  {
    Round(n, g) + [Call(0, UNLIMITED, 0, Gaps(n + 1, g), Gaps(n + 1, g), {})]
  }

  lemma {:induction false} GapsGrow(a: nat, b: nat, g: real)
    requires a <= b && g > 0.0
    ensures Gaps(a, g) <= Gaps(b, g)
    decreases b - a
  {
    if a < b {
      GapsGrow(a, b - 1, g);
    }
  }

  lemma ComebackIsMonotonic(n: nat, g: real)
    requires g > 0.0
    ensures Monotonic(Comeback(n, g))
  {
    var calls := Comeback(n, g);
    forall i | 0 <= i < |calls|
      ensures calls[i].now == calls[i].later == Gaps(i + 1, g) && 0.0 < calls[i].now
    {
      if i < n {
        RoundAt(n, g, i);
      }
      GapsGrow(0, i, g);
    }
    forall i, j | 0 <= i < j < |calls|
      ensures calls[i].later <= calls[j].now
    {
      GapsGrow(i + 1, j + 1, g);
    }
  }

  lemma ComebackRun(st: Settings, n: nat, g: real)
    requires g >= st.globalSeconds && n == MAX_TRACKED_USERS + 1
    ensures Run(st, Comeback(n, g)).admitted == RoundEntries(n, g) + [Entry(0, Gaps(n + 1, g))]
  {
    hide Step, Gaps, RoundEntries, Round;
    RoundState(st, n, g);
    NewcomerIsUntracked(n, g, 1, 0);
    OneGapLater(n, g);
    assert Comeback(n, g)[..n] == Round(n, g);
    NewcomerStep(st, Run(st, Round(n, g)), 0, Gaps(n + 1, g));
  }

  lemma OneGapLater(n: nat, g: real)
    ensures Gaps(n + 1, g) == Gaps(n, g) + g && Gaps(1, g) == g
  {
  }

  /** A pace the global limit admits and at which 1001 calls do not fill the per-user gap. */
  function Pace(st: Settings): real {
    if st.globalSeconds > 0.0 then st.globalSeconds else st.perUserSeconds / 1002.0
  }

  /** Beyond 1001 global gaps the per-user promise fails: after 1000 other users the first one has been
      forgotten and is admitted again too early. */
  lemma UserSpacingFails(st: Settings, n: nat)
    requires n == MAX_TRACKED_USERS + 1 && st.perUserSeconds > 1001.0 * Gap(st)
    ensures Monotonic(Comeback(n, Pace(st)))
    ensures !UserSpaced(Run(st, Comeback(n, Pace(st))).admitted, st.perUserSeconds)
  {
    var g := Pace(st);
    ComebackIsMonotonic(n, g);
    ComebackRun(st, n, g);
    RoundEntriesAt(n, g, 0);
    GapsIs(n, g);
    OneGapLater(n, g);
    hide Run, RoundEntries, Gaps;
    var h := Run(st, Comeback(n, g)).admitted;
    assert h[0] == Entry(0, Gaps(1, g)) && h[n] == Entry(0, Gaps(n + 1, g));
  }

  /** For every setting, the per-user promise holds on every run if and only if the per-user gap is at
      most 1001 global gaps. */
  lemma UserSpacingBoundIsExact(st: Settings)
    ensures (forall calls :: Monotonic(calls) ==> UserSpaced(Run(st, calls).admitted, st.perUserSeconds))
            <==> st.perUserSeconds <= 1001.0 * Gap(st)
  {
    hide Run, UserSpaced, Monotonic, Comeback;
    if st.perUserSeconds <= 1001.0 * Gap(st) {
      forall calls | Monotonic(calls)
        ensures UserSpaced(Run(st, calls).admitted, st.perUserSeconds)
      {
        UserSpacing(st, calls);
      }
    } else {
      UserSpacingFails(st, MAX_TRACKED_USERS + 1);
    }
  }
}
