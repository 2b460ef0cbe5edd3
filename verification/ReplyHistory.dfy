/** The reply limiter judged by its history: which calls were admitted, when, for whom and by which bot,
    and nothing of the limiter's own tables. */
module ReplyHistory {
  import opened Wrappers
  import opened Collections
  import opened ReplyLimiter

  // ---------------------------------------------------------------- the history of a run

  /** A call, its answer, and whether it put its user in the bot's queue. */
  datatype Record = Record(call: Call, delay: Option<real>, joined: bool)

  function Answered(st: Settings, s: State, c: Call): Record {
    var bot := Found(s, c);
    var (delay, _, b) := Admit(st, c.cfg, s.engine, bot, c.user, c.now, c.later);
    Record(c, delay, c.user in b.queued && c.user !in bot.queued)
  }

  function Log(st: Settings, calls: seq<Call>): (log: seq<Record>)
    ensures |log| == |calls|
  {
    if calls == [] then []
    else
      var rest := calls[..|calls| - 1];
      Log(st, rest) + [Answered(st, Run(st, rest), calls[|calls| - 1])]
  }

  /** The admissions a limiter looks back to: every run, every accept (stored by the second clock reading),
      the runs of one bot, and the runs one bot stamped for its per-user cooldown. */
  datatype Kind = Runs | Accepts | RunsOf(bot: BotId) | StampsOf(bot: BotId)

  predicate Counts(k: Kind, r: Record) {
    r.delay.Some? &&
    match k
    case Runs => true
    case Accepts => true
    case RunsOf(bot) => r.call.bot == bot
    case StampsOf(bot) => r.call.bot == bot && r.call.cfg.perUserCooldown > 0.0
  }

  function TimeIn(k: Kind, r: Record): real {
    if k.Accepts? then r.call.later else r.call.now
  }

  ghost predicate LastAt(k: Kind, log: seq<Record>, i: int) {
    && 0 <= i < |log| && Counts(k, log[i])
    && forall j :: i < j < |log| ==> !Counts(k, log[j])
  }

  ghost predicate LastFor(k: Kind, log: seq<Record>, user: User, i: int) {
    && 0 <= i < |log| && Counts(k, log[i]) && log[i].call.user == user
    && forall j :: i < j < |log| && Counts(k, log[j]) ==> log[j].call.user != user
  }

  /** The users with such an admission after the given moment. */
  function Newer(k: Kind, log: seq<Record>, i: int): set<User> {
    set j | 0 <= j < |log| && i < j && Counts(k, log[j]) :: log[j].call.user
  }

  /** The gap has passed since that time; a gap or a time of zero or less is none. */
  predicate Over(gap: real, last: real, now: real) {
    gap <= 0.0 || last <= 0.0 || now - last >= gap
  }

  ghost predicate Waited(gap: real, k: Kind, log: seq<Record>, now: real) {
    forall i :: LastAt(k, log, i) ==> Over(gap, TimeIn(k, log[i]), now)
  }

  /** A user's last admission binds as long as fewer than 1000 users have one after it. */
  ghost predicate UserWaited(gap: real, k: Kind, log: seq<Record>, user: User, now: real) {
    forall i :: LastFor(k, log, user, i) && |Newer(k, log, i)| < MAX_TRACKED_USERS ==> Over(gap, TimeIn(k, log[i]), now)
  }

  /** The user joined the bot's queue and no delayed run has begun for that user since. */
  ghost predicate Queued(log: seq<Record>, bot: BotId, user: User) {
    exists j :: JoinedAt(log, bot, user, j)
  }

  ghost predicate JoinedAt(log: seq<Record>, bot: BotId, user: User, j: int) {
    && 0 <= j < |log| && log[j].joined && log[j].call.bot == bot && log[j].call.user == user
    && forall k :: j < k < |log| && log[k].call.bot == bot ==> user !in log[k].call.started
  }

  /** What is left of the bot's cooldown is this. */
  ghost predicate Remains(log: seq<Record>, c: Call, rest: real) {
    exists i :: LastAt(RunsOf(c.bot), log, i) && rest == c.cfg.cooldown - (c.now - log[i].call.now)
  }

  /** The call may queue behind the cooldown: little enough is left of it, and the user is not in the queue. */
  ghost predicate MayQueue(log: seq<Record>, c: Call) {
    && (forall rest :: Remains(log, c, rest) ==> rest <= c.cfg.queueThreshold)
    && (c.user in c.started || !Queued(log, c.bot, c.user))
  }

  /** The answer is the one the history calls for. A user may join the queue and still be refused. */
  ghost predicate Decided(st: Settings, log: seq<Record>, r: Record) {
    var c := r.call;
    var open := && Waited(st.globalSeconds, Runs, log, c.now)
                && UserWaited(st.perUserSeconds, Accepts, log, c.user, c.now);
    var free := Waited(c.cfg.cooldown, RunsOf(c.bot), log, c.now);
    && (r.joined <==> open && !free && MayQueue(log, c))
    && (r.delay.Some? <==> open && (free || MayQueue(log, c))
                           && UserWaited(c.cfg.perUserCooldown, StampsOf(c.bot), log, c.user, c.now))
    && (r.delay.Some? ==> if free then r.delay.value == 0.0 else Remains(log, c, r.delay.value))
  }

  // ---------------------------------------------------------------- what the tables hold

  /** The last such time, 0 if there is none. */
  function LastTime(k: Kind, log: seq<Record>): real {
    if log == [] then 0.0
    else if Counts(k, log[|log| - 1]) then TimeIn(k, log[|log| - 1])
    else LastTime(k, log[..|log| - 1])
  }

  lemma {:induction false} LastTimeIs(k: Kind, log: seq<Record>)
    ensures (exists i :: LastAt(k, log, i) && LastTime(k, log) == TimeIn(k, log[i]))
            || (LastTime(k, log) == 0.0 && forall i :: 0 <= i < |log| ==> !Counts(k, log[i]))
  {
    if log != [] {
      var n := |log| - 1;
      if Counts(k, log[n]) {
        assert LastAt(k, log, n);
      } else {
        LastTimeIs(k, log[..n]);
        if i :| LastAt(k, log[..n], i) && LastTime(k, log[..n]) == TimeIn(k, log[..n][i]) {
          assert LastAt(k, log, i);
        }
      }
    }
  }

  lemma LastIsUnique(k: Kind, log: seq<Record>, i: int, j: int)
    requires LastAt(k, log, i) && LastAt(k, log, j)
    ensures i == j
  {
  }

  lemma WaitedIs(gap: real, k: Kind, log: seq<Record>, now: real)
    ensures Waited(gap, k, log, now) <==> Over(gap, LastTime(k, log), now)
  {
    LastTimeIs(k, log);
    hide Over, TimeIn, LastTime;
    if i :| LastAt(k, log, i) && LastTime(k, log) == TimeIn(k, log[i]) {
      forall j | LastAt(k, log, j)
        ensures j == i
      {
        LastIsUnique(k, log, i, j);
      }
    } else {
      OverNothing(gap, now);
    }
  }

  lemma OverNothing(gap: real, now: real)
    ensures Over(gap, 0.0, now)
  {
  }

  /** The bounded table the limiter keeps, as the admissions stamped it. */
  function TableOf(k: Kind, log: seq<Record>): seq<Entry> {
    if log == [] then []
    else
      var r := log[|log| - 1];
      var t := TableOf(k, log[..|log| - 1]);
      if Counts(k, r) then Stamp(t, r.call.user, TimeIn(k, r)) else t
  }

  function Users(t: seq<Entry>): set<User> {
    set i | 0 <= i < |t| :: t[i].user
  }

  /** The entry is its user's last admission, and the entries after it are the users admitted since. */
  ghost predicate Exact(k: Kind, log: seq<Record>, t: seq<Entry>, p: nat)
    requires p < |t|
  {
    exists i :: LastFor(k, log, t[p].user, i) && t[p].time == TimeIn(k, log[i]) && Newer(k, log, i) == Users(t[p + 1..])
  }

  /** A user who is not in the table has a full table of users admitted since. */
  ghost predicate Lost(k: Kind, log: seq<Record>, t: seq<Entry>, user: User) {
    forall i :: LastFor(k, log, user, i) ==> |t| == MAX_TRACKED_USERS && Users(t) <= Newer(k, log, i)
  }

  ghost predicate Mirrors(k: Kind, log: seq<Record>, t: seq<Entry>) {
    && OneEntryEach(t) && |t| <= MAX_TRACKED_USERS
    && (forall p :: 0 <= p < |t| ==> Exact(k, log, t, p))
    && (forall u :: u !in Users(t) ==> Lost(k, log, t, u))
  }

  lemma {:induction false} UsersSize(t: seq<Entry>)
    requires OneEntryEach(t)
    ensures |Users(t)| == |t|
  {
    if t != [] {
      var n := |t| - 1;
      UsersSize(t[..n]);
      assert Users(t) == Users(t[..n]) + {t[n].user};
    }
  }

  lemma UsersConcat(s: seq<Entry>, t: seq<Entry>)
    ensures Users(s + t) == Users(s) + Users(t)
  {
    var st := s + t;
    forall u | u in Users(s) + Users(t)
      ensures u in Users(st)
    {
      if u in Users(s) {
        var i :| 0 <= i < |s| && s[i].user == u;
        assert st[i].user == u;
      } else {
        var i :| 0 <= i < |t| && t[i].user == u;
        assert st[|s| + i].user == u;
      }
    }
    forall u | u in Users(st)
      ensures u in Users(s) + Users(t)
    {
      var i :| 0 <= i < |st| && st[i].user == u;
      if i < |s| {
        assert s[i].user == u;
      } else {
        assert t[i - |s|].user == u;
      }
    }
  }

  lemma LastForUnique(k: Kind, log: seq<Record>, user: User, i: int, j: int)
    requires LastFor(k, log, user, i) && LastFor(k, log, user, j)
    ensures i == j
  {
  }

  /** A record that does not count changes nothing. */
  lemma SkipKeeps(k: Kind, log: seq<Record>, r: Record, user: User, i: int)
    requires !Counts(k, r)
    ensures LastFor(k, log + [r], user, i) <==> LastFor(k, log, user, i)
    ensures Newer(k, log + [r], i) == Newer(k, log, i)
  {
    var g := log + [r];
    assert forall j :: 0 <= j < |log| ==> g[j] == log[j];
    assert forall j :: 0 <= j < |log| && i < j && Counts(k, log[j]) ==> g[j].call.user in Newer(k, g, i);
  }

  lemma CountKeeps(k: Kind, log: seq<Record>, r: Record, user: User, i: int)
    requires Counts(k, r) && i < |log|
    ensures LastFor(k, log + [r], user, i) <==> LastFor(k, log, user, i) && user != r.call.user
    ensures Newer(k, log + [r], i) == Newer(k, log, i) + {r.call.user}
    ensures LastFor(k, log + [r], user, |log|) <==> user == r.call.user
    ensures Newer(k, log + [r], |log|) == {}
  {
    var g := log + [r];
    assert forall j :: 0 <= j < |log| ==> g[j] == log[j];
    assert g[|log|] == r;
    assert r.call.user in Newer(k, g, i);
    assert forall j :: 0 <= j < |log| && i < j && Counts(k, log[j]) ==> g[j].call.user in Newer(k, g, i);
  }

  lemma UserOfOne(e: Entry)
    ensures Users([e]) == {e.user}
  {
    assert [e][0].user == e.user;
  }

  lemma UsersOfMoved(t: seq<Entry>, e: Entry)
    requires OneEntryEach(t)
    ensures Users(Moved(t, e)) == Users(t) + {e.user}
    ensures OneEntryEach(Moved(t, e)) && |t| <= |Moved(t, e)| <= |t| + 1
    ensures e.user !in Users(t) ==> |Moved(t, e)| == |t| + 1
  {
    var q := MovedIs(t, e);
    MovedOneEntryEach(t, e);
    hide Moved;
    UsersConcat(t, [e]);
    UserOfOne(e);
    if q < |t| {
      UserOfOne(t[q]);
      UsersConcat(t[..q] + t[q + 1..], [e]);
      UsersConcat(t[..q], t[q + 1..]);
      UsersConcat(t[..q], [t[q]]);
      UsersConcat(t[..q] + [t[q]], t[q + 1..]);
      assert t == t[..q] + [t[q]] + t[q + 1..];
    }
  }

  /** The users after an older entry of the moved table: those after it before, and the one moved. */
  lemma UsersAfterMoved(t: seq<Entry>, e: Entry, p: nat) returns (r: nat)
    requires OneEntryEach(t) && p < |Moved(t, e)| - 1
    ensures r < |t| && t[r] == Moved(t, e)[p] && t[r].user != e.user
    ensures Users(Moved(t, e)[p + 1..]) == Users(t[r + 1..]) + {e.user}
  {
    var q := MovedIs(t, e);
    var m := Moved(t, e);
    MovedOneEntryEach(t, e);
    MovedLast(t, e);
    hide Moved;
    r := if p < q then p else p + 1;
    UsersConcat(t[r + 1..], [e]);
    if p < q < |t| {
      var a, b := t[p + 1..q], t[q + 1..];
      assert m[p + 1..] == a + b + [e];
      UsersConcat(a + b, [e]);
      UsersConcat(a, b);
      UsersConcat(a, [t[q]]);
      UsersConcat(a + [t[q]], b);
      assert t[p + 1..] == a + [t[q]] + b;
    } else {
      assert m[p + 1..] == t[r + 1..] + [e];
    }
  }

  lemma MovedIsExact(k: Kind, log: seq<Record>, t: seq<Entry>, rec: Record, p: nat)
    requires Mirrors(k, log, t) && Counts(k, rec)
    requires p < |Moved(t, Entry(rec.call.user, TimeIn(k, rec)))|
    ensures Exact(k, log + [rec], Moved(t, Entry(rec.call.user, TimeIn(k, rec))), p)
  {
    var e := Entry(rec.call.user, TimeIn(k, rec));
    var m, g := Moved(t, e), log + [rec];
    MovedLast(t, e);
    if p == |m| - 1 {
      CountKeeps(k, log, rec, e.user, -1);
      assert Users(m[p + 1..]) == {};
      assert LastFor(k, g, m[p].user, |log|) && g[|log|] == rec;
    } else {
      var r := UsersAfterMoved(t, e, p);
      hide Moved;
      assert Exact(k, log, t, r);
      var i :| LastFor(k, log, t[r].user, i) && t[r].time == TimeIn(k, log[i]) && Newer(k, log, i) == Users(t[r + 1..]);
      CountKeeps(k, log, rec, t[r].user, i);
      hide LastFor, Newer, Users, Counts;
      assert g[i] == log[i];
    }
  }

  lemma EvictedIsLost(k: Kind, log: seq<Record>, m: seq<Entry>)
    requires |m| == MAX_TRACKED_USERS + 1 && Exact(k, log, m, 0)
    ensures Lost(k, log, m[1..], m[0].user)
  {
    var i :| LastFor(k, log, m[0].user, i) && Newer(k, log, i) == Users(m[1..]);
    forall j | LastFor(k, log, m[0].user, j)
      ensures j == i
    {
      LastForUnique(k, log, m[0].user, i, j);
    }
  }

  lemma LostStays(k: Kind, log: seq<Record>, t: seq<Entry>, rec: Record, s: seq<Entry>, user: User)
    requires Lost(k, log, t, user) && Counts(k, rec) && |t| <= MAX_TRACKED_USERS
    requires |t| == MAX_TRACKED_USERS ==> |s| == MAX_TRACKED_USERS
    requires Users(s) <= Users(t) + {rec.call.user} && user != rec.call.user
    ensures Lost(k, log + [rec], s, user)
  {
    forall i | LastFor(k, log + [rec], user, i)
      ensures |s| == MAX_TRACKED_USERS && Users(s) <= Newer(k, log + [rec], i)
    {
      assert i != |log|;
      CountKeeps(k, log, rec, user, i);
    }
  }

  /** Stamping an admission keeps the table the mirror of the history, eviction included. */
  lemma StampMirrors(k: Kind, log: seq<Record>, t: seq<Entry>, rec: Record)
    requires Mirrors(k, log, t) && Counts(k, rec)
    ensures Mirrors(k, log + [rec], Stamp(t, rec.call.user, TimeIn(k, rec)))
  {
    var e := Entry(rec.call.user, TimeIn(k, rec));
    var m, g, s := Moved(t, e), log + [rec], Stamp(t, rec.call.user, TimeIn(k, rec));
    UsersOfMoved(t, e);
    EvictOne(m);
    MovedLast(t, e);
    forall p | 0 <= p < |m|
      ensures Exact(k, g, m, p)
    {
      MovedIsExact(k, log, t, rec, p);
    }
    hide Moved, Stamp, Evict, Forget, Exact, Lost, Counts, TimeIn;
    var d := |m| - |s|;
    forall p | 0 <= p < |s|
      ensures Exact(k, g, s, p)
    {
      ExactShift(k, g, m, s, p, d);
    }
    forall u | u !in Users(s)
      ensures Lost(k, g, s, u)
    {
      LostAfterStamp(k, log, t, rec, m, s, u);
    }
  }

  lemma ExactShift(k: Kind, log: seq<Record>, m: seq<Entry>, s: seq<Entry>, p: nat, d: nat)
    requires d <= |m| && s == m[d..] && p < |s| && Exact(k, log, m, p + d)
    ensures Exact(k, log, s, p)
  {
    assert s[p + 1..] == m[p + d + 1..];
  }

  lemma LostAfterStamp(k: Kind, log: seq<Record>, t: seq<Entry>, rec: Record, m: seq<Entry>, s: seq<Entry>, user: User)
    requires Mirrors(k, log, t) && Counts(k, rec) && user !in Users(s)
    requires 0 < |m| <= MAX_TRACKED_USERS + 1 && Users(m) == Users(t) + {rec.call.user} && |t| <= |m|
    requires s == (if |m| <= MAX_TRACKED_USERS then m else m[1..])
    requires Exact(k, log + [rec], m, 0)
    requires m[|m| - 1].user == rec.call.user
    ensures Lost(k, log + [rec], s, user)
  {
    hide Exact, Lost, Counts;
    if user in Users(m) {
      UsersConcat([m[0]], m[1..]);
      assert m == [m[0]] + m[1..];
      EvictedIsLost(k, log + [rec], m);
    } else {
      UsersSub(m, s);
      LostStays(k, log, t, rec, s, user);
    }
  }

  lemma UsersSub(m: seq<Entry>, s: seq<Entry>)
    requires s == m || (|m| > 0 && s == m[1..])
    ensures Users(s) <= Users(m)
  {
    if s != m {
      UsersConcat([m[0]], m[1..]);
      assert m == [m[0]] + m[1..];
    }
  }

  lemma SkipMirrors(k: Kind, log: seq<Record>, t: seq<Entry>, rec: Record)
    requires Mirrors(k, log, t) && !Counts(k, rec)
    ensures Mirrors(k, log + [rec], t)
  {
    var g := log + [rec];
    forall p | 0 <= p < |t|
      ensures Exact(k, g, t, p)
    {
      assert Exact(k, log, t, p);
      var i :| LastFor(k, log, t[p].user, i) && t[p].time == TimeIn(k, log[i]) && Newer(k, log, i) == Users(t[p + 1..]);
      SkipKeeps(k, log, rec, t[p].user, i);
      hide LastFor, Newer, Users, Counts;
      assert g[i] == log[i];
    }
    forall u | u !in Users(t)
      ensures Lost(k, g, t, u)
    {
      assert Lost(k, log, t, u);
      forall i | LastFor(k, g, u, i)
        ensures |t| == MAX_TRACKED_USERS && Users(t) <= Newer(k, g, i)
      {
        SkipKeeps(k, log, rec, u, i);
      }
    }
  }

  lemma {:induction false} TableMirrors(k: Kind, log: seq<Record>)
    ensures Mirrors(k, log, TableOf(k, log))
  {
    if log != [] {
      var n := |log| - 1;
      TableMirrors(k, log[..n]);
      assert log == log[..n] + [log[n]];
      hide Mirrors, Stamp, Counts;
      if Counts(k, log[n]) {
        StampMirrors(k, log[..n], TableOf(k, log[..n]), log[n]);
      } else {
        SkipMirrors(k, log[..n], TableOf(k, log[..n]), log[n]);
      }
    }
  }

  /** What the table answers about a user is what the history says. */
  lemma UserWaitedIs(gap: real, k: Kind, log: seq<Record>, user: User, now: real)
    ensures UserWaited(gap, k, log, user, now) <==> Over(gap, TimeOf(TableOf(k, log), user), now)
  {
    var t := TableOf(k, log);
    TableMirrors(k, log);
    hide TableOf, TimeIn, Over;
    if user in Users(t) {
      var p :| 0 <= p < |t| && t[p].user == user;
      TimeOfTracked(t, p);
      assert Exact(k, log, t, p);
      var i :| LastFor(k, log, user, i) && t[p].time == TimeIn(k, log[i]) && Newer(k, log, i) == Users(t[p + 1..]);
      UsersSize(t[p + 1..]);
      forall j | LastFor(k, log, user, j)
        ensures j == i
      {
        LastForUnique(k, log, user, i, j);
      }
    } else {
      assert !Tracked(t, user);
      TimeOfUntracked(t, user);
      OverNothing(gap, now);
      UsersSize(t);
      assert Lost(k, log, t, user);
      forall i | LastFor(k, log, user, i)
        ensures |Newer(k, log, i)| >= MAX_TRACKED_USERS
      {
        SubsetSize(Users(t), Newer(k, log, i));
      }
    }
  }

  // ---------------------------------------------------------------- the limiter's state is its history

  /** The bot's times and table. */
  ghost predicate BotFollows(b: Bot, log: seq<Record>, bot: BotId) {
    b.lastRun == LastTime(RunsOf(bot), log) && b.cooldowns == TableOf(StampsOf(bot), log)
  }

  ghost predicate QueueFollows(b: Bot, log: seq<Record>, bot: BotId) {
    forall u :: u in b.queued <==> Queued(log, bot, u)
  }

  ghost predicate Follows(s: State, log: seq<Record>) {
    && s.engine.lastGlobal == LastTime(Runs, log) && s.engine.accepts == TableOf(Accepts, log)
    && (forall bot :: BotFollows(BotOf(s, bot), log, bot) && QueueFollows(BotOf(s, bot), log, bot))
  }

  lemma LogStep(k: Kind, log: seq<Record>, r: Record)
    ensures LastTime(k, log + [r]) == if Counts(k, r) then TimeIn(k, r) else LastTime(k, log)
    ensures TableOf(k, log + [r]) == if Counts(k, r) then Stamp(TableOf(k, log), r.call.user, TimeIn(k, r)) else TableOf(k, log)
  {
    assert (log + [r])[..|log|] == log;
  }

  lemma QueueStep(log: seq<Record>, r: Record, bot: BotId, u: User)
    ensures Queued(log + [r], bot, u) <==>
            if r.call.bot != bot then Queued(log, bot, u)
            else (r.joined && r.call.user == u) || (Queued(log, bot, u) && u !in r.call.started)
  {
    var g := log + [r];
    assert forall j :: 0 <= j < |log| ==> g[j] == log[j];
    assert g[|log|] == r;
    if Queued(g, bot, u) {
      var j :| JoinedAt(g, bot, u, j);
      assert j < |log| ==> JoinedAt(log, bot, u, j);
    }
    if Queued(log, bot, u) && (r.call.bot == bot ==> u !in r.call.started) {
      var j :| JoinedAt(log, bot, u, j);
      assert JoinedAt(g, bot, u, j);
    }
    if r.call.bot == bot && r.joined && r.call.user == u {
      assert JoinedAt(g, bot, u, |log|);
    }
  }

  /** What one call does to the state. */
  lemma StepEffect(st: Settings, s: State, c: Call)
    ensures var r, t, b := Answered(st, s, c), Step(st, s, c), BotOf(Step(st, s, c), c.bot);
            && t.engine == (if r.delay.Some? then Engine(c.now, Stamp(s.engine.accepts, c.user, c.later)) else s.engine)
            && b.lastRun == (if r.delay.Some? then c.now else BotOf(s, c.bot).lastRun)
            && b.cooldowns == (if r.delay.Some? && c.cfg.perUserCooldown > 0.0
                               then Stamp(BotOf(s, c.bot).cooldowns, c.user, c.now) else BotOf(s, c.bot).cooldowns)
            && b.queued == BotOf(s, c.bot).queued - c.started + (if r.joined then {c.user} else {})
    ensures forall bot :: bot != c.bot ==> BotOf(Step(st, s, c), bot) == BotOf(s, bot)
  {
    hide Stamp, TimeOf;
  }

  lemma StepFollows(st: Settings, s: State, log: seq<Record>, c: Call)
    requires Follows(s, log)
    ensures Follows(Step(st, s, c), log + [Answered(st, s, c)])
  {
    var r, t := Answered(st, s, c), Step(st, s, c);
    StepEffect(st, s, c);
    LogStep(Runs, log, r);
    LogStep(Accepts, log, r);
    hide Step, Answered, Stamp, TableOf, LastTime, Queued, BotOf;
    assert r.call == c by { AnswersCall(st, s, c); }
    forall bot
      ensures BotFollows(BotOf(t, bot), log + [r], bot) && QueueFollows(BotOf(t, bot), log + [r], bot)
    {
      LogStep(RunsOf(bot), log, r);
      LogStep(StampsOf(bot), log, r);
      forall u
        ensures u in BotOf(t, bot).queued <==> Queued(log + [r], bot, u)
      {
        QueueStep(log, r, bot, u);
        assert QueueFollows(BotOf(s, bot), log, bot);
      }
      assert BotFollows(BotOf(s, bot), log, bot);
    }
  }

  lemma AnswersCall(st: Settings, s: State, c: Call)
    ensures Answered(st, s, c).call == c
  {
  }

  lemma FreshFollows()
    ensures Follows(FRESH, [])
  {
  }

  lemma {:induction false} RunFollows(st: Settings, calls: seq<Call>)
    ensures Follows(Run(st, calls), Log(st, calls))
  {
    if calls == [] {
      FreshFollows();
    } else {
      hide Follows, Step, Answered;
      var rest := calls[..|calls| - 1];
      RunFollows(st, rest);
      StepFollows(st, Run(st, rest), Log(st, rest), calls[|calls| - 1]);
    }
  }

  // ---------------------------------------------------------------- what the history decides

  lemma RemainsIs(log: seq<Record>, c: Call, rest: real)
    requires LastTime(RunsOf(c.bot), log) > 0.0
    ensures Remains(log, c, rest) <==> rest == c.cfg.cooldown - (c.now - LastTime(RunsOf(c.bot), log))
  {
    var k := RunsOf(c.bot);
    LastTimeIs(k, log);
    hide LastTime;
    var i :| LastAt(k, log, i) && LastTime(k, log) == TimeIn(k, log[i]);
    if Remains(log, c, rest) {
      var j :| LastAt(k, log, j) && rest == c.cfg.cooldown - (c.now - log[j].call.now);
      LastIsUnique(k, log, i, j);
    }
  }

  /** The conditions, read off the state. */
  lemma ConditionsAre(st: Settings, s: State, log: seq<Record>, c: Call)
    requires Follows(s, log)
    ensures Waited(st.globalSeconds, Runs, log, c.now) <==> Over(st.globalSeconds, s.engine.lastGlobal, c.now)
    ensures UserWaited(st.perUserSeconds, Accepts, log, c.user, c.now)
            <==> Over(st.perUserSeconds, TimeOf(s.engine.accepts, c.user), c.now)
    ensures Waited(c.cfg.cooldown, RunsOf(c.bot), log, c.now) <==> Over(c.cfg.cooldown, Found(s, c).lastRun, c.now)
    ensures UserWaited(c.cfg.perUserCooldown, StampsOf(c.bot), log, c.user, c.now)
            <==> Over(c.cfg.perUserCooldown, TimeOf(Found(s, c).cooldowns, c.user), c.now)
    ensures !Over(c.cfg.cooldown, Found(s, c).lastRun, c.now) ==>
              var rest := c.cfg.cooldown - (c.now - Found(s, c).lastRun);
              && Remains(log, c, rest)
              && (MayQueue(log, c) <==> rest <= c.cfg.queueThreshold && c.user !in Found(s, c).queued)
  {
    WaitedIs(st.globalSeconds, Runs, log, c.now);
    WaitedIs(c.cfg.cooldown, RunsOf(c.bot), log, c.now);
    UserWaitedIs(st.perUserSeconds, Accepts, log, c.user, c.now);
    UserWaitedIs(c.cfg.perUserCooldown, StampsOf(c.bot), log, c.user, c.now);
    hide Waited, UserWaited, TimeOf, TableOf, LastTime, BotOf;
    assert BotFollows(BotOf(s, c.bot), log, c.bot) && QueueFollows(BotOf(s, c.bot), log, c.bot);
    if !Over(c.cfg.cooldown, Found(s, c).lastRun, c.now) {
      QueueIs(s, log, c);
    }
  }

  lemma QueueIs(s: State, log: seq<Record>, c: Call)
    requires BotFollows(BotOf(s, c.bot), log, c.bot) && QueueFollows(BotOf(s, c.bot), log, c.bot)
    requires Found(s, c).lastRun > 0.0
    ensures var rest := c.cfg.cooldown - (c.now - Found(s, c).lastRun);
            && Remains(log, c, rest)
            && (MayQueue(log, c) <==> rest <= c.cfg.queueThreshold && c.user !in Found(s, c).queued)
  {
    hide Queued, LastTime, TableOf;
    forall rest
      ensures Remains(log, c, rest) <==> rest == c.cfg.cooldown - (c.now - Found(s, c).lastRun)
    {
      RemainsIs(log, c, rest);
    }
  }

  lemma StepIsDecided(st: Settings, s: State, log: seq<Record>, c: Call)
    requires Follows(s, log)
    ensures Decided(st, log, Answered(st, s, c))
  {
    ConditionsAre(st, s, log, c);
    hide Follows, Waited, UserWaited, TimeOf, MayQueue, Remains, Stamp, Found;
  }

  lemma {:induction false} LogPrefix(st: Settings, calls: seq<Call>, j: nat)
    requires j <= |calls|
    ensures Log(st, calls)[..j] == Log(st, calls[..j])
    decreases |calls|
  {
    if j < |calls| {
      var rest := calls[..|calls| - 1];
      LogPrefix(st, rest, j);
      assert rest[..j] == calls[..j];
      assert Log(st, calls)[..j] == Log(st, rest)[..j];
    } else {
      assert calls[..j] == calls;
    }
  }

  lemma LogAt(st: Settings, calls: seq<Call>, j: nat)
    requires j < |calls|
    ensures Log(st, calls)[j] == Answered(st, Run(st, calls[..j]), calls[j]) && Log(st, calls)[j].call == calls[j]
  {
    LogPrefix(st, calls, j + 1);
    var front := calls[..j + 1];
    assert front[..j] == calls[..j];
    assert Log(st, calls)[j] == Log(st, calls)[..j + 1][j];
  }

  /** Over every run, the answer to every call is the one its history calls for: it is admitted if and only
      if the global gap, the user's gap, the bot's cooldown or its queue, and the bot's gap for that user
      have each been waited for, measured from the last such admission; the delay is the rest of the
      cooldown; and it joins the queue exactly when it has to wait and may. */
  lemma EveryAnswerIsDecided(st: Settings, calls: seq<Call>, j: nat)
    requires j < |calls|
    ensures Log(st, calls)[j].call == calls[j]
    ensures Decided(st, Log(st, calls)[..j], Log(st, calls)[j])
  {
    hide Decided, Answered, Follows;
    LogAt(st, calls, j);
    LogPrefix(st, calls, j);
    RunFollows(st, calls[..j]);
    StepIsDecided(st, Run(st, calls[..j]), Log(st, calls[..j]), calls[j]);
  }

  lemma {:induction false} LastForExists(k: Kind, log: seq<Record>, user: User, i: int) returns (l: int)
    requires 0 <= i < |log| && Counts(k, log[i]) && log[i].call.user == user
    ensures i <= l && LastFor(k, log, user, l)
    decreases |log| - i
  {
    if j :| i < j < |log| && Counts(k, log[j]) && log[j].call.user == user {
      l := LastForExists(k, log, user, j);
    } else {
      l := i;
    }
  }

  /** Over every run, an admission comes a bot's own per-user gap after any admission that bot stamped for
      the same user, unless the bot has stamped at least 1000 other users in between. */
  lemma BotUserSpacing(st: Settings, calls: seq<Call>, i: nat, j: nat)
    requires Monotonic(calls) && i < j < |calls|
    requires var log := Log(st, calls);
             && log[i].delay.Some? && log[j].delay.Some? && calls[i].cfg.perUserCooldown > 0.0
             && calls[i].bot == calls[j].bot && calls[i].user == calls[j].user
    ensures || calls[j].now - calls[i].now >= calls[j].cfg.perUserCooldown
            || |Newer(StampsOf(calls[i].bot), Log(st, calls)[..j], i) - {calls[i].user}| >= MAX_TRACKED_USERS
  {
    var log, user := Log(st, calls)[..j], calls[i].user;
    var k := StampsOf(calls[i].bot);
    EveryAnswerIsDecided(st, calls, j);
    LogAt(st, calls, i);
    hide Log, Answered;
    assert log[i] == Log(st, calls)[i];
    var l := LastForExists(k, log, user, i);
    LogAt(st, calls, l);
    assert log[l] == Log(st, calls)[l] && log[l].call == calls[l];
    NewerShrinks(k, log, i, l, user);
    if |Newer(k, log, l)| < MAX_TRACKED_USERS {
      assert Over(calls[j].cfg.perUserCooldown, calls[l].now, calls[j].now);
    }
  }

  lemma NewerShrinks(k: Kind, log: seq<Record>, i: int, l: int, user: User)
    requires i <= l && LastFor(k, log, user, l)
    ensures |Newer(k, log, l)| <= |Newer(k, log, i) - {user}|
  {
    SubsetSize(Newer(k, log, l), Newer(k, log, i) - {user});
  }
}
