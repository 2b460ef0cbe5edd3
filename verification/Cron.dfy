/** Cron schedules: `CronSchedule.matches` and the skipping search `next_fire`, on naive local
    date-times compared field by field as Python compares them. */
module Cron {

  const MAX_YEAR: int := 9999
  const HORIZON_DAYS: nat := 4 * 366

  // ---------------------------------------------------------------- calendar

  datatype DateTime = DateTime(year: int, month: int, day: int, hour: int, minute: int, second: int, micro: int)

  predicate Leap(year: int) {
    year % 4 == 0 && (year % 100 != 0 || year % 400 == 0)
  }

  function DaysInMonth(year: int, month: int): int {
    if month == 2 then (if Leap(year) then 29 else 28)
    else if month == 4 || month == 6 || month == 9 || month == 11 then 30
    else 31
  }

  /** A date-time of the calendar, with no upper bound on the year. */
  predicate Proper(t: DateTime) {
    && 1 <= t.year && 1 <= t.month <= 12 && 1 <= t.day <= DaysInMonth(t.year, t.month)
    && 0 <= t.hour < 24 && 0 <= t.minute < 60 && 0 <= t.second < 60 && 0 <= t.micro < 1000000
  }

  predicate WholeMinute(t: DateTime) {
    t.second == 0 && t.micro == 0
  }

  predicate Before(a: DateTime, b: DateTime) {
    || a.year < b.year
    || (a.year == b.year
        && (|| a.month < b.month
            || (a.month == b.month
                && (|| a.day < b.day
                    || (a.day == b.day
                        && (|| a.hour < b.hour
                            || (a.hour == b.hour
                                && (|| a.minute < b.minute
                                    || (a.minute == b.minute
                                        && (a.second < b.second || (a.second == b.second && a.micro < b.micro)))))))))))
  }

  predicate NotAfter(a: DateTime, b: DateTime) {
    a == b || Before(a, b)
  }

  function NextDay(t: DateTime): DateTime {
    if t.day < DaysInMonth(t.year, t.month) then t.(day := t.day + 1)
    else if t.month < 12 then t.(month := t.month + 1, day := 1)
    else t.(year := t.year + 1, month := 1, day := 1)
  }

  function NextHour(t: DateTime): DateTime {
    if t.hour < 23 then t.(hour := t.hour + 1) else NextDay(t).(hour := 0)
  }

  function NextMinute(t: DateTime): DateTime {
    if t.minute < 59 then t.(minute := t.minute + 1) else NextHour(t).(minute := 0)
  }

  function NextMonthStart(t: DateTime): DateTime {
    if t.month == 12 then t.(year := t.year + 1, month := 1, day := 1, hour := 0, minute := 0)
    else t.(month := t.month + 1, day := 1, hour := 0, minute := 0)
  }

  /** The proleptic day number, as `date.toordinal` computes it. */
  function DaysBeforeYear(year: int): int {
    365 * (year - 1) + (year - 1) / 4 - (year - 1) / 100 + (year - 1) / 400
  }

  function DaysBeforeMonth(year: int, month: int): int
    requires 1 <= month <= 12
  {
    if month == 1 then 0 else DaysBeforeMonth(year, month - 1) + DaysInMonth(year, month - 1)
  }

  function Ordinal(t: DateTime): int
    requires 1 <= t.month <= 12
  {
    DaysBeforeYear(t.year) + DaysBeforeMonth(t.year, t.month) + t.day
  }

  /** 0 is Monday. */
  function Weekday(t: DateTime): int
    requires 1 <= t.month <= 12
  {
    (Ordinal(t) + 6) % 7
  }

  lemma YearLength(year: int)
    ensures DaysBeforeYear(year + 1) == DaysBeforeYear(year) + (if Leap(year) then 366 else 365)
  {
    Every4(year);
    Every100(year);
    Every400(year);
    Multiples(year);
  }

  lemma Multiples(year: int)
    ensures year % 400 == 0 ==> year % 100 == 0
    ensures year % 100 == 0 ==> year % 4 == 0
  {
  }

  lemma Every4(n: int)
    ensures n / 4 == (n - 1) / 4 + (if n % 4 == 0 then 1 else 0)
  {
  }

  lemma Every100(n: int)
    ensures n / 100 == (n - 1) / 100 + (if n % 100 == 0 then 1 else 0)
  {
  }

  lemma Every400(n: int)
    ensures n / 400 == (n - 1) / 400 + (if n % 400 == 0 then 1 else 0)
  {
  }

  lemma MonthsFillYear(year: int)
    ensures DaysBeforeMonth(year, 12) + DaysInMonth(year, 12) == if Leap(year) then 366 else 365
  {
    assert DaysBeforeMonth(year, 2) == 31;
    assert DaysBeforeMonth(year, 3) == 31 + DaysInMonth(year, 2);
    assert DaysBeforeMonth(year, 5) == 92 + DaysInMonth(year, 2);
    assert DaysBeforeMonth(year, 7) == 153 + DaysInMonth(year, 2);
    assert DaysBeforeMonth(year, 9) == 215 + DaysInMonth(year, 2);
    assert DaysBeforeMonth(year, 11) == 276 + DaysInMonth(year, 2);
  }

  /** Stepping through the calendar is adding one to the day number, so the weekday moves by one. */
  lemma NextDayOrdinal(t: DateTime)
    requires Proper(t)
    ensures Proper(NextDay(t)) && Ordinal(NextDay(t)) == Ordinal(t) + 1
    ensures Weekday(NextDay(t)) == (Weekday(t) + 1) % 7
  {
    hide DaysBeforeYear;
    if t.day >= DaysInMonth(t.year, t.month) && t.month == 12 {
      YearLength(t.year);
      MonthsFillYear(t.year);
    }
  }

  predicate EarlierDate(a: DateTime, b: DateTime) {
    a.year < b.year || (a.year == b.year && (a.month < b.month || (a.month == b.month && a.day < b.day)))
  }

  /** Day numbers order dates exactly as their fields do, so a day number names one date. */
  lemma {:induction false} OrdinalOrders(a: DateTime, b: DateTime)
    requires Proper(a) && Proper(b) && EarlierDate(a, b)
    ensures Ordinal(a) < Ordinal(b)
    decreases b.year - a.year, 12 - a.month, 31 - a.day
  {
    NextDayOrdinal(a);
    hide DaysBeforeYear, DaysBeforeMonth;
    if EarlierDate(NextDay(a), b) {
      OrdinalOrders(NextDay(a), b);
    }
  }

  /** Month by month, for every year. */
  lemma MonthsAre(year: int, month: int)
    requires 1 <= month <= 12
    ensures var february := if year % 400 == 0 || (year % 4 == 0 && year % 100 != 0) then 29 else 28;
            DaysInMonth(year, month) == [31, february, 31, 30, 31, 30, 31, 31, 30, 31, 30, 31][month - 1]
  {
  }

  /** Monday is 0: the first day of the year 2000 was a Saturday, and every day's weekday follows the one before. */
  lemma WeekdaysRun(t: DateTime)
    requires Proper(t)
    ensures t.year == 2000 && t.month == 1 && t.day == 1 ==> Weekday(t) == 5
    ensures Weekday(NextDay(t)) == (Weekday(t) + 1) % 7
  {
    NextDayOrdinal(t);
  }

  lemma HorizonIsUnique(after: DateTime, p: DateTime, q: DateTime)
    requires IsHorizon(after, p) && IsHorizon(after, q)
    ensures p == q
  {
    hide Ordinal;
    if EarlierDate(p, q) {
      OrdinalOrders(p, q);
    } else if EarlierDate(q, p) {
      OrdinalOrders(q, p);
    }
  }

  // ---------------------------------------------------------------- schedules

  datatype Schedule = Schedule(
    minutes: set<int>, hours: set<int>, daysOfMonth: set<int>, months: set<int>, daysOfWeek: set<int>,
    domRestricted: bool, dowRestricted: bool)

  predicate DayMatches(s: Schedule, t: DateTime)
    requires 1 <= t.month <= 12
  {
    var dom := t.day in s.daysOfMonth;
    var dow := Weekday(t) in s.daysOfWeek;
    if s.domRestricted && s.dowRestricted then dom || dow else dom && dow
  }

  predicate Matches(s: Schedule, t: DateTime)
    requires 1 <= t.month <= 12
  {
    t.minute in s.minutes && t.hour in s.hours && t.month in s.months && DayMatches(s, t)
  }

  /** A candidate firing time: a whole minute of the calendar strictly after `after`. */
  predicate Candidate(after: DateTime, x: DateTime) {
    Proper(x) && WholeMinute(x) && Before(after, x)
  }

  datatype Fire = At(when: DateTime) | Never | Overflow

  // ---------------------------------------------------------------- nothing is skipped

  /** No whole minute lies strictly between a minute and the next. */
  lemma NextMinuteIsNext(t: DateTime, x: DateTime)
    requires Proper(t) && Proper(x) && WholeMinute(x)
    ensures var m := NextMinute(t.(second := 0, micro := 0));
            Proper(m) && WholeMinute(m) && (Before(t, x) <==> NotAfter(m, x))
  {
  }

  lemma MonthSkip(t: DateTime, x: DateTime)
    requires Proper(t) && Proper(x) && WholeMinute(t) && NotAfter(t, x) && Before(x, NextMonthStart(t))
    ensures x.month == t.month
  {
  }

  lemma DaySkip(t: DateTime, x: DateTime)
    requires Proper(t) && Proper(x) && WholeMinute(t)
    requires NotAfter(t, x) && Before(x, NextDay(t).(hour := 0, minute := 0))
    ensures x.year == t.year && x.month == t.month && x.day == t.day
  {
  }

  lemma HourSkip(t: DateTime, x: DateTime)
    requires Proper(t) && Proper(x) && WholeMinute(t)
    requires NotAfter(t, x) && Before(x, NextHour(t).(minute := 0))
    ensures x.hour == t.hour
  {
  }

  lemma MinuteSkip(t: DateTime, x: DateTime)
    requires Proper(t) && Proper(x) && WholeMinute(t) && WholeMinute(x)
    requires NotAfter(t, x) && Before(x, NextMinute(t))
    ensures x == t
  {
  }

  /** Where the search goes from a minute that does not match. */
  function Jump(s: Schedule, t: DateTime): DateTime
    requires 1 <= t.month <= 12
  {
    if t.month !in s.months then NextMonthStart(t)
    else if !DayMatches(s, t) then NextDay(t).(hour := 0, minute := 0)
    else if t.hour !in s.hours then NextHour(t).(minute := 0)
    else NextMinute(t)
  }

  lemma JumpAdvances(s: Schedule, t: DateTime)
    requires Proper(t) && WholeMinute(t)
    ensures Proper(Jump(s, t)) && WholeMinute(Jump(s, t)) && Before(t, Jump(s, t))
    ensures Jump(s, t).year > t.year ==> t.month == 12
  {
    hide DayMatches;
  }

  /** A jump never passes over a matching minute. */
  lemma JumpSkipsNothing(s: Schedule, t: DateTime, x: DateTime)
    requires Proper(t) && WholeMinute(t) && !Matches(s, t)
    requires Proper(x) && WholeMinute(x) && NotAfter(t, x) && Before(x, Jump(s, t))
    ensures !Matches(s, x)
  {
    hide Before, NotAfter, NextMonthStart, NextDay, NextHour, NextMinute, Weekday;
    if t.month !in s.months {
      MonthSkip(t, x);
    } else if !DayMatches(s, t) {
      DaySkip(t, x);
      SameDaySameVerdict(s, t, x);
    } else if t.hour !in s.hours {
      HourSkip(t, x);
    } else {
      MinuteSkip(t, x);
    }
  }

  lemma SameDaySameVerdict(s: Schedule, t: DateTime, x: DateTime)
    requires 1 <= t.month <= 12 && x.year == t.year && x.month == t.month && x.day == t.day
    ensures DayMatches(s, x) == DayMatches(s, t)
  {
  }

  lemma BeforeTotal(a: DateTime, b: DateTime)
    ensures Before(a, b) || NotAfter(b, a)
    ensures !(Before(a, b) && NotAfter(b, a))
  {
  }

  lemma BeforeTrans(a: DateTime, b: DateTime, c: DateTime)
    requires Before(a, b) && NotAfter(b, c)
    ensures Before(a, c)
  {
  }

  /** No firing time strictly between `after` and `t`. */
  ghost predicate NoneBefore(s: Schedule, after: DateTime, t: DateTime) {
    forall x :: Candidate(after, x) && Before(x, t) ==> !Matches(s, x)
  }

  lemma JumpKeepsNone(s: Schedule, after: DateTime, t: DateTime)
    requires Proper(t) && WholeMinute(t) && !Matches(s, t) && NoneBefore(s, after, t)
    ensures NoneBefore(s, after, Jump(s, t))
  {
    hide Before, NotAfter, Matches, Jump;
    forall x | Candidate(after, x) && Before(x, Jump(s, t))
      ensures !Matches(s, x)
    {
      CandidateIsProper(after, x);
      BeforeTotal(x, t);
      if NotAfter(t, x) {
        JumpSkipsNothing(s, t, x);
      }
    }
  }

  lemma CandidateIsProper(after: DateTime, x: DateTime)
    requires Candidate(after, x)
    ensures Proper(x) && WholeMinute(x) && 1 <= x.month <= 12
  {
  }

  lemma StartKeepsNone(s: Schedule, after: DateTime)
    requires Proper(after)
    ensures var m := NextMinute(after.(second := 0, micro := 0));
            Proper(m) && WholeMinute(m) && Before(after, m) && NoneBefore(s, after, m)
  {
    var m := NextMinute(after.(second := 0, micro := 0));
    NextMinuteIsNext(after, m);
    forall x | Candidate(after, x)
      ensures !Before(x, m)
    {
      NextMinuteIsNext(after, x);
      BeforeTotal(x, m);
    }
  }

  /** The last instant searched: 4 * 366 days on, at the same time of day. */
  ghost predicate IsHorizon(after: DateTime, limit: DateTime) {
    && Proper(limit) && 1 <= after.month <= 12 && Ordinal(limit) == Ordinal(after) + HORIZON_DAYS
    && limit.hour == after.hour && limit.minute == after.minute
    && limit.second == after.second && limit.micro == after.micro
  }

  method PlusDays(t: DateTime, n: nat) returns (r: DateTime)
    requires Proper(t)
    ensures Proper(r) && Ordinal(r) == Ordinal(t) + n
    ensures r.hour == t.hour && r.minute == t.minute && r.second == t.second && r.micro == t.micro
  {
    hide Ordinal, NextDay;
    r := t;
    for i := 0 to n
      invariant Proper(r) && Ordinal(r) == Ordinal(t) + i
      invariant r.hour == t.hour && r.minute == t.minute && r.second == t.second && r.micro == t.micro
    {
      NextDayOrdinal(r);
      NextDayKeepsTime(r);
      r := NextDay(r);
    }
  }

  lemma NextDayKeepsTime(t: DateTime)
    ensures NextDay(t).hour == t.hour && NextDay(t).minute == t.minute
    ensures NextDay(t).second == t.second && NextDay(t).micro == t.micro
  {
  }

  /** Nothing fires within the horizon. */
  ghost predicate NoneWithin(s: Schedule, after: DateTime, limit: DateTime) {
    forall x :: Candidate(after, x) && NotAfter(x, limit) ==> !Matches(s, x)
  }

  /** The jump over the horizon's last minute runs off the end of the calendar: December is skipped whole,
      or its last day, or that day's last hour, or its last minute. */
  predicate RunsOff(s: Schedule, limit: DateTime)
    requires 1 <= limit.month <= 12
  {
    && limit.year == MAX_YEAR && limit.month == 12
    && (|| 12 !in s.months
        || (limit.day == 31
            && (!DayMatches(s, limit) || (limit.hour == 23 && (23 !in s.hours || limit.minute == 59)))))
  }

  /** The jump that leaves the horizon leaves the calendar exactly then. */
  lemma LastJump(s: Schedule, t: DateTime, limit: DateTime)
    requires Proper(t) && WholeMinute(t) && Proper(limit) && limit.year <= MAX_YEAR
    requires NotAfter(t, limit) && Before(limit, Jump(s, t))
    ensures Jump(s, t).year > MAX_YEAR <==> RunsOff(s, limit)
  {
    hide Weekday, Before, NotAfter, Matches;
    if t.month !in s.months {
      SkipEnd(t, NextMonthStart(t), limit);
    } else if !DayMatches(s, t) {
      SkipEnd(t, NextDay(t).(hour := 0, minute := 0), limit);
      SameDayIn(t, limit);
      SameDaySameVerdict(s, t, limit);
    } else if t.hour !in s.hours {
      SameHourIn(t, limit);
      SameDaySameVerdict(s, t, limit);
    } else {
      SameMinuteIn(t, limit);
      SameDaySameVerdict(s, t, limit);
    }
  }

  lemma SkipEnd(t: DateTime, next: DateTime, limit: DateTime)
    requires Proper(t) && WholeMinute(t) && Proper(limit) && NotAfter(t, limit) && Before(limit, next)
    requires next == NextMonthStart(t) || next == NextDay(t).(hour := 0, minute := 0)
    ensures limit.year == t.year && limit.month == t.month
  {
  }

  lemma SameDayIn(t: DateTime, limit: DateTime)
    requires Proper(t) && WholeMinute(t) && Proper(limit)
    requires NotAfter(t, limit) && Before(limit, NextDay(t).(hour := 0, minute := 0))
    ensures limit.year == t.year && limit.month == t.month && limit.day == t.day
  {
  }

  lemma SameHourIn(t: DateTime, limit: DateTime)
    requires Proper(t) && WholeMinute(t) && Proper(limit)
    requires NotAfter(t, limit) && Before(limit, NextHour(t).(minute := 0))
    ensures limit.year == t.year && limit.month == t.month && limit.day == t.day && limit.hour == t.hour
  {
  }

  lemma SameMinuteIn(t: DateTime, limit: DateTime)
    requires Proper(t) && WholeMinute(t) && Proper(limit)
    requires NotAfter(t, limit) && Before(limit, NextMinute(t))
    ensures limit.year == t.year && limit.month == t.month && limit.day == t.day
    ensures limit.hour == t.hour && limit.minute == t.minute
  {
  }

  lemma StartIsNear(after: DateTime, limit: DateTime)
    requires Proper(after) && IsHorizon(after, limit)
    ensures NotAfter(NextMinute(after.(second := 0, micro := 0)), limit)
  {
    var m := NextMinute(after.(second := 0, micro := 0));
    NextMinuteIsNext(after, m);
    NextDayOrdinal(after);
    SameDate(after, m);
    hide NextMinute;
    assert Ordinal(m) <= Ordinal(after) + 1;
    if EarlierDate(limit, m) {
      OrdinalOrders(limit, m);
    }
    hide Ordinal;
    assert EarlierDate(m, limit);
  }

  lemma SameDate(after: DateTime, m: DateTime)
    requires Proper(after) && m == NextMinute(after.(second := 0, micro := 0))
    ensures Ordinal(m) == Ordinal(after) || Ordinal(m) == Ordinal(NextDay(after))
  {
  }

  /** What is left of the window once the search has passed it. */
  lemma PassedWindow(s: Schedule, after: DateTime, limit: DateTime, next: DateTime)
    requires NoneBefore(s, after, next) && Before(limit, next)
    ensures NoneWithin(s, after, limit)
  {
    hide Before, NotAfter, Matches;
    forall x | Candidate(after, x) && NotAfter(x, limit)
      ensures !Matches(s, x)
    {
      NotAfterBefore(x, limit, next);
    }
  }

  lemma NotAfterBefore(a: DateTime, b: DateTime, c: DateTime)
    requires NotAfter(a, b) && Before(b, c)
    ensures Before(a, c)
  {
  }

  /** The whole meaning of the search: the first matching whole minute strictly after `after`, if there is
      one within the horizon; otherwise an error exactly when the horizon ends past the year 9999, or the
      last jump would; otherwise none. */
  ghost predicate Answers(s: Schedule, after: DateTime, limit: DateTime, r: Fire)
    requires 1 <= limit.month <= 12
  {
    match r
    case At(when) =>
      && limit.year <= MAX_YEAR && Candidate(after, when) && NotAfter(when, limit) && Matches(s, when)
      && forall x :: Candidate(after, x) && Before(x, when) ==> !Matches(s, x)
    case Overflow => limit.year > MAX_YEAR || (NoneWithin(s, after, limit) && RunsOff(s, limit))
    case Never => limit.year <= MAX_YEAR && NoneWithin(s, after, limit) && !RunsOff(s, limit)
  }

  method NextFire(s: Schedule, after: DateTime) returns (r: Fire)
    requires Proper(after)
    ensures exists limit :: IsHorizon(after, limit) && Answers(s, after, limit, r)
  {
    hide Ordinal, RunsOff, Candidate, Matches, NoneBefore, Answers;
    var moment := NextMinute(after.(second := 0, micro := 0));
    var bound := PlusDays(after, HORIZON_DAYS);
    assert IsHorizon(after, bound);
    if bound.year > MAX_YEAR {
      TooFar(s, after, bound);
      return Overflow;
    }
    StartKeepsNone(s, after);
    StartIsNear(after, bound);
    r := SearchFrom(s, after, moment, bound);
  }

  lemma TooFar(s: Schedule, after: DateTime, limit: DateTime)
    requires 1 <= limit.month <= 12 && limit.year > MAX_YEAR
    ensures Answers(s, after, limit, Overflow)
  {
  }

  /** The search loop, from its first minute. */
  method SearchFrom(s: Schedule, after: DateTime, start: DateTime, bound: DateTime) returns (r: Fire)
    requires Proper(bound) && bound.year <= MAX_YEAR && Proper(start) && WholeMinute(start) && Before(after, start)
    requires NoneBefore(s, after, start) && NotAfter(start, bound)
    ensures Answers(s, after, bound, r)
  {
    hide DayMatches, NoneBefore, NoneWithin, RunsOff;
    var moment := start;
    while NotAfter(moment, bound)
      invariant Proper(moment) && WholeMinute(moment) && Before(after, moment) && NoneBefore(s, after, moment)
      invariant NotAfter(moment, bound) || (NoneWithin(s, after, bound) && !RunsOff(s, bound))
      decreases bound.year - moment.year, 12 - moment.month, 31 - moment.day, 23 - moment.hour, 59 - moment.minute
    {
      var next;
      if moment.month !in s.months {
        if moment.month == 12 {
          next := moment.(year := moment.year + 1, month := 1, day := 1, hour := 0, minute := 0);
        } else {
          next := moment.(month := moment.month + 1, day := 1, hour := 0, minute := 0);
        }
      } else if !DayMatches(s, moment) {
        next := NextDay(moment).(hour := 0, minute := 0);
      } else if moment.hour !in s.hours {
        next := NextHour(moment).(minute := 0);
      } else if moment.minute !in s.minutes {
        next := NextMinute(moment);
      } else {
        NoneBeforeIs(s, after, moment);
        return At(moment);
      }
      assert next == Jump(s, moment) && !Matches(s, moment);
      AfterJump(s, after, moment, bound);
      if next.year > MAX_YEAR {
        return Overflow;
      }
      moment := next;
    }
    r := Never;
  }

  lemma NoneBeforeIs(s: Schedule, after: DateTime, t: DateTime)
    requires NoneBefore(s, after, t)
    ensures forall x :: Candidate(after, x) && Before(x, t) ==> !Matches(s, x)
  {
  }

  /** What a jump leaves to be known, whether or not it stays inside the window. */
  lemma AfterJump(s: Schedule, after: DateTime, t: DateTime, bound: DateTime)
    requires Proper(bound) && bound.year <= MAX_YEAR && Proper(t) && WholeMinute(t) && Before(after, t)
    requires NoneBefore(s, after, t) && NotAfter(t, bound) && !Matches(s, t)
    ensures var next := Jump(s, t);
            && Proper(next) && WholeMinute(next) && Before(t, next) && Before(after, next) && NoneBefore(s, after, next)
            && (next.year > MAX_YEAR ==> NoneWithin(s, after, bound) && RunsOff(s, bound))
            && (next.year <= MAX_YEAR && !NotAfter(next, bound) ==> NoneWithin(s, after, bound) && !RunsOff(s, bound))
  {
    var next := Jump(s, t);
    JumpAdvances(s, t);
    JumpKeepsNone(s, after, t);
    hide Jump, NoneBefore, NoneWithin, RunsOff, Matches;
    BeforeTrans(after, t, next);
    BeforeTotal(bound, next);
    assert next.year > MAX_YEAR ==> Before(bound, next);
    hide Before, NotAfter;
    if Before(bound, next) {
      LastJump(s, t, bound);
      PassedWindow(s, after, bound, next);
    }
  }

  // ---------------------------------------------------------------- which schedules are always found

  /** The length of a month in a common year. */
  function ShortMonth(month: int): int {
    DaysInMonth(1, month)
  }

  /** Seven days in a row, from `a`, that the day field lists and every such month has. */
  predicate ListsWeek(s: Schedule, month: int, a: int) {
    1 <= a && a + 6 <= ShortMonth(month) && forall d :: a <= d <= a + 6 ==> d in s.daysOfMonth
  }

  predicate EveryWeekday(s: Schedule) {
    forall w :: 0 <= w < 7 ==> w in s.daysOfWeek
  }

  /** In this month of every year, common or leap and whatever its weekdays, some day matches: a listed day
      that every such month has, if the weekday cannot veto it, or a listed weekday, if the day cannot. */
  ghost predicate RecursIn(s: Schedule, month: int) {
    || (exists d :: d in s.daysOfMonth && 1 <= d <= ShortMonth(month)
                    && (EveryWeekday(s) || (s.domRestricted && s.dowRestricted)))
    || (exists w :: w in s.daysOfWeek && 0 <= w < 7
                    && ((s.domRestricted && s.dowRestricted) || exists a :: ListsWeek(s, month, a)))
  }

  ghost predicate Recurs(s: Schedule) {
    && (exists h :: h in s.hours && 0 <= h < 24) && (exists n :: n in s.minutes && 0 <= n < 60)
    && (exists month :: month in s.months && 1 <= month <= 12 && RecursIn(s, month))
  }

  lemma WithinYear(year: int, month: int)
    requires 1 <= month <= 12
    ensures 0 <= DaysBeforeMonth(year, month) <= DaysBeforeMonth(year, month) + DaysInMonth(year, month) <= 366
  {
    assert DaysBeforeMonth(year, 2) == 31;
    assert DaysBeforeMonth(year, 3) == 31 + DaysInMonth(year, 2);
    assert DaysBeforeMonth(year, 5) == 92 + DaysInMonth(year, 2);
    assert DaysBeforeMonth(year, 7) == 153 + DaysInMonth(year, 2);
    assert DaysBeforeMonth(year, 9) == 215 + DaysInMonth(year, 2);
    assert DaysBeforeMonth(year, 11) == 276 + DaysInMonth(year, 2);
  }

  /** Every moment of next year is inside the horizon. */
  lemma NextYearIsNear(after: DateTime, limit: DateTime, x: DateTime)
    requires Proper(after) && IsHorizon(after, limit) && Proper(x) && WholeMinute(x) && x.year == after.year + 1
    ensures Candidate(after, x) && NotAfter(x, limit)
  {
    YearLength(after.year);
    WithinYear(after.year, after.month);
    WithinYear(x.year, x.month);
    assert Ordinal(x) < Ordinal(limit);
    if EarlierDate(limit, x) {
      OrdinalOrders(limit, x);
    }
    hide Ordinal;
    assert EarlierDate(x, limit);
  }

  /** Among seven days in a row is every weekday. */
  lemma WeekHasWeekday(year: int, month: int, a: int, w: int) returns (d: int)
    requires 1 <= month <= 12 && 0 <= w < 7
    ensures a <= d <= a + 6 && Weekday(DateTime(year, month, d, 0, 0, 0, 0)) == w
  {
    var start := Ordinal(DateTime(year, month, a, 0, 0, 0, 0)) + 6;
    var k := (w - start) % 7;
    d := a + k;
    assert (start + k) % 7 == w;
  }

  lemma ShortMonthIsShort(year: int, month: int)
    ensures ShortMonth(month) <= DaysInMonth(year, month)
  {
  }

  lemma MonthHasDay(s: Schedule, year: int, month: int) returns (d: int)
    requires 1 <= month <= 12 && RecursIn(s, month)
    ensures 1 <= d <= DaysInMonth(year, month) && DayMatches(s, DateTime(year, month, d, 0, 0, 0, 0))
  {
    hide Ordinal;
    ShortMonthIsShort(year, month);
    if d0 :| d0 in s.daysOfMonth && 1 <= d0 <= ShortMonth(month)
             && (EveryWeekday(s) || (s.domRestricted && s.dowRestricted)) {
      d := d0;
      assert 0 <= Weekday(DateTime(year, month, d, 0, 0, 0, 0)) < 7;
    } else {
      var w :| w in s.daysOfWeek && 0 <= w < 7
               && ((s.domRestricted && s.dowRestricted) || exists a :: ListsWeek(s, month, a));
      if a :| ListsWeek(s, month, a) {
        d := WeekHasWeekday(year, month, a, w);
      } else {
        d := WeekHasWeekday(year, month, 1, w);
      }
    }
  }

  /** A schedule that recurs every year is found from wherever the search starts. */
  lemma RecurringIsFound(s: Schedule, after: DateTime, limit: DateTime) returns (x: DateTime)
    requires Recurs(s) && Proper(after) && IsHorizon(after, limit)
    ensures FoundWithin(s, after, limit, x)
  {
    hide Ordinal, RecursIn, NotAfter, Candidate;
    var h :| h in s.hours && 0 <= h < 24;
    var n :| n in s.minutes && 0 <= n < 60;
    var month :| month in s.months && 1 <= month <= 12 && RecursIn(s, month);
    var d := MonthHasDay(s, after.year + 1, month);
    x := DateTime(after.year + 1, month, d, h, n, 0, 0);
    SameDaySameVerdict(s, DateTime(after.year + 1, month, d, 0, 0, 0, 0), x);
    NextYearIsNear(after, limit, x);
  }

  /** One of the day fields cannot veto the other: both count, or one of them lists everything. */
  ghost predicate Unmixed(s: Schedule) {
    || (s.domRestricted && s.dowRestricted) || EveryWeekday(s)
    || (forall d :: 1 <= d <= 31 ==> d in s.daysOfMonth)
  }

  ghost predicate FoundWithin(s: Schedule, after: DateTime, limit: DateTime, x: DateTime) {
    Candidate(after, x) && NotAfter(x, limit) && Matches(s, x)
  }

  /** Wherever the search starts, there is a firing time within its horizon. */
  ghost predicate AlwaysFound(s: Schedule) {
    forall after, limit :: Proper(after) && IsHorizon(after, limit) ==> exists x :: FoundWithin(s, after, limit, x)
  }

  lemma FebruaryEndPlusHorizon(limit: DateTime)
    ensures IsHorizon(DateTime(2096, 2, 29, 23, 59, 0, 0), limit) <==> limit == DateTime(2100, 3, 4, 23, 59, 0, 0)
  {
    var start, there := DateTime(2096, 2, 29, 23, 59, 0, 0), DateTime(2100, 3, 4, 23, 59, 0, 0);
    assert DaysBeforeMonth(2096, 2) == 31 && DaysBeforeMonth(2100, 2) == 31 && DaysBeforeMonth(2100, 3) == 59;
    assert IsHorizon(start, there);
    if IsHorizon(start, limit) {
      HorizonIsUnique(start, limit, there);
    }
  }

  /** Between the last two leap days before and after 2100 no month is longer than in a common year. */
  lemma NoLeapDay(x: DateTime)
    requires Candidate(DateTime(2096, 2, 29, 23, 59, 0, 0), x) && NotAfter(x, DateTime(2100, 3, 4, 23, 59, 0, 0))
    ensures 1 <= x.day <= ShortMonth(x.month)
  {
    assert !Leap(2097) && !Leap(2098) && !Leap(2099) && !Leap(2100);
  }

  lemma MatchRecurs(s: Schedule, x: DateTime)
    requires Unmixed(s) && Proper(x) && Matches(s, x) && x.day <= ShortMonth(x.month)
    ensures Recurs(s)
  {
    hide Ordinal;
    var w := Weekday(x);
    assert 0 <= w < 7;
    if !(s.domRestricted && s.dowRestricted) && !EveryWeekday(s) {
      assert ListsWeek(s, x.month, 1);
    }
    assert RecursIn(s, x.month);
  }

  /** For schedules that do not mix the two day fields, the horizon is long enough if and only if the
      schedule matches every year; what is missed is 29 February alone. */
  lemma FoundExactly(s: Schedule)
    requires Unmixed(s)
    ensures AlwaysFound(s) <==> Recurs(s)
  {
    hide Ordinal, Recurs, Unmixed, FoundWithin;
    if Recurs(s) {
      forall after, limit | Proper(after) && IsHorizon(after, limit)
        ensures exists x :: FoundWithin(s, after, limit, x)
      {
        var x := RecurringIsFound(s, after, limit);
      }
    } else if AlwaysFound(s) {
      var start, limit := DateTime(2096, 2, 29, 23, 59, 0, 0), DateTime(2100, 3, 4, 23, 59, 0, 0);
      FebruaryEndPlusHorizon(limit);
      var x :| FoundWithin(s, start, limit, x);
      FoundRecurs(s, x);
    }
  }

  lemma FoundRecurs(s: Schedule, x: DateTime)
    requires Unmixed(s) && FoundWithin(s, DateTime(2096, 2, 29, 23, 59, 0, 0), DateTime(2100, 3, 4, 23, 59, 0, 0), x)
    ensures Recurs(s)
  {
    hide Ordinal, Recurs, Unmixed, NotAfter, Before;
    CandidateIsProper(DateTime(2096, 2, 29, 23, 59, 0, 0), x);
    NoLeapDay(x);
    MatchRecurs(s, x);
  }

  // ---------------------------------------------------------------- every schedule, by one cycle of the calendar

  predicate OnDay(s: Schedule, d: DateTime)
    requires 1 <= d.month <= 12
  {
    d.month in s.months && DayMatches(s, d)
  }

  ghost predicate HasTime(s: Schedule) {
    exists h, n :: TimeIn(s, h, n)
  }

  predicate TimeIn(s: Schedule, h: int, n: int) {
    0 <= h < 24 && 0 <= n < 60 && h in s.hours && n in s.minutes
  }

  ghost predicate MatchDay(s: Schedule, x: DateTime) {
    Proper(x) && OnDay(s, x)
  }

  /** A matching day after `d`, before the day the horizon ends on. */
  ghost predicate Inside(s: Schedule, d: DateTime, x: DateTime)
    requires 1 <= d.month <= 12
  {
    MatchDay(s, x) && Ordinal(d) < Ordinal(x) < Ordinal(d) + HORIZON_DAYS
  }

  ghost predicate AtEnd(s: Schedule, d: DateTime, x: DateTime)
    requires 1 <= d.month <= 12
  {
    MatchDay(s, x) && Ordinal(x) == Ordinal(d) + HORIZON_DAYS
  }

  /** After this day some day matches before the horizon ends; or only the day it ends on does, and then that
      is enough because this day matches too or midnight is a firing time. */
  ghost predicate Covered(s: Schedule, d: DateTime)
    requires 1 <= d.month <= 12
  {
    (exists x :: Inside(s, d, x)) || ((exists x :: AtEnd(s, d, x)) && (OnDay(s, d) || TimeIn(s, 0, 0)))
  }

  /** A condition on the 146097 days of one cycle of the calendar. */
  ghost predicate CoversCycle(s: Schedule) {
    HasTime(s) && forall d :: Proper(d) && d.year <= 400 ==> Covered(s, d)
  }

  function NextCycle(t: DateTime): DateTime {
    t.(year := t.year + 400)
  }

  lemma {:induction false} SameMonths(a: int, b: int, month: int)
    requires Leap(a) == Leap(b) && 1 <= month <= 12
    ensures DaysBeforeMonth(a, month) == DaysBeforeMonth(b, month)
    decreases month
  {
    if month > 1 {
      SameMonths(a, b, month - 1);
    }
  }

  lemma LeapRepeats(year: int)
    ensures Leap(year + 400) == Leap(year)
  {
  }

  lemma YearsRepeat(year: int)
    ensures DaysBeforeYear(year + 400) == DaysBeforeYear(year) + 146097
  {
    var y := year - 1;
    assert (y + 400) / 4 == y / 4 + 100;
    assert (y + 400) / 100 == y / 100 + 4;
    assert (y + 400) / 400 == y / 400 + 1;
  }

  lemma WeeksRepeat(n: int)
    ensures (n + 146097) % 7 == n % 7
  {
    assert 146097 == 7 * 20871;
  }

  /** The calendar repeats, weekdays and all, every 400 years. */
  lemma CycleRepeats(t: DateTime)
    requires 1 <= t.month <= 12
    ensures DaysInMonth(t.year + 400, t.month) == DaysInMonth(t.year, t.month)
    ensures Ordinal(NextCycle(t)) == Ordinal(t) + 146097 && Weekday(NextCycle(t)) == Weekday(t)
  {
    LeapRepeats(t.year);
    SameMonths(t.year + 400, t.year, t.month);
    YearsRepeat(t.year);
    WeeksRepeat(Ordinal(t) + 6);
    hide DaysBeforeYear, DaysBeforeMonth, Leap;
  }

  lemma MatchRepeats(s: Schedule, x: DateTime)
    requires MatchDay(s, x)
    ensures MatchDay(s, NextCycle(x)) && Ordinal(NextCycle(x)) == Ordinal(x) + 146097
  {
    CycleRepeats(x);
    hide Ordinal, Weekday, DaysInMonth;
  }

  lemma CoverRepeats(s: Schedule, d: DateTime)
    requires Proper(d) && Covered(s, d)
    ensures Covered(s, NextCycle(d))
  {
    CycleRepeats(d);
    hide Ordinal, Weekday, DaysInMonth;
    if x :| Inside(s, d, x) {
      MatchRepeats(s, x);
      assert Inside(s, NextCycle(d), NextCycle(x));
    } else {
      var x :| AtEnd(s, d, x);
      MatchRepeats(s, x);
      assert AtEnd(s, NextCycle(d), NextCycle(x));
    }
  }

  lemma {:induction false} EveryDayIsCovered(s: Schedule, d: DateTime)
    requires CoversCycle(s) && Proper(d)
    ensures Covered(s, d)
    decreases d.year
  {
    if d.year > 400 {
      var before := d.(year := d.year - 400);
      CycleRepeats(before);
      assert NextCycle(before) == d;
      hide Ordinal, Covered, DaysInMonth;
      EveryDayIsCovered(s, before);
      CoverRepeats(s, before);
    }
  }

  lemma OrdinalBefore(a: DateTime, b: DateTime)
    requires Proper(a) && Proper(b) && Ordinal(a) < Ordinal(b)
    ensures Before(a, b) && EarlierDate(a, b)
  {
    if EarlierDate(b, a) {
      OrdinalOrders(b, a);
    }
    hide Ordinal;
  }

  lemma OrdinalSame(a: DateTime, b: DateTime)
    requires Proper(a) && Proper(b) && Ordinal(a) == Ordinal(b)
    ensures a.year == b.year && a.month == b.month && a.day == b.day
  {
    if EarlierDate(b, a) {
      OrdinalOrders(b, a);
    } else if EarlierDate(a, b) {
      OrdinalOrders(a, b);
    }
    hide Ordinal;
  }

  lemma TimeOf(s: Schedule, x: DateTime, h: int, n: int)
    requires Proper(x) && OnDay(s, x) && TimeIn(s, h, n)
    ensures var y := x.(hour := h, minute := n, second := 0, micro := 0);
            Proper(y) && WholeMinute(y) && Matches(s, y) && Ordinal(y) == Ordinal(x)
  {
    hide Weekday;
    SameDaySameVerdict(s, x, x.(hour := h, minute := n, second := 0, micro := 0));
  }

  /** A covered day has a firing time in its window, whatever the time of day the search starts. */
  lemma CoveredIsFound(s: Schedule, after: DateTime, limit: DateTime) returns (x: DateTime)
    requires Proper(after) && IsHorizon(after, limit) && HasTime(s) && Covered(s, after)
    ensures FoundWithin(s, after, limit, x)
  {
    var h, n :| TimeIn(s, h, n);
    hide Weekday, Before;
    if y :| Inside(s, after, y) {
      TimeOf(s, y, h, n);
      x := y.(hour := h, minute := n, second := 0, micro := 0);
      OrdinalBefore(after, x);
      OrdinalBefore(x, limit);
    } else {
      var y :| AtEnd(s, after, y);
      if OnDay(s, after) && (h > after.hour || (h == after.hour && n > after.minute)) {
        TimeOf(s, after, h, n);
        x := after.(hour := h, minute := n, second := 0, micro := 0);
        OrdinalBefore(x, limit);
      } else {
        var (g, l) := if OnDay(s, after) then (h, n) else (0, 0);
        TimeOf(s, y, g, l);
        x := y.(hour := g, minute := l, second := 0, micro := 0);
        OrdinalSame(x, limit);
        OrdinalBefore(after, x);
        hide Ordinal, Matches;
        EndOfWindow(after, limit, x, g, l);
      }
    }
    hide Ordinal, Matches;
  }

  lemma EndOfWindow(after: DateTime, limit: DateTime, x: DateTime, g: int, l: int)
    requires limit.hour == after.hour && limit.minute == after.minute && 0 <= after.second && 0 <= after.micro
    requires limit.second == after.second && limit.micro == after.micro
    requires x == limit.(hour := g, minute := l, second := 0, micro := 0)
    requires g < after.hour || (g == after.hour && l <= after.minute)
    ensures NotAfter(x, limit)
  {
  }

  lemma {:induction false} DaysLater(t: DateTime, n: nat) returns (r: DateTime)
    requires Proper(t)
    ensures Proper(r) && Ordinal(r) == Ordinal(t) + n
    ensures r.hour == t.hour && r.minute == t.minute && r.second == t.second && r.micro == t.micro
    decreases n
  {
    if n == 0 {
      r := t;
    } else {
      var q := DaysLater(t, n - 1);
      hide Ordinal;
      NextDayOrdinal(q);
      NextDayKeepsTime(q);
      r := NextDay(q);
    }
  }

  /** The date of a firing time found from some time of this day. */
  lemma FoundDate(s: Schedule, after: DateTime, limit: DateTime, x: DateTime)
    requires Proper(after) && IsHorizon(after, limit) && FoundWithin(s, after, limit, x)
    ensures MatchDay(s, x) && Ordinal(after) <= Ordinal(x) <= Ordinal(limit) && TimeIn(s, x.hour, x.minute)
  {
    if EarlierDate(x, after) {
      OrdinalOrders(x, after);
    } else if EarlierDate(after, x) {
      OrdinalOrders(after, x);
    }
    if EarlierDate(limit, x) {
      OrdinalOrders(limit, x);
    } else if EarlierDate(x, limit) {
      OrdinalOrders(x, limit);
    }
    hide Weekday;
  }

  /** From the last minute of a day: some later day of the window matches. */
  lemma FoundFromEnd(s: Schedule, d: DateTime) returns (x: DateTime)
    requires AlwaysFound(s) && Proper(d)
    ensures MatchDay(s, x) && Ordinal(d) < Ordinal(x) <= Ordinal(d) + HORIZON_DAYS && HasTime(s)
  {
    var after := d.(hour := 23, minute := 59, second := 0, micro := 0);
    assert Ordinal(after) == Ordinal(d);
    var limit := DaysLater(after, HORIZON_DAYS);
    assert IsHorizon(after, limit);
    x :| FoundWithin(s, after, limit, x);
    FoundDate(s, after, limit, x);
    if Ordinal(x) == Ordinal(after) {
      OrdinalSame(x, after);
    }
  }

  /** From its first minute: if only the last day of the window matches, and this day does not, it is at
      midnight. */
  lemma FoundFromStart(s: Schedule, d: DateTime) returns (x: DateTime)
    requires AlwaysFound(s) && Proper(d) && !OnDay(s, d)
    ensures MatchDay(s, x) && Ordinal(d) < Ordinal(x) <= Ordinal(d) + HORIZON_DAYS
    ensures Ordinal(x) == Ordinal(d) + HORIZON_DAYS ==> TimeIn(s, 0, 0)
  {
    var after := d.(hour := 0, minute := 0, second := 0, micro := 0);
    assert Ordinal(after) == Ordinal(d);
    var limit := DaysLater(after, HORIZON_DAYS);
    assert IsHorizon(after, limit);
    x :| FoundWithin(s, after, limit, x);
    FoundDate(s, after, limit, x);
    if Ordinal(x) == Ordinal(after) {
      OrdinalSame(x, after);
      SameDaySameVerdict(s, x, d);
    } else if Ordinal(x) == Ordinal(limit) {
      OrdinalSame(x, limit);
    }
  }

  lemma FoundIsCovered(s: Schedule, d: DateTime)
    requires AlwaysFound(s) && Proper(d)
    ensures Covered(s, d)
  {
    hide Ordinal, AlwaysFound, OnDay;
    var x := FoundFromEnd(s, d);
    assert Inside(s, d, x) || AtEnd(s, d, x);
    if !OnDay(s, d) {
      var y := FoundFromStart(s, d);
      assert Inside(s, d, y) || AtEnd(s, d, y);
    }
  }

  /** For every schedule, the search finds a firing time wherever it starts, if and only if every day of one
      400-year cycle is covered: times of day, and every other start, need not be looked at. */
  lemma FoundByCycle(s: Schedule)
    ensures AlwaysFound(s) <==> CoversCycle(s)
  {
    hide Ordinal, Covered, FoundWithin, HasTime;
    if AlwaysFound(s) {
      forall d | Proper(d) && d.year <= 400
        ensures Covered(s, d)
      {
        FoundIsCovered(s, d);
      }
      var x := FoundFromEnd(s, DateTime(1, 1, 1, 0, 0, 0, 0));
    }
    if CoversCycle(s) {
      forall after, limit | Proper(after) && IsHorizon(after, limit)
        ensures exists x :: FoundWithin(s, after, limit, x)
      {
        EveryDayIsCovered(s, after);
        var x := CoveredIsFound(s, after, limit);
      }
    }
  }

  /** A schedule that mixes them can be missed too: the 25th of December on a Monday, after 2023, comes
      next in 2028. */
  lemma MixedFieldsCanBeMissed(limit: DateTime)
    requires IsHorizon(DateTime(2023, 12, 25, 0, 0, 0, 0), limit)
    ensures var s := Schedule({0}, {0}, {25}, {12}, {0}, true, false);
            && !Unmixed(s) && Matches(s, DateTime(2028, 12, 25, 0, 0, 0, 0))
            && forall x :: Candidate(DateTime(2023, 12, 25, 0, 0, 0, 0), x) && NotAfter(x, limit) ==> !Matches(s, x)
  {
    var s := Schedule({0}, {0}, {25}, {12}, {0}, true, false);
    ChristmasDays();
    hide Ordinal, Weekday;
    var start, there := DateTime(2023, 12, 25, 0, 0, 0, 0), DateTime(2027, 12, 28, 0, 0, 0, 0);
    HorizonIsUnique(start, limit, there);
    assert 1 !in s.daysOfWeek && 1 !in s.daysOfMonth;
    forall x | Candidate(start, x) && NotAfter(x, limit)
      ensures !Matches(s, x)
    {
      if x.month == 12 && x.day == 25 && x.year > 2023 {
        ChristmasWeekday(x);
      }
    }
  }

  lemma BeforeDecember(year: int)
    ensures DaysBeforeMonth(year, 12) == 306 + DaysInMonth(year, 2)
  {
    MonthsFillYear(year);
  }

  lemma ChristmasDays()
    ensures IsHorizon(DateTime(2023, 12, 25, 0, 0, 0, 0), DateTime(2027, 12, 28, 0, 0, 0, 0))
    ensures Weekday(DateTime(2028, 12, 25, 0, 0, 0, 0)) == 0
  {
    BeforeDecember(2023);
    BeforeDecember(2027);
    BeforeDecember(2028);
  }

  lemma ChristmasWeekday(x: DateTime)
    requires 2024 <= x.year <= 2027 && x.month == 12 && x.day == 25
    ensures Weekday(x) != 0
  {
    BeforeDecember(x.year);
  }

  /** The horizon is not long enough for every schedule that fires: across 2100, which is no leap year,
      29 February is more than 4 * 366 days away, and the search gives up on it. */
  lemma LeapDayCanBeMissed(limit: DateTime)
    requires IsHorizon(DateTime(2096, 2, 29, 23, 59, 0, 0), limit)
    ensures var s := Schedule({0}, {0}, {29}, {2}, {0, 1, 2, 3, 4, 5, 6}, true, false);
            && Matches(s, DateTime(2104, 2, 29, 0, 0, 0, 0))
            && forall x :: Candidate(DateTime(2096, 2, 29, 23, 59, 0, 0), x) && NotAfter(x, limit) ==> !Matches(s, x)
  {
    var newYear := DateTime(2101, 1, 1, 0, 0, 0, 0);
    assert DaysBeforeMonth(2096, 2) == 31;
    assert Ordinal(newYear) == Ordinal(DateTime(2096, 2, 29, 23, 59, 0, 0)) + 1767;
    if limit.year > 2100 && EarlierDate(newYear, limit) {
      OrdinalOrders(newYear, limit);
    }
    assert !Leap(2097) && !Leap(2098) && !Leap(2099) && !Leap(2100);
  }
}
