/** The daily corpus update: how long the service sleeps, and on which Eastern dates it therefore wakes. */
module Scheduler {
  import opened Wrappers
  import opened Calendar
  import opened Eastern

  const RUN_AT := 7 * HOUR
  const SHORTEST_SLEEP := 60

  // ----- the code -----

  /** `utcHour` is the parsed override of the hour of the run, if one is set. */
  function SecsUntilNextRun(now: int, utcHour: Option<int>): (secs: nat)
    ensures 60 <= secs <= 86400
  {
    match utcHour
    case Some(hour) => SecsUntilUtcHour(now, hour)
    case None =>
      var off := EasternOffset(now);
      var local := now + off;
      var today := local / DAY * DAY + RUN_AT;
      var target := if today <= local then today + DAY else today;
      AtLeast(target - off - now, SHORTEST_SLEEP)
  }

  function SecsUntilUtcHour(now: int, hour: int): (secs: nat)
    ensures 60 <= secs <= 86400
  {
    var today := now / DAY * DAY + hour % 24 * HOUR;
    var target := if today <= now then today + DAY else today;
    AtLeast(target - now, SHORTEST_SLEEP)
  }

  function AtLeast(secs: int, least: nat): nat {
    if secs < least then least else secs
  }

  /** When the k-th update starts: the one at boot is number 0, and update number j takes `cost(j)` seconds. */
  function Wake(start: int, cost: nat -> nat, utcHour: Option<int>, k: nat): int {
    if k == 0 then start
    else
      var finished := Wake(start, cost, utcHour, k - 1) + cost(k - 1);
      finished + SecsUntilNextRun(finished, utcHour)
  }

  /** The update loop, observed for its first `ticks` sleeps. */
  method RunScheduler(start: int, cost: nat -> nat, utcHour: Option<int>, ticks: nat) returns (wakes: seq<int>)
    ensures |wakes| == ticks + 1
    ensures forall k :: 0 <= k <= ticks ==> wakes[k] == Wake(start, cost, utcHour, k)
    ensures wakes[0] == start
    ensures forall k :: 0 <= k < ticks ==>
      wakes[k + 1] == wakes[k] + cost(k) + SecsUntilNextRun(wakes[k] + cost(k), utcHour)
  {
    hide SecsUntilNextRun, Wake;
    NextWakeIs(start, cost, utcHour, 0);
    var now := start;
    wakes := [now];
    for k := 0 to ticks
      invariant |wakes| == k + 1 && wakes[0] == start && now == wakes[k]
      invariant forall j :: 0 <= j <= k ==> wakes[j] == Wake(start, cost, utcHour, j)
      invariant forall j :: 0 <= j < k ==>
        wakes[j + 1] == wakes[j] + cost(j) + SecsUntilNextRun(wakes[j] + cost(j), utcHour)
    {
      NextWakeIs(start, cost, utcHour, k);
      now := now + cost(k);
      var secs := SecsUntilNextRun(now, utcHour);
      now := now + secs;
      wakes := wakes + [now];
    }
  }

  lemma NextWakeIs(start: int, cost: nat -> nat, utcHour: Option<int>, k: nat)
    ensures Wake(start, cost, utcHour, 0) == start
    ensures var finished := Wake(start, cost, utcHour, k) + cost(k);
            Wake(start, cost, utcHour, k + 1) == finished + SecsUntilNextRun(finished, utcHour)
  {
    hide SecsUntilNextRun;
  }

  // ----- Eastern wall-clock time -----

  function LocalDay(t: int): int {
    (t + EasternOffset(t)) / DAY
  }

  function LocalTime(t: int): int {
    (t + EasternOffset(t)) % DAY
  }

  /** Date and time of day of the Eastern clock at an instant. */
  lemma LocalClock(t: int)
    ensures LocalDay(t) * 86400 + LocalTime(t) == t + EasternOffset(t) && 0 <= LocalTime(t) < 86400
  {
    hide EasternOffset;
  }

  /** The first Sunday of November, on which the clocks go back an hour. */
  predicate AutumnChange(day: int) {
    var d := CivilFromDays(day);
    d.month == 11 && IsNthSunday(d, 1)
  }

  /** The second Sunday of March, on which the clocks go forward an hour. */
  predicate SpringChange(day: int) {
    var d := CivilFromDays(day);
    d.month == 3 && IsNthSunday(d, 2)
  }

  lemma AutumnDay(y: int)
    ensures var day := DaysFromCivil(y, 11, DayOfMonth(NthSunday(y, 11, 1)));
            AutumnChange(day) && CivilFromDays(day).year == y && DstEnd(y) == day * DAY + 6 * HOUR
  {
    DstBounds(y);
    CivilAfterDays(Date(y, 11, NthSunday(y, 11, 1)));
  }

  lemma SpringDay(y: int)
    ensures var day := DaysFromCivil(y, 3, DayOfMonth(NthSunday(y, 3, 2)));
            SpringChange(day) && DstStart(y) == day * DAY + 7 * HOUR
  {
    DstBounds(y);
    CivilAfterDays(Date(y, 3, NthSunday(y, 3, 2)));
  }

  lemma AutumnChangeDay(day: int) returns (y: int)
    requires AutumnChange(day)
    ensures y == CivilFromDays(day).year && day == DaysFromCivil(y, 11, DayOfMonth(NthSunday(y, 11, 1)))
    ensures DstEnd(y) == day * DAY + 6 * HOUR
  {
    CivilIsValid(day);
    var d := CivilFromDays(day);
    y := d.year;
    SundayOfMonth(y, 11, 1);
    assert d == Date(y, 11, d.day);
  }

  // ----- one sleep -----

  /** The Eastern date whose 07:00 a sleep that starts now aims at. */
  function TargetDay(now: int): int {
    LocalDay(now) + if LocalTime(now) < RUN_AT then 0 else 1
  }

  /** In the clock that was read before sleeping, the wake is at 07:00:00 to 07:00:59 of the target day. */
  lemma Aim(now: int)
    ensures var w := now + SecsUntilNextRun(now, None) + EasternOffset(now);
            TargetDay(now) * DAY + RUN_AT <= w < TargetDay(now) * DAY + RUN_AT + 60
  {
  }

  lemma SplitLocal(x: int, day: int, time: int)
    requires x == day * DAY + time && 0 <= time < DAY
    ensures x / DAY == day && x % DAY == time
  {
  }

  /** A sleep during which some date turns 02:00, on the clock read before sleeping, aims at that date. */
  lemma AimsAtChangeDay(local: int, wake: int, target: int, day: int)
    requires target == local / DAY + if local % DAY < RUN_AT then 0 else 1
    requires target * DAY + RUN_AT <= wake < target * DAY + RUN_AT + 60
    requires local < day * DAY + 2 * HOUR <= wake
    ensures target == day
  {
  }

  lemma ArriveInSpring(now: int, w: int)
    requires w == now + SecsUntilNextRun(now, None)
    requires EasternOffset(now) == STANDARD && EasternOffset(w) == DAYLIGHT
    ensures SpringChange(TargetDay(now))
  {
    hide EasternOffset, DstStart, DstEnd, SpringChange, SecsUntilNextRun, DaysFromCivil;
    DaylightByYear(w);
    var y :| DstStart(y) <= w < DstEnd(y);
    DaylightByYear(now);
    assert now < DstStart(y);
    SpringDay(y);
    Aim(now);
    AimsAtChangeDay(now + STANDARD, w + STANDARD, TargetDay(now), DaysFromCivil(y, 3, DayOfMonth(NthSunday(y, 3, 2))));
  }

  lemma ArriveInAutumn(now: int, w: int)
    requires w == now + SecsUntilNextRun(now, None)
    requires EasternOffset(now) == DAYLIGHT && EasternOffset(w) == STANDARD
    ensures AutumnChange(TargetDay(now))
  {
    hide EasternOffset, DstStart, DstEnd, AutumnChange, SecsUntilNextRun, DaysFromCivil;
    DaylightByYear(now);
    var y :| DstStart(y) <= now < DstEnd(y);
    DaylightByYear(w);
    assert DstEnd(y) <= w;
    AutumnDay(y);
    Aim(now);
    AimsAtChangeDay(now + DAYLIGHT, w + DAYLIGHT, TargetDay(now), DaysFromCivil(y, 11, DayOfMonth(NthSunday(y, 11, 1))));
  }

  /**
    The sleep ends on its target day at 07:00 Eastern, unless the clocks changed during it: the offset is read
    before sleeping, so the wake is then an hour late on the spring date and an hour early on the autumn date.
   */
  lemma Arrival(now: int)
    ensures var w := now + SecsUntilNextRun(now, None);
            LocalDay(w) == TargetDay(now)
            && (if EasternOffset(w) == EasternOffset(now) then
                  7 * 3600 <= LocalTime(w) < 7 * 3600 + 60
                else if EasternOffset(w) == -4 * 3600 then
                  8 * 3600 <= LocalTime(w) < 8 * 3600 + 60 && SpringChange(LocalDay(w))
                else
                  6 * 3600 <= LocalTime(w) < 6 * 3600 + 60 && AutumnChange(LocalDay(w)))
  {
    hide SecsUntilNextRun, EasternOffset, SpringChange, AutumnChange, TargetDay;
    var w := now + SecsUntilNextRun(now, None);
    Aim(now);
    var day := TargetDay(now);
    SplitLocal(w + EasternOffset(w), day, w + EasternOffset(w) - day * DAY);
    if EasternOffset(w) != EasternOffset(now) {
      if EasternOffset(w) == DAYLIGHT {
        ArriveInSpring(now, w);
      } else {
        ArriveInAutumn(now, w);
      }
    }
  }

  /** With the override, every sleep ends within a minute after the given hour of UTC. */
  lemma ArrivalAtUtcHour(now: int, hour: int)
    ensures var w := now + SecsUntilNextRun(now, Some(hour));
            hour % 24 * 3600 <= w % 86400 < hour % 24 * 3600 + 60
            && w / 86400 == now / 86400 + if now % 86400 < hour % 24 * 3600 then 0 else 1
  {
    var w := now + SecsUntilNextRun(now, Some(hour));
    var day := now / DAY + if now % DAY < hour % 24 * HOUR then 0 else 1;
    SplitLocal(w, day, w - day * DAY);
  }

  // ----- the whole run -----

  /** Every update after the one at boot finishes within 59 minutes. */
  ghost predicate Prompt(cost: nat -> nat) {
    forall k :: k >= 1 ==> cost(k) <= 59 * 60
  }

  /** Where the clock can stand when a sleep ends. */
  ghost predicate JustWoken(t: int) {
    || RUN_AT <= LocalTime(t) < RUN_AT + 60
    || RUN_AT + HOUR <= LocalTime(t) < RUN_AT + HOUR + 60
    || (RUN_AT - HOUR <= LocalTime(t) < RUN_AT - HOUR + 60
        && AutumnChange(LocalDay(t)) && EasternOffset(t) == STANDARD)
  }

  /** No clock changes between 05:00 and midnight of standard time. */
  lemma OffsetKept(t: int, u: int)
    requires t <= u && (t + STANDARD) / DAY == (u + STANDARD) / DAY && 2 * HOUR <= (t + STANDARD) % DAY
    ensures EasternOffset(t) == EasternOffset(u)
  {
    hide EasternOffset, DstStart, DstEnd, DaysFromCivil, NthSunday, SpringChange, AutumnChange;
    forall y
      ensures DstStart(y) <= t < DstEnd(y) <==> DstStart(y) <= u < DstEnd(y)
    {
      SpringDay(y);
      AutumnDay(y);
      var spring := DaysFromCivil(y, 3, DayOfMonth(NthSunday(y, 3, 2)));
      var autumn := DaysFromCivil(y, 11, DayOfMonth(NthSunday(y, 11, 1)));
      SameSide(t + STANDARD, u + STANDARD, spring, 2 * HOUR);
      SameSide(t + STANDARD, u + STANDARD, autumn, HOUR);
    }
    DaylightByYear(t);
    DaylightByYear(u);
  }

  lemma SameSide(a: int, b: int, day: int, time: int)
    requires a / DAY == b / DAY && 0 <= time <= a % DAY && a <= b
    ensures a < day * DAY + time <==> b < day * DAY + time
  {
  }

  lemma UpdateKeepsDate(t: int, cost: nat)
    requires JustWoken(t) && cost <= 59 * 60
    ensures EasternOffset(t + cost) == EasternOffset(t)
    ensures TargetDay(t + cost) == LocalDay(t) + if LocalTime(t) < RUN_AT then 0 else 1
  {
    hide EasternOffset, AutumnChange;
    var x := t + STANDARD;
    var day, time := LocalDay(t), LocalTime(t) + STANDARD - EasternOffset(t);
    assert x == day * DAY + time;
    SplitLocal(x, day, time);
    SplitLocal(x + cost, day, time + cost);
    OffsetKept(t, t + cost);
    SplitLocal(t + cost + EasternOffset(t), day, LocalTime(t) + cost);
  }

  lemma NextWake(start: int, cost: nat -> nat, k: nat)
    requires Prompt(cost) && k >= 1 && JustWoken(Wake(start, cost, None, k))
    ensures var t, w := Wake(start, cost, None, k), Wake(start, cost, None, k + 1);
            JustWoken(w)
            && LocalDay(w) == LocalDay(t) + (if LocalTime(t) < RUN_AT then 0 else 1)
            && (LocalTime(t) < RUN_AT ==> LocalTime(w) >= RUN_AT)
            && (LocalTime(w) < RUN_AT ==> EasternOffset(t) == DAYLIGHT)
  {
    hide EasternOffset, AutumnChange, SpringChange, SecsUntilNextRun, LocalDay, LocalTime, TargetDay;
    var t := Wake(start, cost, None, k);
    UpdateKeepsDate(t, cost(k));
    Arrival(t + cost(k));
  }

  lemma {:induction false} AlwaysJustWoken(start: int, cost: nat -> nat, k: nat)
    requires Prompt(cost) && k >= 1
    ensures JustWoken(Wake(start, cost, None, k))
  {
    hide EasternOffset, AutumnChange, SpringChange, SecsUntilNextRun, LocalDay, LocalTime, TargetDay;
    if k == 1 {
      Arrival(start + cost(0));
    } else {
      AlwaysJustWoken(start, cost, k - 1);
      NextWake(start, cost, k - 1);
    }
  }

  function WakeDay(start: int, cost: nat -> nat, k: nat): int {
    LocalDay(Wake(start, cost, None, k))
  }

  /** Woken at 07:00 or later on the day before the autumn change, the clock shows daylight time. */
  lemma DaylightBeforeAutumn(t: int)
    requires AutumnChange(LocalDay(t) + 1) && LocalTime(t) >= 6 * HOUR
    ensures EasternOffset(t) == DAYLIGHT
  {
    var y := AutumnChangeDay(LocalDay(t) + 1);
    DstBounds(y);
    DaylightByYear(t);
  }

  /** Nine hours into the day of the autumn change, in UTC, the clock shows standard time. */
  lemma StandardAfterAutumn(t: int)
    requires AutumnChange(t / DAY) && t % DAY >= 6 * HOUR
    ensures EasternOffset(t) == STANDARD
  {
    var y := AutumnChangeDay(t / DAY);
  }

  /** The first wake on the autumn date, coming from the day before, is at 06:00. */
  lemma EarlyOnAutumnDate(start: int, cost: nat -> nat, k: nat)
    requires Prompt(cost) && k >= 1
    requires AutumnChange(WakeDay(start, cost, k) + 1) && LocalTime(Wake(start, cost, None, k)) >= RUN_AT
    ensures WakeDay(start, cost, k + 1) == WakeDay(start, cost, k) + 1
    ensures LocalTime(Wake(start, cost, None, k + 1)) < RUN_AT
  {
    hide EasternOffset, AutumnChange, SpringChange, SecsUntilNextRun;
    var t, w := Wake(start, cost, None, k), Wake(start, cost, None, k + 1);
    AlwaysJustWoken(start, cost, k);
    NextWake(start, cost, k);
    DaylightBeforeAutumn(t);
    UpdateKeepsDate(t, cost(k));
    Aim(t + cost(k));
    var day := LocalDay(t) + 1;
    SplitLocal(w, day, w - day * DAY);
    StandardAfterAutumn(w);
    Arrival(t + cost(k));
  }

  lemma {:induction false} WakeDaysGrow(start: int, cost: nat -> nat, j: nat, k: nat)
    requires Prompt(cost) && 1 <= j <= k
    ensures WakeDay(start, cost, j) <= WakeDay(start, cost, k)
  {
    hide JustWoken, LocalDay, LocalTime, SecsUntilNextRun;
    if j < k {
      WakeDaysGrow(start, cost, j, k - 1);
      AlwaysJustWoken(start, cost, k - 1);
      NextWake(start, cost, k - 1);
    }
  }

  lemma {:induction false} FirstWakeOn(start: int, cost: nat -> nat, day: int) returns (k: nat)
    requires Prompt(cost) && WakeDay(start, cost, 1) < day
    ensures k >= 2 && WakeDay(start, cost, k) == day && WakeDay(start, cost, k - 1) == day - 1
    ensures LocalTime(Wake(start, cost, None, k - 1)) >= RUN_AT
    decreases day - WakeDay(start, cost, 1)
  {
    hide JustWoken, LocalDay, LocalTime, SecsUntilNextRun, AutumnChange, Wake;
    var j := 1;
    if WakeDay(start, cost, 1) + 1 < day {
      j := FirstWakeOn(start, cost, day - 1);
    }
    AlwaysJustWoken(start, cost, j);
    NextWake(start, cost, j);
    if LocalTime(Wake(start, cost, None, j)) >= RUN_AT {
      k := j + 1;
    } else {
      NextWake(start, cost, j + 1);
      k := j + 2;
    }
  }

  /** From its first wake on, the run leaves a date after one wake, or after two on the autumn date. */
  lemma LeavesDate(start: int, cost: nat -> nat, day: int, k: nat) returns (last: nat)
    requires Prompt(cost) && k >= 2 && WakeDay(start, cost, k) == day && WakeDay(start, cost, k - 1) == day - 1
    requires LocalTime(Wake(start, cost, None, k - 1)) >= RUN_AT
    ensures last == k + if AutumnChange(day) then 1 else 0
    ensures WakeDay(start, cost, last) == day && WakeDay(start, cost, last + 1) == day + 1
  {
    hide LocalDay, LocalTime, SecsUntilNextRun, AutumnChange, Wake, Prompt, EasternOffset;
    AlwaysJustWoken(start, cost, k);
    NextWake(start, cost, k);
    last := k;
    if AutumnChange(day) {
      EarlyOnAutumnDate(start, cost, k - 1);
      NextWake(start, cost, k + 1);
      last := k + 1;
    }
  }

  /**
    From any start, with any startup delay and prompt updates after it: every Eastern date later than the date of
    the first wake has exactly one wake, except the date of the autumn change, which has exactly two, in a row.
   */
  lemma OneWakePerDate(start: int, cost: nat -> nat, day: int) returns (k: nat)
    requires Prompt(cost) && WakeDay(start, cost, 1) < day
    ensures k >= 2
    ensures forall j :: j >= 1 ==>
      (WakeDay(start, cost, j) == day <==> j == k || (AutumnChange(day) && j == k + 1))
  {
    hide WakeDay, LocalTime, AutumnChange, Wake, Prompt;
    k := FirstWakeOn(start, cost, day);
    var last := LeavesDate(start, cost, day, k);
    forall j | j >= 1
      ensures WakeDay(start, cost, j) == day <==> j == k || (AutumnChange(day) && j == k + 1)
    {
      if j < k {
        WakeDaysGrow(start, cost, j, k - 1);
      } else if j > last {
        WakeDaysGrow(start, cost, last + 1, j);
      }
    }
  }

  // ----- the whole run with an override -----

  /** Every update after the one at boot finishes within a day, less the minute that a wake may be late. */
  ghost predicate WithinADay(cost: nat -> nat) {
    forall k :: k >= 1 ==> cost(k) <= DAY - SHORTEST_SLEEP
  }

  lemma {:induction false} UtcWake(start: int, cost: nat -> nat, hour: int, k: nat)
    requires WithinADay(cost) && k >= 1
    ensures hour % 24 * HOUR <= Wake(start, cost, Some(hour), k) % DAY < hour % 24 * HOUR + 60
    ensures Wake(start, cost, Some(hour), k) / DAY == Wake(start, cost, Some(hour), 1) / DAY + k - 1
  {
    hide SecsUntilNextRun;
    var finished := Wake(start, cost, Some(hour), k - 1) + cost(k - 1);
    if k > 1 {
      UtcWake(start, cost, hour, k - 1);
      NextUtcDay(Wake(start, cost, Some(hour), k - 1), cost(k - 1), hour % 24 * HOUR);
    }
    ArrivalAtUtcHour(finished, hour);
  }

  /** Whether or not an update runs past midnight, the next run is on the day after its start. */
  lemma NextUtcDay(w: int, cost: nat, at: nat)
    requires at <= w % DAY < at + 60 && cost <= DAY - SHORTEST_SLEEP && at <= DAY - 60
    ensures (w + cost) / DAY + (if (w + cost) % DAY < at then 0 else 1) == w / DAY + 1
  {
    var day, time := w / DAY, w % DAY + cost;
    if time < DAY {
      SplitLocal(w + cost, day, time);
    } else {
      SplitLocal(w + cost, day + 1, time - DAY);
    }
  }

  /** With the override, every UTC day after the first wake has exactly one wake. */
  lemma OneWakePerUtcDay(start: int, cost: nat -> nat, hour: int, day: int) returns (k: nat)
    requires WithinADay(cost) && Wake(start, cost, Some(hour), 1) / DAY < day
    ensures forall j :: j >= 1 ==> (Wake(start, cost, Some(hour), j) / DAY == day <==> j == k)
  {
    hide Wake;
    k := day - Wake(start, cost, Some(hour), 1) / DAY + 1;
    forall j | j >= 1
      ensures Wake(start, cost, Some(hour), j) / DAY == day <==> j == k
    {
      UtcWake(start, cost, hour, j);
    }
  }
}
