/** US Eastern time: Sundays of a month, and the daylight-saving window of section 260a of 15 U.S.C. */
module Eastern {
  import opened Calendar

  const HOUR := 3600
  const DAY := 86400
  const STANDARD := -5 * HOUR
  const DAYLIGHT := -4 * HOUR

  // ----- the code -----

  function NthSunday(y: int, m: nat, n: int): int {
    var firstWeekday := (DaysFromCivil(y, m, 1) + 4) % 7;
    1 + (0 - firstWeekday) % 7 + (n - 1) * 7
  }

  function DstStart(y: int): int {
    DaysFromCivil(y, 3, DayOfMonth(NthSunday(y, 3, 2))) * DAY + 7 * HOUR
  }

  function DstEnd(y: int): int {
    DaysFromCivil(y, 11, DayOfMonth(NthSunday(y, 11, 1))) * DAY + 6 * HOUR
  }

  /** The cast of a day of the month to an unsigned integer; `SundayOfMonth` shows that it loses nothing. */
  function DayOfMonth(d: int): nat {
    if d < 0 then 0 else d
  }

  function EasternOffset(now: int): (offset: int)
    ensures offset == STANDARD || offset == DAYLIGHT
  {
    var y := CivilFromDays(now / DAY).year;
    if DstStart(y) <= now < DstEnd(y) then DAYLIGHT else STANDARD
  }

  // ----- the rule -----

  /** 1970-01-01 was a Thursday, so 1970-01-04, day 3, was a Sunday. */
  predicate IsSunday(z: int) {
    (z - 3) % 7 == 0
  }

  /** How many of the first `d` days of the month are Sundays. */
  function SundaysThrough(y: int, m: nat, d: nat): nat {
    if d == 0 then 0
    else SundaysThrough(y, m, d - 1) + if IsSunday(DaysFromCivil(y, m, d)) then 1 else 0
  }

  predicate IsNthSunday(d: Date, n: int) {
    ValidDate(d) && IsSunday(DaysFromCivil(d.year, d.month, d.day)) && SundaysThrough(d.year, d.month, d.day) == n
  }

  /** The instant at which a clock with the given offset from UTC shows `hour` on date `d`. */
  function InstantOf(d: Date, hour: int, offset: int): int
    requires ValidDate(d)
  {
    DaysFromCivil(d.year, d.month, d.day) * DAY + hour * HOUR - offset
  }

  /** From 02:00 standard time on the second Sunday of March to 02:00 daylight time on the first Sunday of November. */
  ghost predicate InDaylightTime(t: int) {
    exists spring: Date, autumn: Date ::
      IsNthSunday(spring, 2) && spring.month == 3 && IsNthSunday(autumn, 1) && autumn.month == 11
      && spring.year == autumn.year
      && InstantOf(spring, 2, STANDARD) <= t < InstantOf(autumn, 2, DAYLIGHT)
  }

  // ----- Sundays -----

  lemma ConsecutiveDays(y: int, m: nat, d: nat)
    ensures DaysFromCivil(y, m, d) == DaysFromCivil(y, m, 0) + d
  {
  }

  lemma FirstSunday(y: int, m: nat)
    ensures 1 <= NthSunday(y, m, 1) <= 7 && IsSunday(DaysFromCivil(y, m, 0) + NthSunday(y, m, 1))
  {
    hide DaysFromCivil;
    ConsecutiveDays(y, m, 1);
  }

  /** With the first Sunday on day `f`, the Sundays among the first `d` days are f, f + 7, ... */
  lemma {:induction false} SundayCount(y: int, m: nat, f: int, d: nat)
    requires 1 <= f <= 7 && IsSunday(DaysFromCivil(y, m, 0) + f)
    ensures SundaysThrough(y, m, d) == (d - f + 7) / 7
    ensures IsSunday(DaysFromCivil(y, m, d)) <==> (d - f) % 7 == 0
  {
    ConsecutiveDays(y, m, d);
    WeeksApart(DaysFromCivil(y, m, 0), f, d);
    if d > 0 {
      SundayCount(y, m, f, d - 1);
      WholeWeeks(d - f);
    }
  }

  lemma WeeksApart(base: int, f: int, d: int)
    requires IsSunday(base + f)
    ensures IsSunday(base + d) <==> (d - f) % 7 == 0
  {
    assert base + d - 3 == (base + f - 3) + (d - f);
  }

  lemma WholeWeeks(k: int)
    ensures (k + 7) / 7 == (k + 6) / 7 + (if k % 7 == 0 then 1 else 0)
  {
  }

  /** `NthSunday` is the n-th Sunday of its month, it is the only one, and up to the fourth it always exists. */
  lemma SundayOfMonth(y: int, m: nat, n: int)
    requires 1 <= m <= 12 && n >= 1
    ensures var d := NthSunday(y, m, n);
            d == DayOfMonth(d) && d >= 1 && IsSunday(DaysFromCivil(y, m, d)) && SundaysThrough(y, m, d) == n
    ensures n <= 4 ==> ValidDate(Date(y, m, NthSunday(y, m, n)))
    ensures forall d: nat :: IsNthSunday(Date(y, m, d), n) ==> d == NthSunday(y, m, n)
  {
    FirstSunday(y, m);
    var f := NthSunday(y, m, 1);
    var d := NthSunday(y, m, n);
    assert d == f + 7 * (n - 1);
    SundayCount(y, m, f, d);
    MultipleOfSeven(n - 1);
    forall e: nat | IsNthSunday(Date(y, m, e), n)
      ensures e == d
    {
      SundayCount(y, m, f, e);
    }
  }

  lemma MultipleOfSeven(k: int)
    ensures (7 * k) % 7 == 0 && (7 * k + 7) / 7 == k + 1
  {
  }

  // ----- the year around the window -----

  /** Day numbers of the first of January, March and November, counted from the first of March. */
  lemma YearLayout(y: int)
    ensures var march := DaysFromCivil(y, 3, 1);
            DaysFromCivil(y, 11, 1) == march + 245
            && DaysFromCivil(y + 1, 1, 1) == march + 306
            && march - DaysFromCivil(y, 1, 1) == (if IsLeap(y) then 60 else 59)
  {
    hide DaysFromCivil, MarchFirst;
    DaysFromMarchFirst(Date(y, 3, 1));
    DaysFromMarchFirst(Date(y, 11, 1));
    DaysFromMarchFirst(Date(y + 1, 1, 1));
    DaysFromMarchFirst(Date(y, 1, 1));
    NextMarchFirst(y - 1);
  }

  lemma {:induction false} LaterYear(a: int, b: int)
    requires a <= b
    ensures DaysFromCivil(a, 1, 1) + 365 * (b - a) <= DaysFromCivil(b, 1, 1)
    decreases b - a
  {
    hide DaysFromCivil;
    if a < b {
      LaterYear(a, b - 1);
      YearLayout(b - 1);
    }
  }

  lemma DayWithinYear(d: Date)
    requires ValidDate(d)
    ensures DaysFromCivil(d.year, 1, 1) <= DaysFromCivil(d.year, d.month, d.day) < DaysFromCivil(d.year + 1, 1, 1)
  {
    hide DaysFromCivil, MarchFirst;
    YearLayout(d.year);
    DaysFromMarchFirst(d);
    DaysFromMarchFirst(Date(d.year, 3, 1));
    DaysFromMarchFirst(Date(d.year, 1, 1));
  }

  lemma YearContainsDay(z: int)
    ensures var y := CivilFromDays(z).year; DaysFromCivil(y, 1, 1) <= z < DaysFromCivil(y + 1, 1, 1)
  {
    CivilIsValid(z);
    DayWithinYear(CivilFromDays(z));
  }

  /** The calendar year of a day is the one whose Januaries enclose it. */
  lemma YearOfDay(z: int, y: int)
    ensures CivilFromDays(z).year == y <==> DaysFromCivil(y, 1, 1) <= z < DaysFromCivil(y + 1, 1, 1)
  {
    YearContainsDay(z);
    BeforeLaterYear(z, y);
    AfterEarlierYear(z, y);
  }

  lemma BeforeLaterYear(z: int, y: int)
    ensures CivilFromDays(z).year < y ==> z < DaysFromCivil(y, 1, 1)
  {
    YearContainsDay(z);
    if CivilFromDays(z).year < y {
      LaterYear(CivilFromDays(z).year + 1, y);
    }
  }

  lemma AfterEarlierYear(z: int, y: int)
    ensures y < CivilFromDays(z).year ==> DaysFromCivil(y + 1, 1, 1) <= z
  {
    hide CivilFromDays, DaysFromCivil;
    YearContainsDay(z);
    if y < CivilFromDays(z).year {
      LaterYear(y + 1, CivilFromDays(z).year);
    }
  }

  /** Where the two change days lie, and that the code computes the instants of the rule. */
  lemma DstBounds(y: int)
    ensures var s, e := NthSunday(y, 3, 2), NthSunday(y, 11, 1);
            8 <= s <= 14 && 1 <= e <= 7
            && DstStart(y) == InstantOf(Date(y, 3, s), 2, STANDARD)
            && DstEnd(y) == InstantOf(Date(y, 11, e), 2, DAYLIGHT)
            && IsNthSunday(Date(y, 3, s), 2) && IsNthSunday(Date(y, 11, e), 1)
            && DstStart(y) == DaysFromCivil(y, 3, s) * 86400 + 7 * 3600
            && DstEnd(y) == DaysFromCivil(y, 11, e) * 86400 + 6 * 3600
    ensures DaysFromCivil(y, 1, 1) * DAY < DstStart(y)
    ensures DstStart(y) + 230 * DAY < DstEnd(y)
    ensures DstEnd(y) + 50 * DAY < DaysFromCivil(y + 1, 1, 1) * DAY
  {
    SundayOfMonth(y, 3, 2);
    SundayOfMonth(y, 11, 1);
    FirstSunday(y, 3);
    FirstSunday(y, 11);
    YearLayout(y);
    ConsecutiveDays(y, 3, NthSunday(y, 3, 2));
    ConsecutiveDays(y, 11, NthSunday(y, 11, 1));
    ConsecutiveDays(y, 3, 1);
    ConsecutiveDays(y, 11, 1);
  }

  /** The window of a year lies inside that year of UTC, so an instant is in at most the window of its own year. */
  lemma WindowOfYear(t: int, y: int)
    requires DstStart(y) <= t < DstEnd(y)
    ensures CivilFromDays(t / DAY).year == y
  {
    DstBounds(y);
    YearOfDay(t / DAY, y);
  }

  lemma DaylightByYear(t: int)
    ensures EasternOffset(t) == DAYLIGHT <==> exists y :: DstStart(y) <= t < DstEnd(y)
  {
    forall y | DstStart(y) <= t < DstEnd(y)
      ensures EasternOffset(t) == DAYLIGHT
    {
      WindowOfYear(t, y);
    }
  }

  lemma RuleOfDaylight(t: int)
    requires EasternOffset(t) == DAYLIGHT
    ensures InDaylightTime(t)
  {
    hide EasternOffset, IsNthSunday, DstStart, DstEnd, DaysFromCivil, CivilFromDays, NthSunday, InstantOf, ValidDate;
    DaylightByYear(t);
    var y :| DstStart(y) <= t < DstEnd(y);
    DstBounds(y);
    var spring, autumn := Date(y, 3, NthSunday(y, 3, 2)), Date(y, 11, NthSunday(y, 11, 1));
    NthSundayIsDate(spring, 2);
    NthSundayIsDate(autumn, 1);
    assert InstantOf(spring, 2, STANDARD) <= t < InstantOf(autumn, 2, DAYLIGHT);
  }

  lemma NthSundayIsDate(d: Date, n: int)
    ensures IsNthSunday(d, n) ==> ValidDate(d)
  {
  }

  lemma DaylightByRule(t: int)
    requires InDaylightTime(t)
    ensures EasternOffset(t) == DAYLIGHT
  {
    var spring: Date, autumn: Date :|
      IsNthSunday(spring, 2) && spring.month == 3 && IsNthSunday(autumn, 1) && autumn.month == 11
      && spring.year == autumn.year
      && InstantOf(spring, 2, STANDARD) <= t < InstantOf(autumn, 2, DAYLIGHT);
    SundayOfMonth(spring.year, 3, 2);
    SundayOfMonth(spring.year, 11, 1);
    DstBounds(spring.year);
    hide EasternOffset, DstStart, DstEnd, NthSunday;
    assert spring == Date(spring.year, 3, spring.day) && autumn == Date(spring.year, 11, autumn.day);
    DaylightByYear(t);
  }

  /** At every instant the computed offset is the one the rule gives. */
  lemma OffsetFollowsRule(t: int)
    ensures EasternOffset(t) == if InDaylightTime(t) then -4 * 3600 else -5 * 3600
  {
    hide EasternOffset, InDaylightTime;
    if EasternOffset(t) == DAYLIGHT {
      RuleOfDaylight(t);
    }
    if InDaylightTime(t) {
      DaylightByRule(t);
    }
  }
}
