/** Proleptic Gregorian calendar arithmetic of the daily updater, and the naive calendar it must agree with. */
module Calendar {

  datatype Date = Date(year: int, month: int, day: int)

  // ----- the naive calendar: the leap-year rule and one day at a time -----

  predicate IsLeap(y: int) {
    y % 4 == 0 && (y % 100 != 0 || y % 400 == 0)
  }

  function DaysInMonth(y: int, m: int): int {
    if m == 2 then (if IsLeap(y) then 29 else 28)
    else if m == 4 || m == 6 || m == 9 || m == 11 then 30
    else 31
  }

  predicate ValidDate(d: Date) {
    1 <= d.month <= 12 && 1 <= d.day <= DaysInMonth(d.year, d.month)
  }

  function NextDate(d: Date): Date {
    if d.day < DaysInMonth(d.year, d.month) then Date(d.year, d.month, d.day + 1)
    else if d.month < 12 then Date(d.year, d.month + 1, 1)
    else Date(d.year + 1, 1, 1)
  }

  function PreviousDate(d: Date): Date {
    if d.day > 1 then Date(d.year, d.month, d.day - 1)
    else if d.month > 1 then Date(d.year, d.month - 1, DaysInMonth(d.year, d.month - 1))
    else Date(d.year - 1, 12, 31)
  }

  /** The date `z` days after (before, when negative) 1970-01-01, found by counting. */
  function CountedDate(z: int): Date
    decreases if z < 0 then -z else z
  {
    if z == 0 then Date(1970, 1, 1)
    else if z > 0 then NextDate(CountedDate(z - 1))
    else PreviousDate(CountedDate(z + 1))
  }

  // ----- the closed forms -----

  /** Integer division that rounds towards zero, as the machine division does. */
  function Truncated(a: int, b: int): int
    requires b > 0
  {
    if a >= 0 then a / b else -((-a) / b)
  }

  function DaysFromCivil(year: int, m: nat, d: nat): int {
    var y := if m <= 2 then year - 1 else year;
    var era := Truncated(if y >= 0 then y else y - 399, 400);
    var yoe := y - era * 400;
    var mp := if m > 2 then m - 3 else m + 9;
    var doy := Truncated(153 * mp + 2, 5) + d - 1;
    var doe := yoe * 365 + Truncated(yoe, 4) - Truncated(yoe, 100) + doy;
    era * 146097 + doe - 719468
  }

  function CivilFromDays(days: int): Date {
    var z := days + 719468;
    var era := Truncated(if z >= 0 then z else z - 146096, 146097);
    CivilOfEraDay(era, z - era * 146097)
  }

  /** The part of the conversion after the era is known: `doe` is the day of the era. */
  function CivilOfEraDay(era: int, doe: int): Date {
    var yoe := Truncated(doe - Truncated(doe, 1460) + Truncated(doe, 36524) - Truncated(doe, 146096), 365);
    var y := yoe + era * 400;
    var doy := doe - (365 * yoe + Truncated(yoe, 4) - Truncated(yoe, 100));
    var mp := Truncated(5 * doy + 2, 153);
    var d := doy - Truncated(153 * mp + 2, 5) + 1;
    var m := if mp < 10 then mp + 3 else mp - 9;
    Date(if m <= 2 then y + 1 else y, m, d)
  }

  /** Days before year `yoe` of a 400-year era that starts on 1 March. */
  function YearStart(yoe: int): int {
    365 * yoe + yoe / 4 - yoe / 100
  }

  /** The last year of an era takes the leap day that `YearStart` alone would leave out. */
  function YearLength(yoe: int): int {
    if (yoe + 1) % 4 == 0 && ((yoe + 1) % 100 != 0 || (yoe + 1) % 400 == 0) then 366 else 365
  }

  /** Days before month `mp` of a year that starts on 1 March. */
  function MonthStart(mp: int): int {
    (153 * mp + 2) / 5
  }

  lemma EraOfYear(y: int)
    ensures Truncated(if y >= 0 then y else y - 399, 400) == y / 400
  {
  }

  lemma EraOfDay(z: int)
    ensures Truncated(if z >= 0 then z else z - 146096, 146097) == z / 146097
  {
  }

  /** Century, leap cycle, year of the cycle and day of the year, of a day of an era. */
  lemma SplitEra(doe: int) returns (c: int, q: int, k: int, r: int)
    requires 0 <= doe < 146097
    ensures 0 <= c < 4 && 0 <= q < 25 && 0 <= k < 4 && 0 <= r <= 365
    ensures doe == 36524 * c + 1461 * q + 365 * k + r
    ensures r == 365 ==> k == 3 && (q == 24 ==> c == 3)
    ensures c == 3 && q == 24 && k == 3 && r == 365 <==> doe == 146096
  {
    c := if doe == 146096 then 3 else doe / 36524;
    var inCentury := doe - 36524 * c;
    q := inCentury / 1461;
    var inCycle := inCentury - 1461 * q;
    k := if inCycle == 1460 then 3 else inCycle / 365;
    r := inCycle - 365 * k;
  }

  lemma YearEstimate(doe: int, c: int, q: int, k: int, r: int)
    requires 0 <= doe < 146097
    requires 0 <= c < 4 && 0 <= q < 25 && 0 <= k < 4 && 0 <= r <= 365
    requires doe == 36524 * c + 1461 * q + 365 * k + r
    requires r == 365 ==> k == 3 && (q == 24 ==> c == 3)
    requires c == 3 && q == 24 && k == 3 && r == 365 <==> doe == 146096
    ensures (doe - doe / 1460 + doe / 36524 - doe / 146096) / 365 == 100 * c + 4 * q + k
  {
    var carry := if 24 * c + q + 365 * k + r >= 1460 then 1 else 0;
    assert doe / 1460 == 25 * c + q + carry;
    assert doe / 36524 - doe / 146096 == c;
  }

  /** The year-of-era estimate is exact: its year is the one that contains the day. */
  lemma YearOfEra(doe: int)
    requires 0 <= doe < 146097
    ensures var yoe := (doe - doe / 1460 + doe / 36524 - doe / 146096) / 365;
            0 <= yoe < 400 && YearStart(yoe) <= doe < YearStart(yoe) + YearLength(yoe)
  {
    var c, q, k, r := SplitEra(doe);
    YearEstimate(doe, c, q, k, r);
    var yoe := 100 * c + 4 * q + k;
    assert yoe / 100 == c && yoe / 4 == 25 * c + q;
  }

  lemma LaterYearStart(a: int, b: int)
    requires 0 <= a <= b < 400
    ensures YearStart(a) <= YearStart(b)
  {
    var p, q := a / 100, b / 100;
    assert a / 4 == 25 * p + (a - 100 * p) / 4;
    assert b / 4 == 25 * q + (b - 100 * q) / 4;
  }

  lemma YearOfEraUnique(a: int, b: int, doe: int)
    requires 0 <= a < 400 && 0 <= b < 400
    requires YearStart(a) <= doe < YearStart(a) + YearLength(a)
    requires YearStart(b) <= doe < YearStart(b) + YearLength(b)
    ensures a == b
  {
    hide YearStart, YearLength;
    if a < b {
      NextYearStart(a);
      LaterYearStart(a + 1, b);
    } else if b < a {
      NextYearStart(b);
      LaterYearStart(b + 1, a);
    }
  }

  lemma MonthOfYear(doy: int)
    requires 0 <= doy < 366
    ensures var mp := (5 * doy + 2) / 153;
            0 <= mp < 12 && MonthStart(mp) <= doy && (mp < 11 ==> doy < MonthStart(mp + 1))
  {
  }

  /** Years and months counted from 1 March: the form in which the closed formulas work. */
  function MarchYear(d: Date): int {
    if d.month <= 2 then d.year - 1 else d.year
  }

  function MarchMonth(d: Date): int {
    if d.month > 2 then d.month - 3 else d.month + 9
  }

  /** A year counted from 1 March ends with the February of the next calendar year. */
  lemma MarchYearLength(y: int)
    ensures YearLength(y % 400) == if IsLeap(y + 1) then 366 else 365
  {
    var era, yoe := y / 400, y % 400;
    assert y + 1 == 400 * era + (yoe + 1);
    LeapRepeats(era, yoe + 1);
  }

  lemma LeapRepeats(era: int, y: int)
    ensures IsLeap(400 * era + y) == IsLeap(y)
  {
    Mod4(100 * era, y);
    Mod100(4 * era, y);
    Mod400(era, y);
  }

  lemma Mod4(a: int, y: int)
    ensures (4 * a + y) % 4 == y % 4
  {
  }

  lemma Mod100(a: int, y: int)
    ensures (100 * a + y) % 100 == y % 100
  {
  }

  lemma Mod400(a: int, y: int)
    ensures (400 * a + y) % 400 == y % 400
  {
  }

  lemma MarchDay(d: Date)
    requires ValidDate(d)
    ensures var mp := MarchMonth(d);
            var doy := MonthStart(mp) + d.day - 1;
            0 <= mp < 12 && 0 <= doy < YearLength(MarchYear(d) % 400)
            && MonthStart(mp) <= doy && (mp < 11 ==> doy < MonthStart(mp + 1))
  {
    MarchYearLength(MarchYear(d));
  }

  lemma MarchMonthUnique(mp: int, doy: int)
    requires 0 <= mp < 12 && MonthStart(mp) <= doy < 366
    requires mp < 11 ==> doy < MonthStart(mp + 1)
    ensures (5 * doy + 2) / 153 == mp
  {
  }

  /** The closed form in terms of the era, the year of the era and the day of that year. */
  lemma DaysFromMarch(d: Date)
    requires ValidDate(d)
    ensures var yoe := MarchYear(d) % 400;
            DaysFromCivil(d.year, d.month, d.day) + 719468
            == MarchYear(d) / 400 * 146097 + YearStart(yoe) + MonthStart(MarchMonth(d)) + d.day - 1
  {
    EraOfYear(MarchYear(d));
  }

  lemma DayOfEraBounds(yoe: int, doy: int)
    requires 0 <= yoe < 400 && 0 <= doy < YearLength(yoe)
    ensures 0 <= YearStart(yoe) + doy < 146097
  {
  }

  lemma EraUnique(a: int, r: int)
    requires 0 <= r < 146097
    ensures (a * 146097 + r) / 146097 == a
  {
  }

  /** `CivilOfEraDay` with plain division: inside an era no operand is negative. */
  function CivilInEra(era: int, doe: int): Date {
    var yoe := (doe - doe / 1460 + doe / 36524 - doe / 146096) / 365;
    var doy := doe - YearStart(yoe);
    var mp := (5 * doy + 2) / 153;
    var m := if mp < 10 then mp + 3 else mp - 9;
    var y := yoe + era * 400;
    Date(if m <= 2 then y + 1 else y, m, doy - MonthStart(mp) + 1)
  }

  lemma CivilByEra(z: int, era: int, doe: int)
    requires z + 719468 == era * 146097 + doe && 0 <= doe < 146097
    ensures CivilFromDays(z) == CivilOfEraDay(era, doe)
  {
    EraOfDay(z + 719468);
    EraUnique(era, doe);
  }

  lemma PlainDivision(era: int, doe: int)
    requires 0 <= doe < 146097
    ensures CivilOfEraDay(era, doe) == CivilInEra(era, doe)
  {
    hide Truncated, YearStart, YearLength, MonthStart;
    EstimateIsPositive(doe);
    YearOfEra(doe);
    var yoe := (doe - doe / 1460 + doe / 36524 - doe / 146096) / 365;
    PartsArePositive(yoe, doe);
    EstimateTruncated(doe);
  }

  lemma EstimateTruncated(doe: int)
    requires 0 <= doe && doe - doe / 1460 + doe / 36524 - doe / 146096 >= 0
    ensures Truncated(doe - Truncated(doe, 1460) + Truncated(doe, 36524) - Truncated(doe, 146096), 365)
            == (doe - doe / 1460 + doe / 36524 - doe / 146096) / 365
  {
  }

  lemma EstimateIsPositive(doe: int)
    requires 0 <= doe
    ensures doe - doe / 1460 + doe / 36524 - doe / 146096 >= 0
  {
  }

  lemma PartsArePositive(yoe: int, doe: int)
    requires 0 <= yoe < 400 && YearStart(yoe) <= doe
    ensures YearStart(yoe) == 365 * yoe + Truncated(yoe, 4) - Truncated(yoe, 100)
    ensures var doy := doe - YearStart(yoe);
            doy >= 0 && Truncated(5 * doy + 2, 153) == (5 * doy + 2) / 153
            && Truncated(153 * ((5 * doy + 2) / 153) + 2, 5) == MonthStart((5 * doy + 2) / 153)
  {
  }

  lemma CivilOfParts(z: int, era: int, yoe: int, mp: int, day: int)
    requires 0 <= yoe < 400 && 0 <= mp < 12
    requires var doy := MonthStart(mp) + day - 1;
             0 <= doy < YearLength(yoe) && MonthStart(mp) <= doy && (mp < 11 ==> doy < MonthStart(mp + 1))
             && z + 719468 == era * 146097 + YearStart(yoe) + doy
    ensures var m := if mp < 10 then mp + 3 else mp - 9;
            var y := yoe + era * 400;
            CivilFromDays(z) == Date(if m <= 2 then y + 1 else y, m, day)
  {
    hide CivilFromDays, CivilOfEraDay, YearStart;
    var doy := MonthStart(mp) + day - 1;
    var doe := YearStart(yoe) + doy;
    DayOfEraBounds(yoe, doy);
    CivilByEra(z, era, doe);
    PlainDivision(era, doe);
    YearOfEraEstimate(doe, yoe);
    MarchMonthUnique(mp, doy);
  }

  lemma YearOfEraEstimate(doe: int, yoe: int)
    requires 0 <= doe < 146097 && 0 <= yoe < 400
    requires YearStart(yoe) <= doe < YearStart(yoe) + YearLength(yoe)
    ensures (doe - doe / 1460 + doe / 36524 - doe / 146096) / 365 == yoe
  {
    YearOfEra(doe);
    YearOfEraUnique((doe - doe / 1460 + doe / 36524 - doe / 146096) / 365, yoe, doe);
  }

  /** From a date to its day number and back. */
  lemma CivilAfterDays(d: Date)
    requires ValidDate(d)
    ensures CivilFromDays(DaysFromCivil(d.year, d.month, d.day)) == d
  {
    hide CivilFromDays, DaysFromCivil;
    MarchDay(d);
    DaysFromMarch(d);
    CivilOfParts(DaysFromCivil(d.year, d.month, d.day), MarchYear(d) / 400, MarchYear(d) % 400, MarchMonth(d), d.day);
  }

  lemma CivilIsValid(z: int)
    ensures ValidDate(CivilFromDays(z))
    ensures var d := CivilFromDays(z); DaysFromCivil(d.year, d.month, d.day) == z
  {
    var era := (z + 719468) / 146097;
    var doe := (z + 719468) % 146097;
    YearOfEra(doe);
    var yoe := (doe - doe / 1460 + doe / 36524 - doe / 146096) / 365;
    var doy := doe - YearStart(yoe);
    MonthOfYear(doy);
    var mp := (5 * doy + 2) / 153;
    CivilOfParts(z, era, yoe, mp, doy - MonthStart(mp) + 1);
    var d := CivilFromDays(z);
    assert MarchMonth(d) == mp && MarchYear(d) == yoe + era * 400;
    assert MarchYear(d) / 400 == era && MarchYear(d) % 400 == yoe;
    LastMonthLength(d, doy);
    DaysFromMarch(d);
  }

  lemma LastMonthLength(d: Date, doy: int)
    requires 1 <= d.month <= 12
    requires var mp := MarchMonth(d);
             0 <= doy < YearLength(MarchYear(d) % 400)
             && MonthStart(mp) <= doy && (mp < 11 ==> doy < MonthStart(mp + 1))
             && d.day == doy - MonthStart(mp) + 1
    ensures ValidDate(d)
  {
    MarchYearLength(MarchYear(d));
  }

  lemma NextInMarchYear(d: Date)
    requires ValidDate(d)
    ensures var n := NextDate(d);
            if d.month == 2 && n.month == 3 then
              MarchYear(n) == MarchYear(d) + 1 && MarchMonth(n) == 0 && n.day == 1
              && MonthStart(MarchMonth(d)) + d.day == YearLength(MarchYear(d) % 400)
            else
              MarchYear(n) == MarchYear(d) && MonthStart(MarchMonth(n)) + n.day == MonthStart(MarchMonth(d)) + d.day + 1
  {
    MarchYearLength(MarchYear(d));
  }

  lemma NextDayNumber(d: Date)
    requires ValidDate(d)
    ensures var n := NextDate(d);
            ValidDate(n) && DaysFromCivil(n.year, n.month, n.day) == DaysFromCivil(d.year, d.month, d.day) + 1
  {
    var n := NextDate(d);
    DaysFromMarch(d);
    DaysFromMarch(n);
    NextInMarchYear(d);
    YearRollover(MarchYear(d));
  }

  lemma YearRollover(y: int)
    ensures y / 400 * 146097 + YearStart(y % 400) + YearLength(y % 400)
            == (y + 1) / 400 * 146097 + YearStart((y + 1) % 400)
  {
    if y % 400 == 399 {
      assert (y + 1) / 400 == y / 400 + 1 && (y + 1) % 400 == 0;
    } else {
      assert (y + 1) / 400 == y / 400 && (y + 1) % 400 == y % 400 + 1;
      NextYearStart(y % 400);
    }
  }

  lemma NextYearStart(yoe: int)
    requires 0 <= yoe < 399
    ensures YearStart(yoe + 1) == YearStart(yoe) + YearLength(yoe)
  {
  }

  lemma NextAfterPrevious(d: Date)
    requires ValidDate(d)
    ensures ValidDate(PreviousDate(d)) && NextDate(PreviousDate(d)) == d
  {
  }

  /** The day number of the date found by counting is the count. */
  lemma {:induction false} CountedDayNumber(z: int)
    ensures var d := CountedDate(z); ValidDate(d) && DaysFromCivil(d.year, d.month, d.day) == z
    decreases if z < 0 then -z else z
  {
    if z > 0 {
      CountedDayNumber(z - 1);
      NextDayNumber(CountedDate(z - 1));
    } else if z < 0 {
      CountedDayNumber(z + 1);
      NextAfterPrevious(CountedDate(z + 1));
      NextDayNumber(CountedDate(z));
    }
  }

  /** Both closed forms equal the naive calendar, for every day before and after the epoch. */
  lemma ClosedFormsCount(z: int)
    ensures CivilFromDays(z) == CountedDate(z)
    ensures forall d: Date :: ValidDate(d) ==>
      (DaysFromCivil(d.year, d.month, d.day) == z <==> CountedDate(z) == d)
  {
    CountedDayNumber(z);
    CivilAfterDays(CountedDate(z));
    forall d: Date | ValidDate(d) && DaysFromCivil(d.year, d.month, d.day) == z
      ensures CountedDate(z) == d
    {
      CivilAfterDays(d);
    }
  }

  /** The day number of 1 March. */
  function MarchFirst(y: int): int {
    y / 400 * 146097 + YearStart(y % 400) - 719468
  }

  lemma DaysFromMarchFirst(d: Date)
    requires ValidDate(d)
    ensures DaysFromCivil(d.year, d.month, d.day) == MarchFirst(MarchYear(d)) + MonthStart(MarchMonth(d)) + d.day - 1
  {
    DaysFromMarch(d);
  }

  lemma NextMarchFirst(y: int)
    ensures MarchFirst(y + 1) == MarchFirst(y) + if IsLeap(y + 1) then 366 else 365
  {
    YearRollover(y);
    MarchYearLength(y);
  }
}
