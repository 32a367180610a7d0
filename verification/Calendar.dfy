/** The closed formula from day numbers to dates, against the Gregorian calendar itself. */
module Calendar {

  datatype Date = Date(year: int, month: int, day: int)

  // ---------- the calendar ----------

  predicate Leap(y: int) {
    y % 4 == 0 && (y % 100 != 0 || y % 400 == 0)
  }

  function DaysIn(y: int, m: int): int {
    if m == 2 then (if Leap(y) then 29 else 28)
    else if m == 4 || m == 6 || m == 9 || m == 11 then 30
    else 31
  }

  predicate ValidDate(d: Date) {
    1 <= d.month <= 12 && 1 <= d.day <= DaysIn(d.year, d.month)
  }

  function NextDay(d: Date): Date {
    if d.day < DaysIn(d.year, d.month) then Date(d.year, d.month, d.day + 1)
    else if d.month < 12 then Date(d.year, d.month + 1, 1)
    else Date(d.year + 1, 1, 1)
  }

  // ---------- the formula ----------

  // Division that rounds towards zero.
  function TruncDiv(a: int, b: int): int
    requires b > 0
  {
    if a >= 0 then a / b else -(-a / b)
  }

  function Era(days: int): int {
    TruncDiv(if days >= 0 then days else days - 146_096, 146_097)
  }

  function YearOfEra(dayOfEra: int): int {
    (dayOfEra - dayOfEra / 1_460 + dayOfEra / 36_524 - dayOfEra / 146_096) / 365
  }

  // A date from a year that starts in March and the day within it.
  function FromMarch(year: int, dayOfYear: int): Date {
    var part := (5 * dayOfYear + 2) / 153;
    var day := dayOfYear - (153 * part + 2) / 5 + 1;
    var month := part + if part < 10 then 3 else -9;
    Date(if month <= 2 then year + 1 else year, month, day)
  }

  function CivilFromDays(daysSinceEpoch: int): Date {
    var days := daysSinceEpoch + 719_468;
    var era := Era(days);
    var dayOfEra := days - era * 146_097;
    var yearOfEra := YearOfEra(dayOfEra);
    var dayOfYear := dayOfEra - (365 * yearOfEra + yearOfEra / 4 - yearOfEra / 100);
    FromMarch(yearOfEra + era * 400, dayOfYear)
  }

  // ---------- years that start in March ----------

  // Days before March of year `y`, counted from March of year 0.
  function MarchDay(y: int): int {
    365 * y + y / 4 - y / 100 + y / 400
  }

  function MarchLen(y: int): int {
    if Leap(y + 1) then 366 else 365
  }

  lemma MarchStep(y: int)
    ensures MarchDay(y + 1) == MarchDay(y) + MarchLen(y)
  {
    CarryAt(y, 4);
    CarryAt(y, 100);
    CarryAt(y, 400);
    var z := y + 1;
    assert z % 400 == 0 ==> z % 100 == 0;
    assert z % 100 == 0 ==> z % 4 == 0;
  }

  lemma CarryAt(y: int, n: int)
    requires n > 1
    ensures (y + 1) / n == y / n + if (y + 1) % n == 0 then 1 else 0
  {
    var q, r := y / n, y % n;
    assert y == n * q + r;
    if r == n - 1 {
      assert y + 1 == n * (q + 1);
      DivIs(y + 1, n, q + 1, 0);
    } else {
      DivIs(y + 1, n, q, r + 1);
    }
  }

  lemma DivIs(a: int, n: int, q: int, r: int)
    requires n > 0 && a == n * q + r && 0 <= r < n
    ensures a / n == q && a % n == r
  {
    var k := a / n - q;
    assert a == n * (a / n) + a % n;
    assert n * k == n * (a / n) - n * q;
    assert k > 0 ==> n * k >= n;
    assert k < 0 ==> n * k <= -n;
  }

  lemma {:induction false} MarchGrows(a: int, b: int)
    requires a < b
    ensures MarchDay(a) + MarchLen(a) <= MarchDay(b)
    decreases b - a
  {
    MarchStep(a);
    if a + 1 < b {
      MarchGrows(a + 1, b);
    }
  }

  // A day of an era as centuries, four-year cycles, years and days.
  lemma EraParts(e: int) returns (c: int, q: int, t: int, u: int)
    requires 0 <= e < 146_097
    ensures e == 36_524 * c + 1_461 * q + 365 * t + u
    ensures 0 <= c <= 3 && 0 <= q <= 24 && 0 <= t <= 3 && 0 <= u <= 365
    ensures u == 365 ==> t == 3 && (q < 24 || c == 3)
  {
    c := if e / 36_524 <= 3 then e / 36_524 else 3;
    var r := e - 36_524 * c;
    q := r / 1_461;
    var s := r - 1_461 * q;
    t := if s / 365 <= 3 then s / 365 else 3;
    u := s - 365 * t;
  }

  lemma YearOfEraIs(e: int, c: int, q: int, t: int, u: int)
    requires e == 36_524 * c + 1_461 * q + 365 * t + u
    requires 0 <= c <= 3 && 0 <= q <= 24 && 0 <= t <= 3 && 0 <= u <= 365
    requires u == 365 ==> t == 3 && (q < 24 || c == 3)
    ensures YearOfEra(e) == 100 * c + 4 * q + t
  {
    var over := if 24 * c + q + 365 * t + u >= 1_460 then 1 else 0;
    assert e / 1_460 == 25 * c + q + over;
    assert e / 36_524 - e / 146_096 == c by {
      if e == 146_096 {
      } else {
        assert e / 36_524 == c && e / 146_096 == 0;
      }
    }
    assert 0 <= u - over <= 364;
  }

  lemma YearParts(c: int, q: int, t: int)
    requires 0 <= c <= 3 && 0 <= q <= 24 && 0 <= t <= 3
    ensures var y := 100 * c + 4 * q + t; 0 <= y < 400 && y / 4 == 25 * c + q && y / 100 == c
  {
  }

  // The formula puts every day number in its March year.
  lemma CivilIsMarch(n: int) returns (y: int, u: int)
    ensures n + 719_468 == MarchDay(y) + u && 0 <= u < MarchLen(y)
    ensures CivilFromDays(n) == FromMarch(y, u)
  {
    hide YearOfEra, FromMarch, Era, MarchDay, Leap;
    var days := n + 719_468;
    var era := Era(days);
    var e := days - era * 146_097;
    EraBounds(days);
    var c, q, t, k := EraParts(e);
    YearOfEraIs(e, c, q, t, k);
    YearParts(c, q, t);
    var yoe := YearOfEra(e);
    y := yoe + era * 400;
    u := k;
    MarchOfEra(era, yoe);
    LeapOfEra(era, yoe);
    LeapDay(c, q, t, k);
  }

  // Only a year before a leap year has a last day numbered 365.
  lemma LeapDay(c: int, q: int, t: int, u: int)
    requires 0 <= c <= 3 && 0 <= q <= 24 && 0 <= t <= 3 && 0 <= u <= 365
    requires u == 365 ==> t == 3 && (q < 24 || c == 3)
    ensures u == 365 ==> Leap(100 * c + 4 * q + t + 1)
  {
  }

  lemma EraBounds(days: int)
    ensures 0 <= days - Era(days) * 146_097 < 146_097
  {
  }

  lemma MarchOfEra(era: int, yoe: int)
    requires 0 <= yoe < 400
    ensures MarchDay(yoe + era * 400) == era * 146_097 + 365 * yoe + yoe / 4 - yoe / 100
  {
    var y := yoe + era * 400;
    assert y / 4 == yoe / 4 + 100 * era;
    assert y / 100 == yoe / 100 + 4 * era;
    assert y / 400 == era;
  }

  lemma LeapOfEra(era: int, yoe: int)
    ensures Leap(yoe + era * 400 + 1) <==> Leap(yoe + 1)
  {
    var z := yoe + 1;
    var y := z + era * 400;
    DivIs(y, 4, z / 4 + 100 * era, z % 4);
    DivIs(y, 100, z / 100 + 4 * era, z % 100);
    DivIs(y, 400, z / 400 + era, z % 400);
  }

  lemma SameMarchYear(y1: int, u1: int, y2: int, u2: int)
    requires MarchDay(y1) + u1 == MarchDay(y2) + u2 && 0 <= u1 < MarchLen(y1) && 0 <= u2 < MarchLen(y2)
    ensures y1 == y2 && u1 == u2
  {
    hide MarchDay, MarchLen;
    if y1 < y2 {
      MarchGrows(y1, y2);
    } else if y2 < y1 {
      MarchGrows(y2, y1);
    }
  }

  // ---------- months ----------

  // The month parts of a March year: which days they hold.
  lemma MonthOfDay(u: int) returns (part: int)
    requires 0 <= u <= 365
    ensures 0 <= part <= 11 && part == (5 * u + 2) / 153
    ensures (153 * part + 2) / 5 <= u
    ensures part < 11 ==> u < (153 * (part + 1) + 2) / 5
  {
    part := (5 * u + 2) / 153;
  }

  // Month `part` of a March year has as many days as the calendar gives it.
  lemma MonthLength(y: int, part: int)
    requires 0 <= part <= 10
    ensures var d := FromMarch(y, (153 * part + 2) / 5);
            d.day == 1 && (153 * (part + 1) + 2) / 5 - (153 * part + 2) / 5 == DaysIn(d.year, d.month)
            && d.month == part + (if part < 10 then 3 else -9)
  {
  }

  lemma MarchDateIsValid(y: int, u: int)
    requires 0 <= u < MarchLen(y)
    ensures ValidDate(FromMarch(y, u))
  {
    var part := MonthOfDay(u);
    if part <= 10 {
      MonthLength(y, part);
    }
  }

  lemma MarchDateSteps(y: int, u: int)
    requires 0 <= u < MarchLen(y)
    ensures NextDay(FromMarch(y, u)) == if u + 1 < MarchLen(y) then FromMarch(y, u + 1) else FromMarch(y + 1, 0)
  {
    hide Leap;
    var part := MonthOfDay(u);
    if u + 1 == MarchLen(y) {
      YearTurns(y, u);
    } else {
      var next := MonthOfDay(u + 1);
      if next == part {
        DayTurns(y, u, part);
      } else {
        MonthTurns(y, u, part);
      }
    }
  }

  lemma DayTurns(y: int, u: int, part: int)
    requires 0 <= u && u + 1 < MarchLen(y) && (5 * u + 2) / 153 == part == (5 * (u + 1) + 2) / 153
    ensures NextDay(FromMarch(y, u)) == FromMarch(y, u + 1)
  {
    hide Leap;
    if 0 <= part <= 10 {
      MonthLength(y, part);
    }
  }

  lemma MonthTurns(y: int, u: int, part: int)
    requires 0 <= u && u + 1 < MarchLen(y) && (5 * u + 2) / 153 == part != (5 * (u + 1) + 2) / 153
    ensures NextDay(FromMarch(y, u)) == FromMarch(y, u + 1)
  {
    hide Leap;
    var next := MonthOfDay(u + 1);
    MonthLength(y, part);
  }

  lemma YearTurns(y: int, u: int)
    requires u + 1 == MarchLen(y)
    ensures NextDay(FromMarch(y, u)) == FromMarch(y + 1, 0)
  {
  }

  // ---------- the formula is the calendar ----------

  /** Day 0 is the first of January 1970, and each day number gives the calendar's next date, before and after it. */
  lemma FormulaFollowsCalendar(n: int)
    ensures CivilFromDays(0) == Date(1970, 1, 1)
    ensures ValidDate(CivilFromDays(n))
    ensures CivilFromDays(n + 1) == NextDay(CivilFromDays(n))
  {
    hide FromMarch, MarchDay, MarchLen, NextDay, CivilFromDays;
    DayZero();
    var y, u := CivilIsMarch(n);
    var y', u' := CivilIsMarch(n + 1);
    MarchStep(y);
    MarchDateIsValid(y, u);
    MarchDateSteps(y, u);
    if u + 1 < MarchLen(y) {
      SameMarchYear(y', u', y, u + 1);
    } else {
      LongYears(y + 1);
      SameMarchYear(y', u', y + 1, 0);
    }
  }

  lemma DayZero()
    ensures CivilFromDays(0) == Date(1970, 1, 1)
  {
    assert Era(719_468) == 4;
    assert YearOfEra(135_080) == 369;
    assert FromMarch(1969, 306) == Date(1970, 1, 1);
  }

  lemma LongYears(y: int)
    ensures MarchLen(y) >= 365
  {
  }

  // ---------- counting days without the formula ----------

  // Days before the first of January of year `y`.
  function DaysBeforeYear(y: int): int {
    365 * (y - 1) + (y - 1) / 4 - (y - 1) / 100 + (y - 1) / 400
  }

  function DaysBeforeMonth(y: int, m: int): int
    requires 1 <= m
  {
    if m == 1 then 0 else DaysBeforeMonth(y, m - 1) + DaysIn(y, m - 1)
  }

  // The day number of a date: whole years, whole months, days.
  function DayNumber(d: Date): int
    requires ValidDate(d)
  {
    DaysBeforeYear(d.year) - DaysBeforeYear(1970) + DaysBeforeMonth(d.year, d.month) + d.day - 1
  }

  lemma YearLength(y: int)
    ensures DaysBeforeYear(y + 1) == DaysBeforeYear(y) + if Leap(y) then 366 else 365
  {
    MarchStep(y - 1);
  }

  lemma MonthsOfYear(y: int)
    ensures DaysBeforeMonth(y, 12) + DaysIn(y, 12) == if Leap(y) then 366 else 365
  {
    hide Leap;
    assert DaysBeforeMonth(y, 2) == 31;
    assert DaysBeforeMonth(y, 4) == 31 + DaysIn(y, 2) + 31;
    assert DaysBeforeMonth(y, 6) == 31 + DaysIn(y, 2) + 31 + 30 + 31;
    assert DaysBeforeMonth(y, 8) == 31 + DaysIn(y, 2) + 31 + 30 + 31 + 30 + 31;
    assert DaysBeforeMonth(y, 10) == 31 + DaysIn(y, 2) + 31 + 30 + 31 + 30 + 31 + 31 + 30;
  }

  lemma NextDayIsValid(d: Date)
    requires ValidDate(d)
    ensures ValidDate(NextDay(d))
  {
  }

  lemma NumberSteps(d: Date)
    requires ValidDate(d)
    ensures ValidDate(NextDay(d)) && DayNumber(NextDay(d)) == DayNumber(d) + 1
  {
    hide Leap, DaysBeforeYear;
    NextDayIsValid(d);
    MonthsOfYear(d.year);
    YearLength(d.year);
  }

  lemma {:induction false} NumberOfFormula(n: int)
    ensures ValidDate(CivilFromDays(n)) && DayNumber(CivilFromDays(n)) == n
    decreases if n >= 0 then n else -n
  {
    hide CivilFromDays, NextDay, DayNumber;
    FormulaFollowsCalendar(n);
    if n == 0 {
      EpochNumber();
    } else if n > 0 {
      FormulaFollowsCalendar(n - 1);
      NumberOfFormula(n - 1);
      NumberSteps(CivilFromDays(n - 1));
    } else {
      NumberOfFormula(n + 1);
      NumberSteps(CivilFromDays(n));
    }
  }

  lemma EpochNumber()
    ensures DayNumber(Date(1970, 1, 1)) == 0
  {
  }

  predicate Before(a: Date, b: Date) {
    a.year < b.year || (a.year == b.year && (a.month < b.month || (a.month == b.month && a.day < b.day)))
  }

  lemma {:induction false} YearsGrow(a: int, b: int)
    requires a < b
    ensures DaysBeforeYear(a) + (if Leap(a) then 366 else 365) <= DaysBeforeYear(b)
    decreases b - a
  {
    hide DaysBeforeYear, Leap;
    YearLength(a);
    if a + 1 < b {
      YearsGrow(a + 1, b);
    }
  }

  lemma {:induction false} MonthsGrow(y: int, a: int, b: int)
    requires 1 <= a < b
    ensures DaysBeforeMonth(y, a) + DaysIn(y, a) <= DaysBeforeMonth(y, b)
    decreases b
  {
    hide Leap;
    if a + 1 < b {
      MonthsGrow(y, a, b - 1);
    }
  }

  lemma NumbersGrow(a: Date, b: Date)
    requires ValidDate(a) && ValidDate(b) && Before(a, b)
    ensures DayNumber(a) < DayNumber(b)
  {
    hide Leap, DaysBeforeYear, DaysBeforeMonth, DaysIn;
    MonthsOfYear(a.year);
    if a.year < b.year {
      YearsGrow(a.year, b.year);
      if a.month < 12 {
        MonthsGrow(a.year, a.month, 12);
        LastMonth(a.year);
      }
      MonthsNonNegative(b.year, b.month);
    } else if a.month < b.month {
      MonthsGrow(a.year, a.month, b.month);
    }
  }

  lemma LastMonth(y: int)
    ensures DaysIn(y, 12) >= 0
  {
  }

  lemma {:induction false} MonthsNonNegative(y: int, m: int)
    requires 1 <= m
    ensures DaysBeforeMonth(y, m) >= 0
  {
    if m > 1 {
      MonthsNonNegative(y, m - 1);
    }
  }

  /** The formula and counting days by years and months are inverse to each other, on all numbers and all dates. */
  lemma FormulaIsInverse(n: int, d: Date)
    requires ValidDate(d)
    ensures ValidDate(CivilFromDays(n)) && DayNumber(CivilFromDays(n)) == n
    ensures CivilFromDays(DayNumber(d)) == d
  {
    hide CivilFromDays, DayNumber;
    NumberOfFormula(n);
    NumberOfFormula(DayNumber(d));
    var e := CivilFromDays(DayNumber(d));
    if Before(d, e) {
      NumbersGrow(d, e);
    } else if Before(e, d) {
      NumbersGrow(e, d);
    }
  }

  // ---------- 64-bit arithmetic ----------

  predicate I64(x: int) {
    -0x8000_0000_0000_0000 <= x <= 0x7FFF_FFFF_FFFF_FFFF
  }

  // Every intermediate value, in the order it is computed.
  function Intermediates(n: int): seq<int> {
    var days := n + 719_468;
    var era := Era(days);
    var e := days - era * 146_097;
    var y := YearOfEra(e);
    var u := e - (365 * y + y / 4 - y / 100);
    var part := (5 * u + 2) / 153;
    [days, if days >= 0 then days else days - 146_096, era * 146_097, e, 365 * y, y, era * 400, y + era * 400 + 1,
     u, 5 * u + 2, 153 * part + 2]
  }

  /** Nothing overflows 64 bits, for every 64-bit day number but the last 719468, where the first addition does. */
  lemma NoOverflow(n: int)
    requires I64(n)
    ensures (forall i | 0 <= i < |Intermediates(n)| :: I64(Intermediates(n)[i])) <==>
      n <= 0x7FFF_FFFF_FFFF_FFFF - 719_468
  {
    hide Intermediates;
    FirstStep(n);
    if I64(n + 719_468) {
      EveryStepFits(n);
    }
  }

  lemma FirstStep(n: int)
    ensures |Intermediates(n)| == 11 && Intermediates(n)[0] == n + 719_468
  {
    hide YearOfEra, Era;
  }

  lemma EveryStepFits(n: int)
    requires I64(n) && I64(n + 719_468)
    ensures forall i | 0 <= i < |Intermediates(n)| :: I64(Intermediates(n)[i])
  {
  }

  // ---------- timestamps ----------

  datatype Timestamp = Timestamp(date: Date, hour: int, minute: int, second: int, millis: int)

  // A clock reading: how far from the epoch, and on which side of it.
  datatype Reading = After(secs: nat, nanos: nat) | Earlier(secs: nat, nanos: nat)

  function MillisSinceEpoch(r: Reading): int {
    var ms := r.secs * 1000 + r.nanos / 1_000_000;
    if r.After? then ms else -ms
  }

  function TimestampOf(r: Reading): Timestamp {
    var ms := MillisSinceEpoch(r);
    var s := ms / 1000;
    var days := s / 86_400;
    var ofDay := s % 86_400;
    Timestamp(CivilFromDays(days), ofDay / 3_600, ofDay % 3_600 / 60, ofDay % 60, ms % 1000)
  }

  predicate ValidTimestamp(t: Timestamp) {
    ValidDate(t.date) && 0 <= t.hour < 24 && 0 <= t.minute < 60 && 0 <= t.second < 60 && 0 <= t.millis < 1000
  }

  function MillisOf(t: Timestamp): int
    requires ValidTimestamp(t)
  {
    (((DayNumber(t.date) * 24 + t.hour) * 60 + t.minute) * 60 + t.second) * 1000 + t.millis
  }

  /** A timestamp is a valid date and time of day, before the epoch as after it, and loses no millisecond. */
  lemma TimestampIsExact(r: Reading)
    ensures ValidTimestamp(TimestampOf(r)) && MillisOf(TimestampOf(r)) == MillisSinceEpoch(r)
    ensures MillisOf(TimestampOf(r)) ==
      if r.After? then r.secs * 1000 + r.nanos / 1_000_000 else -(r.secs * 1000 + r.nanos / 1_000_000)
  {
    hide CivilFromDays, DayNumber, ValidDate;
    var ms := MillisSinceEpoch(r);
    NumberOfFormula(ms / 1000 / 86_400);
    var ofDay := ms / 1000 % 86_400;
    assert ofDay % 3_600 % 60 == ofDay % 60;
  }

  // No clock of 64-bit seconds reaches a day number that overflows.
  lemma DayNumbersInRange(r: Reading)
    requires r.secs <= 0xFFFF_FFFF_FFFF_FFFF && r.nanos < 1_000_000_000
    ensures var n := MillisSinceEpoch(r) / 1000 / 86_400; I64(n) && n <= 0x7FFF_FFFF_FFFF_FFFF - 719_468
  {
  }
}
