/**
 * Civil time with fixed-offset zones: the part of Go's `time` package that
 * the calendar server relies on. An instant is an integer count of
 * nanoseconds since 1970-01-01T00:00:00Z; a zone is a fixed offset in
 * seconds east of UTC; a `time.Time` value is an instant together with the
 * offset it is displayed in.
 */
module Civil {

  // Units are written as numerals so that the solver sees linear arithmetic:
  //   1_000_000_000          nanoseconds per second
  //   60_000_000_000         nanoseconds per minute
  //   3_600_000_000_000      nanoseconds per hour
  //   86_400_000_000_000     nanoseconds per day (24 h)
  //   146_097                days per 400-year Gregorian cycle (an era)
  //   719_468                days from 0000-03-01 to 1970-01-01

  /** Wall-clock fields, as Go's Year(), Month(), Day(), Hour(), ... report them. */
  datatype Fields = Fields(year: int, month: int, day: int,
                           hour: int, minute: int, second: int, nanosecond: int)

  /** A Go `time.Time`: an instant and the zone offset (seconds) it is shown in. */
  datatype Time = Time(at: int, offset: int)

  predicate IsLeapYear(y: int) {
    y % 4 == 0 && (y % 100 != 0 || y % 400 == 0)
  }

  function DaysInMonth(y: int, m: int): int
    requires 1 <= m <= 12
  {
    if m == 2 then (if IsLeapYear(y) then 29 else 28)
    else if m == 4 || m == 6 || m == 9 || m == 11 then 30
    else 31
  }

  predicate ValidDate(y: int, m: int, d: int) {
    1 <= m <= 12 && 1 <= d <= DaysInMonth(y, m)
  }

  /** Fields that name exactly one wall-clock reading (no normalisation needed). */
  predicate ValidFields(f: Fields) {
    ValidDate(f.year, f.month, f.day) &&
    0 <= f.hour < 24 && 0 <= f.minute < 60 && 0 <= f.second < 60 &&
    0 <= f.nanosecond < 1_000_000_000
  }

  // ---------------------------------------------------------------------
  // Days from civil and back, counting years from March so that the leap
  // day is the last day of its year.

  /** Days from March 1 of year 0 of an era to March 1 of year `yoe`. */
  function YearStart(yoe: int): int {
    365 * yoe + yoe / 4 - yoe / 100
  }

  /** Length of the March-based year `yoe` of an era (0 <= yoe < 400). */
  function MarchYearLength(yoe: int): int {
    if (yoe + 1) % 4 == 0 && ((yoe + 1) % 100 != 0 || yoe == 399) then 366 else 365
  }

  /** Days from March 1 to the first day of March-based month `mp` (March = 0). */
  function MonthStart(mp: int): int {
    (153 * mp + 2) / 5
  }

  /** The March-based year of an era that holds day `doe` of the era:
      whole centuries, then four-year groups, then single years. */
  function YearOfEra(doe: int): int
    requires 0 <= doe < 146_097
  {
    var c := if doe / 36524 < 3 then doe / 36524 else 3;
    var doc := doe - 36524 * c;
    var g := doc / 1461;
    var dog := doc - 1461 * g;
    var k := if dog / 365 < 3 then dog / 365 else 3;
    100 * c + 4 * g + k
  }

  lemma YearOfEraBounds(doe: int)
    requires 0 <= doe < 146_097
    ensures 0 <= YearOfEra(doe) < 400
    ensures YearStart(YearOfEra(doe)) <= doe < YearStart(YearOfEra(doe)) + MarchYearLength(YearOfEra(doe))
  {
    var c := if doe / 36524 < 3 then doe / 36524 else 3;
    var doc := doe - 36524 * c;
    assert 0 <= c <= 3;
    assert 0 <= doc < 36524 || (c == 3 && doc == 36524);
    var g := doc / 1461;
    var dog := doc - 1461 * g;
    assert 0 <= g <= 24 && 0 <= dog < 1461;
    assert g == 24 ==> dog <= 1460 && (dog == 1460 ==> c == 3);
    var k := if dog / 365 < 3 then dog / 365 else 3;
    assert 0 <= k <= 3 && 365 * k <= dog;
    assert dog - 365 * k < 365 || (k == 3 && dog - 365 * k == 365);
    var yoe := 100 * c + 4 * g + k;
    assert YearOfEra(doe) == yoe;
    assert yoe / 4 == 25 * c + g;
    assert yoe / 100 == c;
    assert YearStart(yoe) == 36524 * c + 1461 * g + 365 * k;
  }


  lemma YearStartStep(a: int)
    requires 0 <= a < 399
    ensures YearStart(a + 1) == YearStart(a) + MarchYearLength(a)
  {
  }

  lemma YearStartMonotone(a: int, b: int)
    requires 0 <= a <= b
    ensures YearStart(a) <= YearStart(b)
  {
    assert b / 4 >= a / 4;
    assert b / 100 - a / 100 <= (b - a) / 100 + 1;
  }

  /** The year of an era is determined by any day inside it. */
  lemma YearOfEraUnique(yoe: int, doy: int)
    requires 0 <= yoe < 400 && 0 <= doy < MarchYearLength(yoe)
    ensures 0 <= YearStart(yoe) + doy < 146_097
    ensures YearOfEra(YearStart(yoe) + doy) == yoe
  {
    var doe := YearStart(yoe) + doy;
    if yoe < 399 {
      YearStartStep(yoe);
      YearStartMonotone(yoe + 1, 399);
    }
    assert YearStart(399) + 366 == 146_097;
    YearOfEraBounds(doe);
    var y := YearOfEra(doe);
    if y < yoe {
      YearStartStep(y);
      YearStartMonotone(y + 1, yoe);
      assert false;
    } else if y > yoe {
      YearStartStep(yoe);
      YearStartMonotone(yoe + 1, y);
      assert false;
    }
  }

  /** The March-based month (March = 0) holding day `doy` of a March-based year. */
  function MonthOfYear(doy: int): int {
    (5 * doy + 2) / 153
  }

  lemma MonthOfYearBounds(doy: int)
    requires 0 <= doy < 366
    ensures 0 <= MonthOfYear(doy) < 12
    ensures MonthStart(MonthOfYear(doy)) <= doy < MonthStart(MonthOfYear(doy) + 1)
  {
  }

  lemma MonthOfYearUnique(mp: int, dom: int)
    requires 0 <= mp < 12 && 0 <= dom < MonthStart(mp + 1) - MonthStart(mp)
    ensures MonthOfYear(MonthStart(mp) + dom) == mp
  {
  }

  datatype Date = Date(year: int, month: int, day: int)

  /** Day number (days since 1970-01-01) of a date whose month is 1..12; the
      day of the month is not range-checked, it counts on linearly as in Go. */
  function DaysFromCivil(y: int, m: int, d: int): int
    requires 1 <= m <= 12
  {
    var y' := if m <= 2 then y - 1 else y;
    var era := y' / 400;
    var yoe := y' % 400;
    var mp := if m > 2 then m - 3 else m + 9;
    era * 146_097 + YearStart(yoe) + MonthStart(mp) + d - 1 - 719_468
  }

  /** The civil date of day number `n` (days since 1970-01-01). */
  function CivilFromDays(n: int): Date {
    var z := n + 719_468;
    DateInEra(z / 146_097, z % 146_097)
  }

  /** The civil date of day `doe` of era `era` (eras start on 0000-03-01). */
  function DateInEra(era: int, doe: int): Date
    requires 0 <= doe < 146_097
  {
    var yoe := YearOfEra(doe);
    var doy := doe - YearStart(yoe);
    var mp := MonthOfYear(doy);
    var d := doy - MonthStart(mp) + 1;
    var m := if mp < 10 then mp + 3 else mp - 9;
    Date(era * 400 + yoe + (if m <= 2 then 1 else 0), m, d)
  }

  /** A Gregorian month's length agrees with the March-based month table, with
      February taking what is left of the March-based year. */
  lemma MonthLengthAgrees(y: int, m: int, yoe: int)
    requires 1 <= m <= 12 && 0 <= yoe < 400
    requires yoe == (if m <= 2 then y - 1 else y) % 400
    ensures var mp := if m > 2 then m - 3 else m + 9;
      DaysInMonth(y, m) == (if mp == 11 then MarchYearLength(yoe) - MonthStart(11)
                            else MonthStart(mp + 1) - MonthStart(mp))
  {
    if m == 2 {
      var q := (y - 1) / 400;
      assert y == 400 * q + yoe + 1;
      LeapYearShift(q, yoe + 1);
    }
  }

  lemma LeapYearShift(q: int, x: int)
    ensures IsLeapYear(400 * q + x) == IsLeapYear(x)
  {
    var y := 400 * q + x;
    DivModUnique(y, 100 * q + x / 4, x % 4, 4);
    DivModUnique(y, 4 * q + x / 100, x % 100, 100);
    DivModUnique(y, q + x / 400, x % 400, 400);
  }

  /** Every day number names a valid date, and that date names the day number back. */
  lemma DaysFromCivilOfCivil(n: int)
    ensures ValidDate(CivilFromDays(n).year, CivilFromDays(n).month, CivilFromDays(n).day)
    ensures DaysFromCivil(CivilFromDays(n).year, CivilFromDays(n).month, CivilFromDays(n).day) == n
  {
    var z := n + 719_468;
    DateInEraValid(z / 146_097, z % 146_097);
  }

  lemma DateInEraValid(era: int, doe: int)
    requires 0 <= doe < 146_097
    ensures var r := DateInEra(era, doe);
      ValidDate(r.year, r.month, r.day) &&
      DaysFromCivil(r.year, r.month, r.day) == era * 146_097 + doe - 719_468
  {
    YearOfEraBounds(doe);
    var yoe := YearOfEra(doe);
    var doy := doe - YearStart(yoe);
    MonthOfYearBounds(doy);
    var mp := MonthOfYear(doy);
    var d := doy - MonthStart(mp) + 1;
    var m := if mp < 10 then mp + 3 else mp - 9;
    var y := era * 400 + yoe + (if m <= 2 then 1 else 0);
    assert DateInEra(era, doe) == Date(y, m, d);
    var y' := if m <= 2 then y - 1 else y;
    DivModUnique(y', era, yoe, 400);
    MonthLengthAgrees(y, m, yoe);
  }

  /** Every valid date survives the trip to a day number and back. */
  lemma CivilOfDaysFromCivil(y: int, m: int, d: int)
    requires ValidDate(y, m, d)
    ensures CivilFromDays(DaysFromCivil(y, m, d)) == Date(y, m, d)
  {
    var y' := if m <= 2 then y - 1 else y;
    var mp := if m > 2 then m - 3 else m + 9;
    var doe := YearStart(y' % 400) + MonthStart(mp) + d - 1;
    DateInEraOfCivil(y, m, d);
    CivilFromDaysAt(DaysFromCivil(y, m, d), y' / 400, doe);
  }

  /** A day number `era * 146_097 + doe` days after 0000-03-01 is day `doe` of era `era`. */
  lemma CivilFromDaysAt(n: int, era: int, doe: int)
    requires 0 <= doe < 146_097 && n + 719_468 == era * 146_097 + doe
    ensures CivilFromDays(n) == DateInEra(era, doe)
  {
    assert (n + 719_468) / 146_097 == era && (n + 719_468) % 146_097 == doe by {
      DivModUnique(n + 719_468, era, doe, 146_097);
    }
  }

  lemma DateInEraOfCivil(y: int, m: int, d: int)
    requires ValidDate(y, m, d)
    ensures var y' := if m <= 2 then y - 1 else y;
      var yoe := y' % 400;
      var mp := if m > 2 then m - 3 else m + 9;
      var doe := YearStart(yoe) + MonthStart(mp) + d - 1;
      0 <= doe < 146_097 && DateInEra(y' / 400, doe) == Date(y, m, d)
  {
    var y' := if m <= 2 then y - 1 else y;
    var era := y' / 400;
    var yoe := y' % 400;
    var mp := if m > 2 then m - 3 else m + 9;
    MonthLengthAgrees(y, m, yoe);
    var doy := MonthStart(mp) + d - 1;
    YearOfEraUnique(yoe, doy);
    MonthOfYearUnique(mp, d - 1);
  }


  // ---------------------------------------------------------------------
  // Instants and wall-clock fields.

  /** Nanoseconds since local midnight named by the clock fields. */
  function ClockNanos(f: Fields): int {
    f.hour * 3_600_000_000_000 + f.minute * 60_000_000_000 + f.second * 1_000_000_000 + f.nanosecond
  }

  /**
   * Go's `time.Date(year, month, day, hour, min, sec, nsec, loc)` for a zone
   * of fixed offset `offset` seconds, as an instant. Out-of-range months
   * fold into the year; day, hour, minute, second and nanosecond count on
   * linearly, which is how Go normalises them.
   */
  function ToUTC(f: Fields, offset: int): int {
    var m0 := f.month - 1;
    DaysFromCivil(f.year + m0 / 12, m0 % 12 + 1, f.day) * 86_400_000_000_000
      + ClockNanos(f) - offset * 1_000_000_000
  }

  /** The day number of the local date on which instant `at` falls. */
  function LocalDays(at: int, offset: int): int {
    (at + offset * 1_000_000_000) / 86_400_000_000_000
  }

  /**
   * The wall-clock fields of instant `at` shown in a zone of offset `offset`
   * (what Year(), Month(), ..., Nanosecond() report after `In(loc)`).
   */
  function ToLocal(at: int, offset: int): (f: Fields)
    ensures ValidFields(f)
    ensures 0 <= ClockNanos(f) < 86_400_000_000_000
  {
    var local := at + offset * 1_000_000_000;
    FieldsAt(local / 86_400_000_000_000, local % 86_400_000_000_000)
  }

  /** The fields of the reading `rem` nanoseconds into day number `days`. */
  function FieldsAt(days: int, rem: int): (f: Fields)
    requires 0 <= rem < 86_400_000_000_000
    ensures ValidFields(f) && ClockNanos(f) == rem
    ensures DaysFromCivil(f.year, f.month, f.day) == days
  {
    DaysFromCivilOfCivil(days);
    ClockSplit(rem);
    var date := CivilFromDays(days);
    Fields(date.year, date.month, date.day,
           rem / 3_600_000_000_000, rem / 60_000_000_000 % 60,
           rem / 1_000_000_000 % 60, rem % 1_000_000_000)
  }

  lemma ClockSplit(rem: int)
    requires 0 <= rem < 86_400_000_000_000
    ensures rem == (rem / 3_600_000_000_000) * 3_600_000_000_000 + (rem / 60_000_000_000 % 60) * 60_000_000_000
                   + (rem / 1_000_000_000 % 60) * 1_000_000_000 + rem % 1_000_000_000
    ensures 0 <= rem / 3_600_000_000_000 < 24
  {
    var s := rem / 1_000_000_000;
    assert rem == s * 1_000_000_000 + rem % 1_000_000_000;
    var mi := rem / 60_000_000_000;
    assert mi == s / 60;
    assert s == mi * 60 + s % 60;
    assert rem / 3_600_000_000_000 == mi / 60;
    assert mi == (mi / 60) * 60 + mi % 60;
  }

  /** The fields of a Go time value, in its own zone. */
  function FieldsOf(t: Time): Fields {
    ToLocal(t.at, t.offset)
  }

  /** `t.In(loc)`: the same instant, shown in another zone. */
  function In(t: Time, offset: int): (r: Time)
    ensures r.at == t.at && r.offset == offset
  {
    Time(t.at, offset)
  }

  /** Go's `Weekday()`: Sunday = 0; 1970-01-01 was a Thursday. */
  function Weekday(t: Time): (w: int)
    ensures 0 <= w < 7
  {
    (LocalDays(t.at, t.offset) + 4) % 7
  }

  /** The weekday of a wall-clock reading, in any zone, is that of its date:
      the date's day number plus 4 (1970-01-01 was a Thursday), modulo 7. */
  lemma WeekdayOfDate(f: Fields, offset: int)
    requires ValidFields(f)
    ensures Weekday(Time(ToUTC(f, offset), offset)) == (DaysFromCivil(f.year, f.month, f.day) + 4) % 7
  {
    var days := DaysFromCivil(f.year, f.month, f.day);
    ToUTCOfValidMonth(f, offset);
    ClockFields(f);
    DivModUnique(ToUTC(f, offset) + offset * 1_000_000_000, days, ClockNanos(f), 86_400_000_000_000);
  }

  /** Code 0 is Sunday: every reading dated 1970-01-04, a Sunday, has weekday 0. */
  lemma WeekdaySunday(f: Fields, offset: int)
    requires ValidFields(f) && f.year == 1970 && f.month == 1 && f.day == 4
    ensures Weekday(Time(ToUTC(f, offset), offset)) == 0
  {
    WeekdayOfDate(f, offset);
    var days := DaysFromCivil(f.year, f.month, f.day);
    assert days == 3 by {
      SundayNumber();
    }
    assert (days + 4) % 7 == 0;
  }

  /** 1970-01-04 is day number 3. */
  lemma SundayNumber()
    ensures DaysFromCivil(1970, 1, 4) == 3
  {
  }

  /** Reading the fields of an instant and building the instant from them is the identity. */
  lemma ToUTCOfToLocal(at: int, offset: int)
    ensures ToUTC(ToLocal(at, offset), offset) == at
  {
    var local := at + offset * 1_000_000_000;
    var f := ToLocal(at, offset);
    ToUTCOfValidMonth(f, offset);
    DayDivMod(local);
  }

  /** For a month already in 1..12 nothing is folded into the year. */
  lemma ToUTCOfValidMonth(f: Fields, offset: int)
    requires 1 <= f.month <= 12
    ensures ToUTC(f, offset) == DaysFromCivil(f.year, f.month, f.day) * 86_400_000_000_000
                                + ClockNanos(f) - offset * 1_000_000_000
  {
    assert (f.month - 1) / 12 == 0 && (f.month - 1) % 12 + 1 == f.month;
  }

  /** Quotient and remainder are determined by any decomposition with the remainder in range. */
  lemma DivModUnique(x: int, q: int, r: int, d: int)
    requires 0 < d && 0 <= r < d && x == q * d + r
    ensures x / d == q && x % d == r
  {
    var q', r' := x / d, x % d;
    assert x == q' * d + r' && 0 <= r' < d;
    assert (q' - q) * d == r - r' by {
      assert (q' - q) * d == q' * d - q * d;
    }
    if q' > q {
      MulAtLeast(q' - q, d);
    } else if q' < q {
      MulAtLeast(q - q', d);
    }
  }

  lemma MulAtLeast(a: int, d: int)
    requires a >= 1 && d > 0
    ensures a * d >= d
  {
    assert a * d == (a - 1) * d + d;
    assert (a - 1) * d >= 0;
  }

  lemma DayDivMod(x: int)
    ensures x == (x / 86_400_000_000_000) * 86_400_000_000_000 + x % 86_400_000_000_000
    ensures 0 <= x % 86_400_000_000_000 < 86_400_000_000_000
  {
    assert x == (x / 86_400_000_000_000) * 86_400_000_000_000 + x % 86_400_000_000_000;
  }

  /** Building an instant from valid fields and reading its fields back gives the same fields. */
  lemma ToLocalOfToUTC(f: Fields, offset: int)
    requires ValidFields(f)
    ensures ToLocal(ToUTC(f, offset), offset) == f
  {
    FieldsAtOfFields(f);
    ToUTCOfValidMonth(f, offset);
    ToLocalAt(ToUTC(f, offset), offset, DaysFromCivil(f.year, f.month, f.day), ClockNanos(f));
  }

  /** An instant whose local reading is `rem` nanoseconds into day `days` has the fields of that reading. */
  lemma ToLocalAt(at: int, offset: int, days: int, rem: int)
    requires 0 <= rem < 86_400_000_000_000
    requires at + offset * 1_000_000_000 == days * 86_400_000_000_000 + rem
    ensures ToLocal(at, offset) == FieldsAt(days, rem)
  {
    assert (at + offset * 1_000_000_000) / 86_400_000_000_000 == days &&
           (at + offset * 1_000_000_000) % 86_400_000_000_000 == rem by {
      DivModUnique(at + offset * 1_000_000_000, days, rem, 86_400_000_000_000);
    }
  }

  lemma FieldsAtOfFields(f: Fields)
    requires ValidFields(f)
    ensures 0 <= ClockNanos(f) < 86_400_000_000_000
    ensures FieldsAt(DaysFromCivil(f.year, f.month, f.day), ClockNanos(f)) == f
  {
    ClockFields(f);
    CivilOfDaysFromCivil(f.year, f.month, f.day);
  }

  lemma ClockFields(f: Fields)
    requires 0 <= f.hour < 24 && 0 <= f.minute < 60 && 0 <= f.second < 60
    requires 0 <= f.nanosecond < 1_000_000_000
    ensures var c := ClockNanos(f);
      0 <= c < 86_400_000_000_000 &&
      c / 3_600_000_000_000 == f.hour && c / 60_000_000_000 % 60 == f.minute &&
      c / 1_000_000_000 % 60 == f.second && c % 1_000_000_000 == f.nanosecond
  {
    var c := ClockNanos(f);
    var s := (f.hour * 60 + f.minute) * 60 + f.second;
    assert c == s * 1_000_000_000 + f.nanosecond;
    assert c / 1_000_000_000 == s && c % 1_000_000_000 == f.nanosecond;
    var mi := f.hour * 60 + f.minute;
    assert c == mi * 60_000_000_000 + (f.second * 1_000_000_000 + f.nanosecond);
    assert c / 60_000_000_000 == mi;
    assert c == f.hour * 3_600_000_000_000 + (f.minute * 60_000_000_000 + f.second * 1_000_000_000 + f.nanosecond);
    assert c / 3_600_000_000_000 == f.hour;
  }

  /** One day later, the weekday moves on by one, wrapping from Saturday to Sunday. */
  lemma WeekdayNextDay(at: int, offset: int)
    ensures Weekday(Time(at + 86_400_000_000_000, offset)) == (Weekday(Time(at, offset)) + 1) % 7
  {
    var local := at + offset * 1_000_000_000;
    assert LocalDays(at + 86_400_000_000_000, offset) == LocalDays(at, offset) + 1 by {
      DayDivMod(local);
      DivModUnique(local + 86_400_000_000_000, local / 86_400_000_000_000 + 1, local % 86_400_000_000_000, 86_400_000_000_000);
    }
  }

}
