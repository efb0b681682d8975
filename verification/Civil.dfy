/** The build stamp's date arithmetic against the plain Gregorian calendar. */
module Civil {
  import opened Bytes

  datatype Date = Date(year: int, month: int, day: int)

  datatype Stamp = Stamp(date: Date, hour: int, minute: int, second: int)

  // ---- The code's formula ----

  /** Integer division that rounds toward zero, as the source's does. */
  function TruncDiv(a: int, b: int): (q: int)
    requires b > 0
  {
    if a >= 0 then a / b else -((-a) / b)
  }

  /** Year of the 400-year era, from the day of the era. */
  function YearOfEra(doe: int): (yoe: int)
  {
    (doe - doe / 1460 + doe / 36524 - doe / 146096) / 365
  }

  /** A day count since 1970-01-01 as a civil date, in the branch-light form. */
  function CivilFromDays(days: int): (d: Date)
  {
    var z := days + 719468;
    var era := TruncDiv(if z >= 0 then z else z - 146096, 146097);
    var doe := z - era * 146097;
    var yoe := YearOfEra(doe);
    var y := yoe + era * 400;
    var doy := doe - (365 * yoe + yoe / 4 - yoe / 100);
    MarchDate(y, doy)
  }

  /** The date `doy` days after the first of March of year `y`. */
  function MarchDate(y: int, doy: int): (d: Date)
  {
    var mp := (5 * doy + 2) / 153;
    var day := doy - (153 * mp + 2) / 5 + 1;
    var month := if mp < 10 then mp + 3 else mp - 9;
    Date(if month <= 2 then y + 1 else y, month, day)
  }

  /** The fields of the UTC stamp of a non-negative epoch; the source renders nothing for a negative one. */
  function FormatEpochUtc(secs: int): (s: Option<Stamp>)
  {
    if secs < 0 then None
    else
      var days, rem := secs / 86400, secs % 86400;
      Some(Stamp(CivilFromDays(days), rem / 3600, rem % 3600 / 60, rem % 60))
  }

  // ---- The plain calendar ----

  predicate IsLeap(y: int) {
    y % 4 == 0 && (y % 100 != 0 || y % 400 == 0)
  }

  function YearLength(y: int): (n: int)
  {
    if IsLeap(y) then 366 else 365
  }

  function MonthLength(y: int, m: int): (n: int)
  {
    if m == 2 then (if IsLeap(y) then 29 else 28)
    else if m == 4 || m == 6 || m == 9 || m == 11 then 30
    else 31
  }

  predicate ValidDate(d: Date) {
    1 <= d.month <= 12 && 1 <= d.day <= MonthLength(d.year, d.month)
  }

  /** Days from 1970-01-01 to the first of January of `y`, one year at a time. */
  function DaysBeforeYear(y: int): (n: int)
    decreases if y >= 1970 then y - 1970 else 1970 - y
  {
    if y == 1970 then 0
    else if y > 1970 then DaysBeforeYear(y - 1) + YearLength(y - 1)
    else DaysBeforeYear(y + 1) - YearLength(y)
  }

  /** Days from the first of January to the first of month `m`, one month at a time. */
  function DaysBeforeMonth(y: int, m: int): (n: int)
    requires 1 <= m <= 12
  {
    if m == 1 then 0 else DaysBeforeMonth(y, m - 1) + MonthLength(y, m - 1)
  }

  function DayNumber(d: Date): (n: int)
    requires ValidDate(d)
  {
    DaysBeforeYear(d.year) + DaysBeforeMonth(d.year, d.month) + d.day - 1
  }

  predicate Before(a: Date, b: Date) {
    a.year < b.year || (a.year == b.year && (a.month < b.month || (a.month == b.month && a.day < b.day)))
  }

  // ---- The calendar in closed form ----

  /** Leap years before `y`, up to a constant. */
  function Leaps(y: int): (n: int)
  {
    (y - 1) / 4 - (y - 1) / 100 + (y - 1) / 400
  }

  lemma LeapsStep(y: int)
    ensures Leaps(y + 1) == Leaps(y) + (if IsLeap(y) then 1 else 0)
  {
    assert y / 4 == (y - 1) / 4 + (if y % 4 == 0 then 1 else 0);
    assert y / 100 == (y - 1) / 100 + (if y % 100 == 0 then 1 else 0);
    assert y / 400 == (y - 1) / 400 + (if y % 400 == 0 then 1 else 0);
    assert y % 400 == 0 ==> y % 100 == 0;
    assert y % 100 == 0 ==> y % 4 == 0;
  }

  lemma {:induction false} ClosedForm(y: int)
    ensures DaysBeforeYear(y) == 365 * (y - 1970) + Leaps(y) - 477
    decreases if y >= 1970 then y - 1970 else 1970 - y
  {
    if y > 1970 {
      ClosedForm(y - 1);
      LeapsStep(y - 1);
    } else if y < 1970 {
      ClosedForm(y + 1);
      LeapsStep(y);
    }
  }

  lemma MonthStarts(y: int)
    ensures var l := if IsLeap(y) then 1 else 0;
            && DaysBeforeMonth(y, 1) == 0 && DaysBeforeMonth(y, 2) == 31 && DaysBeforeMonth(y, 3) == 59 + l
            && DaysBeforeMonth(y, 4) == 90 + l && DaysBeforeMonth(y, 5) == 120 + l
            && DaysBeforeMonth(y, 6) == 151 + l && DaysBeforeMonth(y, 7) == 181 + l
            && DaysBeforeMonth(y, 8) == 212 + l && DaysBeforeMonth(y, 9) == 243 + l
            && DaysBeforeMonth(y, 10) == 273 + l && DaysBeforeMonth(y, 11) == 304 + l
            && DaysBeforeMonth(y, 12) == 334 + l
  {
    var l := if IsLeap(y) then 1 else 0;
    assert DaysBeforeMonth(y, 2) == 31;
    assert DaysBeforeMonth(y, 3) == 59 + l;
    assert DaysBeforeMonth(y, 4) == 90 + l;
    assert DaysBeforeMonth(y, 5) == 120 + l;
    assert DaysBeforeMonth(y, 6) == 151 + l;
    assert DaysBeforeMonth(y, 7) == 181 + l;
    assert DaysBeforeMonth(y, 8) == 212 + l;
    assert DaysBeforeMonth(y, 9) == 243 + l;
    assert DaysBeforeMonth(y, 10) == 273 + l;
    assert DaysBeforeMonth(y, 11) == 304 + l;
  }

  // ---- The formula, step by step ----

  /** A day of the era as century, four-year cycle, year and day; the last day of a cycle is its leap day. */
  lemma CycleParts(doe: int) returns (c: int, q: int, t: int, k: int)
    requires 0 <= doe < 146097
    ensures 0 <= c <= 3 && 0 <= q <= 24 && 0 <= t <= 3 && 0 <= k <= 365
    ensures doe == 36524 * c + 1461 * q + 365 * t + k
    ensures k == 365 ==> t == 3 && (q < 24 || c == 3)
  {
    c := if doe == 146096 then 3 else doe / 36524;
    var r1 := doe - 36524 * c;
    q := r1 / 1461;
    var r2 := r1 - 1461 * q;
    t := if r2 == 1460 then 3 else r2 / 365;
    k := r2 - 365 * t;
  }

  /** The year formula is exact: the corrections cancel the leap days, and only them. */
  lemma YearOfEraExact(c: int, q: int, t: int, k: int)
    requires 0 <= c <= 3 && 0 <= q <= 24 && 0 <= t <= 3 && 0 <= k <= 365
    requires k == 365 ==> t == 3 && (q < 24 || c == 3)
    ensures YearOfEra(36524 * c + 1461 * q + 365 * t + k) == 100 * c + 4 * q + t
  {
    var doe := 36524 * c + 1461 * q + 365 * t + k;
    var e := if 24 * c + q + 365 * t + k >= 1460 then 1 else 0;
    assert doe / 1460 == 25 * c + q + e;
    var f := if doe == 146096 then 1 else 0;
    assert doe / 36524 == c + f;
    assert doe / 146096 == f;
    assert doe - doe / 1460 + doe / 36524 - doe / 146096 == 365 * (100 * c + 4 * q + t) + (k - e);
    assert 0 <= k - e < 365;
  }

  lemma FloorEra(z: int)
    ensures TruncDiv(if z >= 0 then z else z - 146096, 146097) == z / 146097
    ensures 0 <= z - z / 146097 * 146097 < 146097
  {
  }

  /** The first of March of year `y` as a day number, in closed form. */
  lemma MarchFirst(yoe: int, era: int)
    requires 0 <= yoe < 400
    ensures var y := yoe + era * 400;
            DaysBeforeYear(y) + 59 + (if IsLeap(y) then 1 else 0) + 719468 ==
            era * 146097 + 365 * yoe + yoe / 4 - yoe / 100
  {
    var y := yoe + era * 400;
    ClosedForm(y);
    LeapsStep(y);
    assert y / 4 == yoe / 4 + 100 * era;
    assert y / 100 == yoe / 100 + 4 * era;
    assert y / 400 == era;
  }

  /** The month formula, for a day counted from the first of March. */
  lemma MonthOfYear(y: int, doy: int)
    requires 0 <= doy <= 364 || (doy == 365 && IsLeap(y + 1))
    ensures var d := MarchDate(y, doy);
            ValidDate(d) && DayNumber(d) == DaysBeforeYear(y) + 59 + (if IsLeap(y) then 1 else 0) + doy
  {
    MonthStarts(y);
    MonthStarts(y + 1);
    ClosedForm(y);
    ClosedForm(y + 1);
    LeapsStep(y);
  }

  /** Every day count becomes the valid date the plain calendar gives that number. */
  lemma CivilIsCalendar(days: int)
    ensures ValidDate(CivilFromDays(days)) && DayNumber(CivilFromDays(days)) == days
  {
    hide DaysBeforeYear, DayNumber, ValidDate, MarchDate, YearOfEra, IsLeap, TruncDiv;
    var z := days + 719468;
    var era := z / 146097;
    FloorEra(z);
    var doe := z - era * 146097;
    var c, q, t, k := CycleParts(doe);
    YearOfEraExact(c, q, t, k);
    YearStart(c, q, t);
    var yoe := 100 * c + 4 * q + t;
    if k == 365 {
      LeapAtCycleEnd(c, q, era);
    }
    MonthOfYear(yoe + era * 400, k);
    MarchFirst(yoe, era);
  }

  lemma YearStart(c: int, q: int, t: int)
    requires 0 <= c <= 3 && 0 <= q <= 24 && 0 <= t <= 3
    ensures var yoe := 100 * c + 4 * q + t;
            0 <= yoe < 400 && 365 * yoe + yoe / 4 - yoe / 100 == 36524 * c + 1461 * q + 365 * t
  {
    var yoe := 100 * c + 4 * q + t;
    assert yoe / 4 == 25 * c + q && yoe / 100 == c;
  }

  lemma LeapAtCycleEnd(c: int, q: int, era: int)
    requires 0 <= c <= 3 && 0 <= q <= 24 && (q < 24 || c == 3)
    ensures IsLeap(100 * c + 4 * q + 3 + era * 400 + 1)
  {
    var y := 100 * c + 4 * q + 4;
    LeapPeriod(y, era);
    assert y % 4 == 0;
    assert q < 24 ==> y % 100 == 4 * q + 4;
    assert q == 24 && c == 3 ==> y == 400;
  }

  lemma LeapPeriod(y: int, era: int)
    ensures IsLeap(y + era * 400) == IsLeap(y)
  {
    Periodic(y, 400, era);
    Periodic(y, 100, 4 * era);
    Periodic(y, 4, 100 * era);
  }

  lemma Periodic(y: int, n: int, k: int)
    requires n > 0
    ensures (y + k * n) % n == y % n
  {
    var q, r := y / n, y % n;
    var d := (y + k * n) / n - (q + k);
    assert y + k * n == n * (q + k) + r;
    assert n * ((q + k) + d) == n * (q + k) + n * d;
    assert d >= 1 ==> n * d >= n;
    assert d <= -1 ==> n * d + n <= 0;
  }

  /** A later date has a later day number. */
  lemma LaterDate(a: Date, b: Date)
    requires ValidDate(a) && ValidDate(b) && Before(a, b)
    ensures DayNumber(a) < DayNumber(b)
  {
    MonthStarts(a.year);
    MonthStarts(b.year);
    if a.year < b.year {
      YearsGrow(a.year, b.year);
    }
  }

  lemma {:induction false} YearsGrow(a: int, b: int)
    requires a < b
    ensures DaysBeforeYear(a) + YearLength(a) <= DaysBeforeYear(b)
    decreases b - a
  {
    ClosedForm(a);
    ClosedForm(a + 1);
    LeapsStep(a);
    if a + 1 < b {
      YearsGrow(a + 1, b);
    }
  }

  /** The formula never repeats or reorders a day. */
  lemma CivilIncreases(a: int, b: int)
    requires a < b
    ensures Before(CivilFromDays(a), CivilFromDays(b))
  {
    hide CivilFromDays, DayNumber, ValidDate;
    CivilIsCalendar(a);
    CivilIsCalendar(b);
    var x, y := CivilFromDays(a), CivilFromDays(b);
    if Before(y, x) {
      LaterDate(y, x);
    }
  }

  /** Every valid date is reached, and from its own day number: the formula inverts the calendar. */
  lemma CivilInvertsCalendar(d: Date)
    requires ValidDate(d)
    ensures CivilFromDays(DayNumber(d)) == d
  {
    hide CivilFromDays, DayNumber, ValidDate;
    var e := CivilFromDays(DayNumber(d));
    CivilIsCalendar(DayNumber(d));
    if Before(d, e) {
      LaterDate(d, e);
    } else if Before(e, d) {
      LaterDate(e, d);
    }
  }

  /** The stamp is a valid instant of the calendar, and its fields recombine to the epoch seconds. */
  lemma StampRecombines(secs: int)
    ensures FormatEpochUtc(secs).Some? <==> secs >= 0
    ensures secs >= 0 ==>
            var s := FormatEpochUtc(secs).value;
            && ValidDate(s.date) && 0 <= s.hour < 24 && 0 <= s.minute < 60 && 0 <= s.second < 60
            && DayNumber(s.date) * 86400 + s.hour * 3600 + s.minute * 60 + s.second == secs
  {
    hide CivilFromDays, DayNumber;
    CivilIsCalendar(secs / 86400);
  }
}
