/**
 The broken-down time the watch hands to the face each minute, and the
 conversion from a calendar date to a Julian Day Number (`tm2jd`).
 */
module Calendar {
  import opened CArith

  /** The fields of the host's `PblTm` that the face reads. As in C's
      `struct tm`, `year` counts from 1900 and `mon` counts from 0 (January). */
  datatype PblTm = PblTm(
    minute: int,  // tm_min, 0..59
    hour: int,    // tm_hour, 0..23
    mday: int,    // tm_mday, 1..31
    mon: int,     // tm_mon, 0..11
    year: int,    // tm_year, years since 1900
    wday: int     // tm_wday, 0..6 with 0 = Sunday
  )

  /** The classic integer civil-to-JDN formula on a 1-based month,
      with every division truncating toward zero as C's `/` does. */
  function CivilToJdn(y: int, m: int, d: int): int {
    var k := TruncDiv(m - 14, 12);
    d - 32075
      + TruncDiv(1461 * (y + 4800 + k), 4)
      + TruncDiv(367 * (m - 2 - k * 12), 12)
      - TruncDiv(3 * TruncDiv(y + 4900 + k, 100), 4)
  }

  /** `tm2jd`: the Julian Day Number of the date in `t`. */
  function Tm2Jd(t: PblTm): int {
    CivilToJdn(t.year + 1900, t.mon + 1, t.mday)
  }

  // ---------------------------------------------------------------------
  // An independent reference: the proleptic Gregorian calendar.
  // ---------------------------------------------------------------------

  predicate IsLeapYear(y: int) {
    y % 4 == 0 && (y % 100 != 0 || y % 400 == 0)
  }

  /** Length of month `m` (1-based) of year `y`. */
  function DaysInMonth(y: int, m: int): (n: int)
    requires 1 <= m <= 12
    ensures 28 <= n <= 31
    ensures n == 29 <==> m == 2 && IsLeapYear(y)
  {
    if m == 2 then (if IsLeapYear(y) then 29 else 28)
    else if m == 4 || m == 6 || m == 9 || m == 11 then 30
    else 31
  }

  /** The date fields of `t` name a real day of the Gregorian calendar. */
  predicate ValidDate(t: PblTm) {
    0 <= t.mon <= 11 && 1 <= t.mday <= DaysInMonth(t.year + 1900, t.mon + 1)
  }

  /** The calendar day after `t` (only the date fields move). */
  function NextDay(t: PblTm): (s: PblTm)
    requires ValidDate(t)
    ensures ValidDate(s)
    ensures (s.year, s.mon, s.mday) != (t.year, t.mon, t.mday)
  {
    if t.mday < DaysInMonth(t.year + 1900, t.mon + 1) then t.(mday := t.mday + 1)
    else if t.mon < 11 then t.(mon := t.mon + 1, mday := 1)
    else t.(year := t.year + 1, mon := 0, mday := 1)
  }

  /** Years from which every dividend in the formula is non-negative,
      so C's truncation and floor division coincide. */
  const MinYear: int := -4799

  // ---------------------------------------------------------------------
  // Properties of tm2jd.
  // ---------------------------------------------------------------------

  /** The only negative dividend: `(m-14)/12` is -1 for January and February
      and 0 for March to December under truncation. */
  lemma MonthShift(m: int)
    requires 1 <= m <= 12
    ensures TruncDiv(m - 14, 12) == (if m <= 2 then -1 else 0)
  {
    TruncDivUnique(m - 14, 12, if m <= 2 then -1 else 0);
  }

  /** Floor division would be wrong here: for every month but February,
      Dafny's Euclidean `(m-14)/12` differs from the C quotient. */
  lemma MonthShiftNotFloor(m: int)
    requires 1 <= m <= 12 && m != 2
    ensures (m - 14) / 12 != TruncDiv(m - 14, 12)
  {
    MonthShift(m);
  }

  /** 1 January 2000 (tm_year 100, tm_mon 0, tm_mday 1) is JDN 2451545. */
  lemma Tm2JdEpoch2000(t: PblTm)
    requires t.year == 100 && t.mon == 0 && t.mday == 1
    ensures Tm2Jd(t) == 2451545
  {
    MonthShift(1);
  }

  /** The day of the month enters only additively. */
  lemma Tm2JdDayShift(t: PblTm, k: int)
    ensures Tm2Jd(t.(mday := t.mday + k)) == Tm2Jd(t) + k
  {
  }

  /** Month shift of the formula: -1 for January and February, else 0. */
  function Shift(m: int): int {
    if m <= 2 then -1 else 0
  }

  /** The year-dependent part of the formula, in floor division. */
  function YearTerm(y: int, k: int): int {
    (1461 * (y + 4800 + k)) / 4 - (3 * ((y + 4900 + k) / 100)) / 4
  }

  /** The month-dependent part of the formula, in floor division. */
  function MonthTerm(m: int, k: int): int {
    (367 * (m - 2 - k * 12)) / 12
  }

  /** `CivilToJdn` with its divisions written as Euclidean ones, valid once no dividend is negative. */
  lemma CivilToJdnFloor(y: int, m: int, d: int)
    requires y >= MinYear && 1 <= m <= 12
    ensures CivilToJdn(y, m, d) == d - 32075 + YearTerm(y, Shift(m)) + MonthTerm(m, Shift(m))
  {
    var k := Shift(m);
    MonthShift(m);
    TruncDivOfNonNegative(1461 * (y + 4800 + k), 4);
    TruncDivOfNonNegative(367 * (m - 2 - k * 12), 12);
    TruncDivOfNonNegative(y + 4900 + k, 100);
    TruncDivOfNonNegative(3 * ((y + 4900 + k) / 100), 4);
  }

  /** Moving the year term on by one year adds 365 days, or 366 every fourth year. */
  lemma QuadrennialStep(a: int)
    requires a >= 1
    ensures (1461 * a) / 4 - (1461 * (a - 1)) / 4 == 365 + (if a % 4 == 0 then 1 else 0)
  {
    var q, r := a / 4, a % 4;
    assert a == 4 * q + r;
    assert 1461 * a == 4 * (365 * a + q) + r;
    assert (1461 * a) / 4 == 365 * a + q;
    if r == 0 {
      assert 1461 * (a - 1) == 4 * (365 * (a - 1) + q - 1) + 3;
      assert (1461 * (a - 1)) / 4 == 365 * (a - 1) + q - 1;
    } else {
      assert 1461 * (a - 1) == 4 * (365 * (a - 1) + q) + (r - 1);
      assert (1461 * (a - 1)) / 4 == 365 * (a - 1) + q;
    }
  }

  /** The century correction drops a day when a century begins, except every fourth century. */
  lemma CenturyStep(b: int)
    requires b >= 100
    ensures (3 * (b / 100)) / 4 - (3 * ((b - 1) / 100)) / 4 ==
      (if b % 100 == 0 && (b / 100) % 4 != 1 then 1 else 0)
  {
    var c := b / 100;
    assert b == 100 * c + b % 100;
    if b % 100 == 0 {
      assert b - 1 == 100 * (c - 1) + 99;
      assert (b - 1) / 100 == c - 1;
      var s, t := c / 4, c % 4;
      assert c == 4 * s + t;
      assert 3 * c == 4 * (3 * s) + 3 * t;
      assert 3 * (c - 1) == 4 * (3 * s) + 3 * t - 3;
      if t == 0 {
        assert (3 * c) / 4 == 3 * s;
        assert 3 * (c - 1) == 4 * (3 * s - 1) + 1;
        assert (3 * (c - 1)) / 4 == 3 * s - 1;
      } else if t == 1 {
        assert 3 * c == 4 * (3 * s) + 3;
        assert (3 * c) / 4 == 3 * s;
        assert (3 * (c - 1)) / 4 == 3 * s;
      } else if t == 2 {
        assert 3 * c == 4 * (3 * s + 1) + 2;
        assert (3 * c) / 4 == 3 * s + 1;
        assert 3 * (c - 1) == 4 * (3 * s) + 3;
        assert (3 * (c - 1)) / 4 == 3 * s;
      } else {
        assert 3 * c == 4 * (3 * s + 2) + 1;
        assert (3 * c) / 4 == 3 * s + 2;
        assert 3 * (c - 1) == 4 * (3 * s + 1) + 2;
        assert (3 * (c - 1)) / 4 == 3 * s + 1;
      }
    } else {
      assert b - 1 == 100 * c + (b % 100 - 1);
      assert (b - 1) / 100 == c;
    }
  }

  lemma ShiftedYearResidues(y: int)
    ensures (y + 4800) % 4 == y % 4
    ensures (y + 4900) % 100 == y % 100
    ensures (y + 4900) / 100 == y / 100 + 49
  {
    assert y == 100 * (y / 100) + y % 100;
    assert y + 4900 == 100 * (y / 100 + 49) + y % 100;
    assert y + 4800 == 4 * (y / 4 + 1200) + y % 4;
  }

  lemma FourCenturies(y: int)
    requires y % 100 == 0
    ensures y % 4 == 0
    ensures (y / 100 + 49) % 4 == 1 <==> y % 400 == 0
  {
    var c := y / 100;
    assert y == 100 * c;
    DivModOf(y, 4, 25 * c, 0);
    var q, r := c / 4, c % 4;
    assert c == 4 * q + r;
    if r < 3 {
      DivModOf(c + 49, 4, q + 12, r + 1);
    } else {
      DivModOf(c + 49, 4, q + 13, 0);
    }
    DivModOf(y, 400, q, 100 * r);
  }

  /** The two steps above, expressed on the calendar year: together they give the Gregorian leap rule. */
  lemma LeapDayTerms(y: int)
    requires y >= MinYear
    ensures YearTerm(y, 0) - YearTerm(y, -1) == 365 + (if IsLeapYear(y) then 1 else 0)
  {
    QuadrennialStep(y + 4800);
    CenturyStep(y + 4900);
    ShiftedYearResidues(y);
    if y % 100 == 0 {
      FourCenturies(y);
    }
  }

  /** The month term at each month, January and February counted as months 13 and 14 of the previous year. */
  lemma MonthTermTable()
    ensures MonthTerm(1, -1) == 336 && MonthTerm(2, -1) == 367
    ensures MonthTerm(3, 0) == 30 && MonthTerm(4, 0) == 61 && MonthTerm(5, 0) == 91
    ensures MonthTerm(6, 0) == 122 && MonthTerm(7, 0) == 152 && MonthTerm(8, 0) == 183
    ensures MonthTerm(9, 0) == 214 && MonthTerm(10, 0) == 244 && MonthTerm(11, 0) == 275
    ensures MonthTerm(12, 0) == 305
  {
  }

  /** From March on, only the month term moves, by the length of the month. */
  lemma LaterMonthTerms(y: int, m: int)
    requires 3 <= m <= 11
    ensures MonthTerm(m + 1, 0) - MonthTerm(m, 0) == DaysInMonth(y, m)
  {
    MonthTermTable();
  }

  /** On the 1-based civil date: the first of month m+1 is DaysInMonth(y, m) days after the first of m. */
  lemma CivilMonthStep(y: int, m: int)
    requires 1 <= m <= 11 && y >= MinYear
    ensures CivilToJdn(y, m + 1, 1) == CivilToJdn(y, m, 1) + DaysInMonth(y, m)
  {
    CivilToJdnFloor(y, m, 1);
    CivilToJdnFloor(y, m + 1, 1);
    if m == 1 {
      MonthTermTable();
    } else if m == 2 {
      MonthTermTable();
      LeapDayTerms(y);
    } else {
      LaterMonthTerms(y, m);
    }
  }

  /** The first of the next month is as many days on as the current month is long. */
  lemma Tm2JdMonthStep(t: PblTm)
    requires 0 <= t.mon <= 10 && t.year + 1900 >= MinYear
    ensures Tm2Jd(t.(mon := t.mon + 1, mday := 1)) == Tm2Jd(t.(mday := 1)) + DaysInMonth(t.year + 1900, t.mon + 1)
  {
    var y, m := t.year + 1900, t.mon + 1;
    assert Tm2Jd(t.(mon := t.mon + 1, mday := 1)) == CivilToJdn(y, m + 1, 1);
    assert Tm2Jd(t.(mday := 1)) == CivilToJdn(y, m, 1);
    CivilMonthStep(y, m);
  }

  /** New Year's Day follows 31 December. */
  lemma Tm2JdYearStep(t: PblTm)
    requires t.year + 1900 >= MinYear
    ensures Tm2Jd(t.(year := t.year + 1, mon := 0, mday := 1)) == Tm2Jd(t.(mon := 11, mday := 31)) + 1
  {
    var y := t.year + 1900;
    CivilToJdnFloor(y, 12, 31);
    CivilToJdnFloor(y + 1, 1, 1);
    assert YearTerm(y + 1, -1) == YearTerm(y, 0);
    MonthTermTable();
  }

  /** Consecutive calendar days have consecutive Julian Day Numbers, across month ends,
      February in leap and common years, and year ends. */
  lemma Tm2JdNextDay(t: PblTm)
    requires ValidDate(t) && t.year + 1900 >= MinYear
    ensures Tm2Jd(NextDay(t)) == Tm2Jd(t) + 1
  {
    var n := DaysInMonth(t.year + 1900, t.mon + 1);
    if t.mday < n {
      assert NextDay(t) == t.(mday := t.mday + 1);
      Tm2JdDayShift(t, 1);
    } else {
      var first := t.(mday := 1);
      Tm2JdDayShift(first, t.mday - 1);
      assert first.(mday := first.mday + (t.mday - 1)) == t;
      if t.mon < 11 {
        assert NextDay(t) == t.(mon := t.mon + 1, mday := 1);
        Tm2JdMonthStep(t);
      } else {
        assert NextDay(t) == t.(year := t.year + 1, mon := 0, mday := 1);
        Tm2JdYearStep(t);
        assert t.(mon := 11, mday := 31) == t;
      }
    }
  }

  /** Every intermediate value of the formula, in C evaluation order. */
  predicate Tm2JdFitsInt32(t: PblTm) {
    var y, m := t.year + 1900, t.mon + 1;
    var k := TruncDiv(m - 14, 12);
    && IsInt32(y) && IsInt32(m) && IsInt32(m - 14)
    && IsInt32(y + 4800 + k) && IsInt32(1461 * (y + 4800 + k))
    && IsInt32(m - 2 - k * 12) && IsInt32(367 * (m - 2 - k * 12))
    && IsInt32(y + 4900 + k) && IsInt32(3 * TruncDiv(y + 4900 + k, 100))
    && IsInt32(t.mday - 32075)
    && IsInt32(t.mday - 32075 + TruncDiv(1461 * (y + 4800 + k), 4))
    && IsInt32(t.mday - 32075 + TruncDiv(1461 * (y + 4800 + k), 4) + TruncDiv(367 * (m - 2 - k * 12), 12))
    && IsInt32(Tm2Jd(t))
  }

  /** For a real date between 4799 BC and AD 1,000,000 the 32-bit C arithmetic never
      overflows, so the unbounded model computes what the watch computes. */
  lemma Tm2JdNoOverflow(t: PblTm)
    requires ValidDate(t) && MinYear <= t.year + 1900 <= 1_000_000
    ensures Tm2JdFitsInt32(t)
  {
    var y, m := t.year + 1900, t.mon + 1;
    MonthShift(m);
    var k := Shift(m);
    TruncDivOfNonNegative(1461 * (y + 4800 + k), 4);
    TruncDivOfNonNegative(367 * (m - 2 - k * 12), 12);
    TruncDivOfNonNegative(y + 4900 + k, 100);
    TruncDivOfNonNegative(3 * ((y + 4900 + k) / 100), 4);
  }
}
