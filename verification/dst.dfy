/**
 The face's United States daylight-saving test (`isDST`), and the rule it
 is meant to implement: daylight time runs from the second Sunday of March
 up to the first Sunday of November. The test works on whole days; the
 2 a.m. changeover hour is not part of it.
 */
module Dst {

  /** `isDST(day, month, dow)`: month is 1-based, dow is 0 for Sunday. */
  predicate IsDst(day: int, month: int, dow: int)
    // never in December, January or February
    ensures IsDst(day, month, dow) ==> 3 <= month <= 11
    // always from April to October
    ensures 4 <= month <= 10 ==> IsDst(day, month, dow)
  {
    if month < 3 || month > 11 then false
    else if month > 3 && month < 11 then true
    else
      var previousSunday := day - dow;
      if month == 3 then previousSunday >= 8
      else previousSunday <= 0
  }

  /** The day of the month (1..7) of the month's first Sunday, given that `day` falls on weekday `dow`. */
  function FirstSunday(day: int, dow: int): (f: int)
    ensures 1 <= f <= 7
    ensures (day - dow - f) % 7 == 0
  {
    (day - dow - 1) % 7 + 1
  }

  /** The United States rule, stated on the calendar: from the second Sunday of March,
      and before the first Sunday of November. */
  predicate UsDaylightRule(day: int, month: int, firstSunday: int) {
    || 4 <= month <= 10
    || (month == 3 && day >= firstSunday + 7)
    || (month == 11 && day < firstSunday)
  }

  /** The decision table of `isDST`: out in December to February, in from April to October,
      and in March and November decided by the Sunday on or before the day. */
  lemma IsDstTable(day: int, month: int, dow: int)
    ensures month < 3 || month > 11 ==> !IsDst(day, month, dow)
    ensures 4 <= month <= 10 ==> IsDst(day, month, dow)
    ensures month == 3 ==> (IsDst(day, month, dow) <==> day - dow >= 8)
    ensures month == 11 ==> (IsDst(day, month, dow) <==> day - dow <= 0)
  {
  }

  /** The Sunday on or before `day` (that is `day - dow`) is on the 8th or later exactly
      when the second Sunday of the month has come. */
  lemma SecondSundayReached(day: int, dow: int)
    requires 0 <= dow <= 6
    ensures day - dow >= 8 <==> day >= FirstSunday(day, dow) + 7
  {
    var p, f := day - dow, FirstSunday(day, dow);
    var j := (p - f) / 7;
    assert p == f + 7 * j;
    if p >= 8 {
      assert j >= 1;
    } else {
      assert j <= 0;
    }
  }

  /** The Sunday on or before `day` is on the 0th or earlier exactly when the first Sunday
      of the month is still to come. */
  lemma FirstSundayAhead(day: int, dow: int)
    requires 0 <= dow <= 6
    ensures day - dow <= 0 <==> day < FirstSunday(day, dow)
  {
    var p, f := day - dow, FirstSunday(day, dow);
    var j := (p - f) / 7;
    assert p == f + 7 * j;
    if p <= 0 {
      assert j <= -1;
    } else {
      assert j >= 0;
    }
  }

  /** `isDST` agrees with the calendar rule on every day and every month, given a weekday in 0..6. */
  lemma IsDstMatchesUsRule(day: int, month: int, dow: int)
    requires 0 <= dow <= 6
    ensures IsDst(day, month, dow) <==> UsDaylightRule(day, month, FirstSunday(day, dow))
  {
    SecondSundayReached(day, dow);
    FirstSundayAhead(day, dow);
  }

  /** Daylight time is one unbroken stretch: once on in March it stays on the next day,
      and once off in November it stays off the next day. */
  lemma DstSeasonContiguous(day: int, dow: int)
    requires 0 <= dow <= 6
    ensures IsDst(day, 3, dow) ==> IsDst(day + 1, 3, (dow + 1) % 7)
    ensures !IsDst(day, 11, dow) ==> !IsDst(day + 1, 11, (dow + 1) % 7)
  {
    if dow == 6 {
      assert (dow + 1) % 7 == 0;
    } else {
      assert (dow + 1) % 7 == dow + 1;
    }
  }
}
