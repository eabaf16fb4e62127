/** The journal's conversion of day numbers to calendar dates, against the calendar itself. */
module CivilDate {

  datatype Date = Date(year: int, month: int, day: int)

  /** The source language's integer division, which drops the fraction. */
  function TruncatedDiv(a: int, b: int): int
    requires b > 0
  {
    if a >= 0 then a / b else -((-a) / b)
  }

  /** First day of March-based year `y` of the era. */
  function YearStart(y: int): int { 365 * y + y / 4 - y / 100 }

  function YearOfEra(doe: int): int { (doe - doe / 1460 + doe / 36_524 - doe / 146_096) / 365 }

  function MonthStart(mp: int): int { (153 * mp + 2) / 5 }

  function MonthIndex(doy: int): int { (5 * doy + 2) / 153 }

  function MonthOf(mp: int): int { if mp < 10 then mp + 3 else mp - 9 }

  function FromParts(era: int, yoe: int, doy: int): Date {
    var mp := MonthIndex(doy);
    var m := MonthOf(mp);
    Date(yoe + era * 400 + (if m <= 2 then 1 else 0), m, doy - MonthStart(mp) + 1)
  }

  /** The date of the day `days` after 1970-01-01. */
  function CivilFromDays(days: int): Date {
    var z := days + 719_468;
    var era := TruncatedDiv(if z >= 0 then z else z - 146_096, 146_097);
    var doe := z - era * 146_097;
    var yoe := YearOfEra(doe);
    FromParts(era, yoe, doe - YearStart(yoe))
  }

  // ----- The calendar (leap rule of RFC 3339, Appendix C) -----

  predicate Leap(year: int) {
    year % 4 == 0 && (year % 100 != 0 || year % 400 == 0)
  }

  function MonthLength(year: int, month: int): int {
    if month == 2 then if Leap(year) then 29 else 28
    else if month in {4, 6, 9, 11} then 30 else 31
  }

  predicate Valid(d: Date) {
    1 <= d.month <= 12 && 1 <= d.day <= MonthLength(d.year, d.month)
  }

  /** The next day on the calendar. */
  function Tomorrow(d: Date): Date {
    if d.day < MonthLength(d.year, d.month) then Date(d.year, d.month, d.day + 1)
    else if d.month < 12 then Date(d.year, d.month + 1, 1)
    else Date(d.year + 1, 1, 1)
  }

  predicate Before(a: Date, b: Date) {
    a.year < b.year || (a.year == b.year && (a.month < b.month || (a.month == b.month && a.day < b.day)))
  }

  // ----- The algorithm, stage by stage -----

  /** The 400-year era of a day, and the day's place in it. */
  function Era(days: int): int { (days + 719_468) / 146_097 }

  function DayOfEra(days: int): int { (days + 719_468) % 146_097 }

  /** Length of March-based year `y` of the era: it ends with the February of year `y + 1`. */
  function YearLength(y: int): int { if Leap(y + 1) then 366 else 365 }

  lemma EraIsFloor(days: int)
    ensures var z := days + 719_468;
            TruncatedDiv(if z >= 0 then z else z - 146_096, 146_097) == Era(days)
  {
  }

  lemma EraRemainder(days: int)
    ensures days + 719_468 - Era(days) * 146_097 == DayOfEra(days)
  {
  }

  lemma Stages(days: int)
    ensures var doe := DayOfEra(days);
            CivilFromDays(days) == FromParts(Era(days), YearOfEra(doe), doe - YearStart(YearOfEra(doe)))
  {
    hide TruncatedDiv, Era, DayOfEra;
    EraIsFloor(days);
    EraRemainder(days);
  }

  /** Year 100c + 4l + j of the era, by century, four-year cycle and remainder. */
  lemma YearByParts(c: int, l: int, j: int, doy: int)
    requires 0 <= c < 4 && 0 <= l < 25 && 0 <= j < 4 && 0 <= doy < YearLength(100 * c + 4 * l + j)
    ensures var y := 100 * c + 4 * l + j;
            YearStart(y) == 36_524 * c + 1461 * l + 365 * j && YearOfEra(YearStart(y) + doy) == y
  {
    hide YearLength;
    var y := 100 * c + 4 * l + j;
    var doe := 36_524 * c + 1461 * l + 365 * j + doy;
    YearStartByParts(c, l, j);
    LengthByParts(c, l, j);
    FourYears(c, l, j, doy);
    Centuries(c, l, j, doy);
    assert doe - doe / 1460 + doe / 36_524 - doe / 146_096
        == 365 * y + doy - if 24 * c + l + 365 * j + doy >= 1460 then 1 else 0;
    SameYear(y, doy - if 24 * c + l + 365 * j + doy >= 1460 then 1 else 0);
  }

  lemma SameYear(y: int, m: int)
    requires 0 <= m < 365
    ensures (365 * y + m) / 365 == y
  {
  }

  lemma YearStartByParts(c: int, l: int, j: int)
    requires 0 <= l < 25 && 0 <= j < 4
    ensures YearStart(100 * c + 4 * l + j) == 36_524 * c + 1461 * l + 365 * j
  {
    var y := 100 * c + 4 * l + j;
    assert y / 4 == 25 * c + l;
    assert y / 100 == c;
  }

  /** Only the last year of a four-year cycle has day 365, and of the centuries' last years only the fourth's. */
  lemma LengthByParts(c: int, l: int, j: int)
    requires 0 <= c < 4 && 0 <= l < 25 && 0 <= j < 4
    ensures YearLength(100 * c + 4 * l + j) == if j == 3 && (l == 24 ==> c == 3) then 366 else 365
  {
    var year := 100 * c + 4 * l + j + 1;
    if j < 3 {
      assert year % 4 == j + 1;
    } else if l < 24 {
      assert year == 100 * c + (4 * l + 4) && year % 100 == 4 * l + 4 && year % 4 == 0;
    } else {
      assert year == 100 * (c + 1) && year % 100 == 0 && year % 4 == 0;
      assert year % 400 == 0 <==> c == 3;
    }
  }

  lemma FourYears(c: int, l: int, j: int, doy: int)
    requires 0 <= c < 4 && 0 <= l < 25 && 0 <= j < 4 && 0 <= doy <= 365
    ensures (36_524 * c + 1461 * l + 365 * j + doy) / 1460
         == 25 * c + l + if 24 * c + l + 365 * j + doy >= 1460 then 1 else 0
  {
    var rest := 24 * c + l + 365 * j + doy;
    assert 36_524 * c + 1461 * l + 365 * j + doy == 1460 * (25 * c + l) + rest;
  }

  lemma Centuries(c: int, l: int, j: int, doy: int)
    requires 0 <= c < 4 && 0 <= l < 25 && 0 <= j < 4 && 0 <= doy <= 365
    requires doy == 365 ==> j == 3 && (l == 24 ==> c == 3)
    ensures var doe := 36_524 * c + 1461 * l + 365 * j + doy; doe / 36_524 - doe / 146_096 == c
  {
    var rest := 1461 * l + 365 * j + doy;
    assert 0 <= rest <= 36_524;
    if rest == 36_524 {
      assert l == 24 && j == 3 && doy == 365 && c == 3;
    }
  }

  lemma YearSplit(doe: int)
    requires 0 <= doe < 146_097
    ensures var y := YearOfEra(doe);
            0 <= y < 400 && 0 <= doe - YearStart(y) < YearLength(y)
  {
    hide YearLength, YearOfEra, YearStart;
    var c := if doe / 36_524 < 3 then doe / 36_524 else 3;
    var r := doe - 36_524 * c;
    assert 0 <= r <= 36_524 && (r == 36_524 ==> c == 3);
    var l := if r / 1461 < 24 then r / 1461 else 24;
    var s := r - 1461 * l;
    assert 0 <= s <= 1460 && (s == 1460 && l == 24 ==> c == 3);
    var j := if s / 365 < 3 then s / 365 else 3;
    var doy := s - 365 * j;
    assert 0 <= doy <= 365 && (doy == 365 ==> j == 3 && (l == 24 ==> c == 3));
    LengthByParts(c, l, j);
    YearByParts(c, l, j, doy);
  }

  /** Position in a March-based year: month index and day, and back. */
  lemma MonthSplit(doy: int)
    requires 0 <= doy < 366
    ensures var mp := MonthIndex(doy);
            && 0 <= mp < 12
            && MonthStart(mp) <= doy
            && (mp < 11 ==> doy < MonthStart(mp + 1))
  {
  }

  /** Lengths of the March-based months, read off the algorithm's month starts. */
  lemma MonthLengths(era: int, yoe: int, mp: int)
    requires 0 <= yoe < 400 && 0 <= mp < 12
    ensures var m := MonthOf(mp);
            var year := yoe + era * 400 + (if m <= 2 then 1 else 0);
            MonthLength(year, m) == if mp < 11 then MonthStart(mp + 1) - MonthStart(mp)
                                    else YearLength(yoe) - MonthStart(11)
  {
    if mp == 11 {
      LeapInEra(era, yoe + 1);
    }
  }

  lemma LeapInEra(era: int, y: int)
    ensures Leap(y + era * 400) <==> Leap(y)
  {
    WholeFours(y, 100 * era);
    WholeHundreds(y, 4 * era);
    WholeFourHundreds(y, era);
  }

  lemma WholeFours(y: int, k: int)
    ensures (y + 4 * k) % 4 == y % 4
  {
  }

  lemma WholeHundreds(y: int, k: int)
    ensures (y + 100 * k) % 100 == y % 100
  {
  }

  lemma WholeFourHundreds(y: int, k: int)
    ensures (y + 400 * k) % 400 == y % 400
  {
  }

  lemma PartsAreValid(era: int, yoe: int, doy: int)
    requires 0 <= yoe < 400 && 0 <= doy < YearLength(yoe)
    ensures Valid(FromParts(era, yoe, doy))
  {
    hide MonthIndex, MonthStart, MonthLength, YearLength;
    YearBound(yoe);
    MonthSplit(doy);
    MonthLengths(era, yoe, MonthIndex(doy));
  }

  lemma YearBound(yoe: int)
    ensures 365 <= YearLength(yoe) <= 366
  {
  }

  /** Within a year the next day of the year is the next day on the calendar. */
  lemma NextInYear(era: int, yoe: int, doy: int)
    requires 0 <= yoe < 400 && 0 <= doy && doy + 1 < YearLength(yoe)
    ensures FromParts(era, yoe, doy + 1) == Tomorrow(FromParts(era, yoe, doy))
  {
    hide MonthIndex, MonthStart, MonthLength, YearLength;
    var mp := MonthIndex(doy);
    YearBound(yoe);
    MonthSplit(doy);
    MonthLengths(era, yoe, mp);
    FebruaryFits();
    if mp == 11 || doy + 1 < MonthStart(mp + 1) {
      MonthUnique(mp, doy + 1 - MonthStart(mp));
    } else {
      MonthUnique(mp + 1, 0);
    }
  }

  lemma FebruaryFits()
    ensures MonthStart(11) == 337 && forall mp :: 0 <= mp < 11 ==> MonthStart(mp) + 28 <= MonthStart(mp + 1)
  {
  }

  lemma MonthUnique(mp: int, k: int)
    requires 0 <= mp < 12 && 0 <= k && (if mp < 11 then MonthStart(mp) + k < MonthStart(mp + 1) else k < 29)
    ensures MonthIndex(MonthStart(mp) + k) == mp
  {
  }

  /** The last day of a March-based year is followed by 1 March. */
  lemma NextYear(era: int, yoe: int)
    requires 0 <= yoe < 400
    ensures Tomorrow(FromParts(era, yoe, YearLength(yoe) - 1)) == Date(yoe + 1 + era * 400, 3, 1)
  {
    MonthLengths(era, yoe, 11);
  }

  /** Every day number gives a valid date. */
  lemma CivilIsValid(days: int)
    ensures Valid(CivilFromDays(days))
  {
    hide CivilFromDays, YearOfEra;
    Stages(days);
    YearSplit(DayOfEra(days));
    PartsAreValid(Era(days), YearOfEra(DayOfEra(days)), DayOfEra(days) - YearStart(YearOfEra(DayOfEra(days))));
  }

  /** Consecutive day numbers give consecutive calendar dates, over all integers. */
  lemma CivilFollowsCalendar(days: int)
    ensures CivilFromDays(0) == Date(1970, 1, 1)
    ensures CivilFromDays(days + 1) == Tomorrow(CivilFromDays(days))
  {
    hide CivilFromDays, Tomorrow, FromParts, YearOfEra;
    Epoch();
    Stages(days);
    Stages(days + 1);
    var doe, era := DayOfEra(days), Era(days);
    YearSplit(doe);
    var yoe := YearOfEra(doe);
    var doy := doe - YearStart(yoe);
    if doy + 1 < YearLength(yoe) {
      SameEra(days);
      YearAt(yoe, doy + 1);
      NextInYear(era, yoe, doy);
    } else {
      NextYear(era, yoe);
      MarchFirst(era, yoe + 1);
      if yoe < 399 {
        YearStep(yoe);
        SameEra(days);
        YearAt(yoe + 1, 0);
      } else {
        NextEra(days);
        YearAt(0, 0);
        MarchFirst(era + 1, 0);
      }
    }
  }

  lemma Epoch()
    ensures CivilFromDays(0) == Date(1970, 1, 1)
  {
  }

  lemma SameEra(days: int)
    requires DayOfEra(days) < 146_096
    ensures DayOfEra(days + 1) == DayOfEra(days) + 1 && Era(days + 1) == Era(days)
  {
  }

  lemma NextEra(days: int)
    requires DayOfEra(days) == 146_096
    ensures DayOfEra(days + 1) == 0 && Era(days + 1) == Era(days) + 1
  {
  }

  lemma YearStep(y: int)
    requires 0 <= y < 399
    ensures YearStart(y + 1) == YearStart(y) + YearLength(y)
  {
    hide YearStart, YearLength;
    var c, l, j := y / 100, (y % 100) / 4, y % 4;
    assert y == 100 * c + 4 * l + j;
    StepByParts(c, l, j);
  }

  lemma StepByParts(c: int, l: int, j: int)
    requires 0 <= c < 4 && 0 <= l < 25 && 0 <= j < 4
    ensures YearStart(100 * c + 4 * l + j + 1) == YearStart(100 * c + 4 * l + j) + YearLength(100 * c + 4 * l + j)
            || (c == 3 && l == 24 && j == 3)
  {
    hide YearStart, YearLength;
    LengthByParts(c, l, j);
    YearStartByParts(c, l, j);
    if j < 3 {
      YearStartByParts(c, l, j + 1);
    } else if l < 24 {
      YearStartByParts(c, l + 1, 0);
    } else if c < 3 {
      YearStartByParts(c + 1, 0, 0);
    }
  }

  lemma YearAt(y: int, doy: int)
    requires 0 <= y < 400 && 0 <= doy < YearLength(y)
    ensures YearOfEra(YearStart(y) + doy) == y
  {
    hide YearLength, YearOfEra, YearStart;
    var c, l, j := y / 100, (y % 100) / 4, y % 4;
    assert y == 100 * c + 4 * l + j;
    YearByParts(c, l, j, doy);
  }

  lemma MarchFirst(era: int, y: int)
    ensures FromParts(era, y, 0) == Date(y + era * 400, 3, 1)
  {
  }

  // ----- A bijection between day numbers and dates -----

  lemma TomorrowIsLater(d: Date)
    requires Valid(d)
    ensures Before(d, Tomorrow(d)) && Valid(Tomorrow(d))
    ensures forall e: Date :: Valid(e) && Before(d, e) ==> e == Tomorrow(d) || Before(Tomorrow(d), e)
  {
  }

  /** Later days have later dates, so no date is given twice. */
  lemma {:induction false} CivilIsMonotone(a: int, b: int)
    requires a < b
    ensures Before(CivilFromDays(a), CivilFromDays(b))
    decreases b - a
  {
    hide CivilFromDays, Tomorrow;
    CivilIsValid(b - 1);
    CivilFollowsCalendar(b - 1);
    TomorrowIsLater(CivilFromDays(b - 1));
    if a < b - 1 {
      CivilIsMonotone(a, b - 1);
    }
  }

  /** The day number of a date, by the same March-based parts. */
  function DaysFromCivil(d: Date): int {
    var y := if d.month <= 2 then d.year - 1 else d.year;
    var mp := if d.month > 2 then d.month - 3 else d.month + 9;
    y / 400 * 146_097 + YearStart(y % 400) + MonthStart(mp) + d.day - 1 - 719_468
  }

  lemma StartsBelow(mp: int)
    requires 0 <= mp < 12
    ensures 0 <= MonthStart(mp) && (mp < 11 ==> MonthStart(mp + 1) <= 337)
  {
  }

  lemma DayInEra(era: int, yoe: int, doy: int)
    requires 0 <= yoe < 400 && 0 <= doy < YearLength(yoe)
    ensures var days := era * 146_097 + YearStart(yoe) + doy - 719_468;
            Era(days) == era && DayOfEra(days) == YearStart(yoe) + doy
  {
  }

  /** Every valid date is the date of some day. */
  lemma EveryDateIsGiven(d: Date)
    requires Valid(d)
    ensures CivilFromDays(DaysFromCivil(d)) == d
  {
    hide CivilFromDays, YearOfEra, MonthIndex, MonthStart, MonthLength, YearLength, YearStart, Era, DayOfEra;
    var y := if d.month <= 2 then d.year - 1 else d.year;
    var mp := if d.month > 2 then d.month - 3 else d.month + 9;
    var era, yoe, doy := y / 400, y % 400, MonthStart(mp) + d.day - 1;
    FebruaryFits();
    YearBound(yoe);
    MonthLengths(era, yoe, mp);
    StartsBelow(mp);
    MonthUnique(mp, d.day - 1);
    DayInEra(era, yoe, doy);
    YearAt(yoe, doy);
    Stages(DaysFromCivil(d));
  }

  /** Days and dates correspond one to one. */
  lemma DaysOfCivil(days: int)
    ensures DaysFromCivil(CivilFromDays(days)) == days
  {
    hide CivilFromDays, DaysFromCivil;
    var back := DaysFromCivil(CivilFromDays(days));
    CivilIsValid(days);
    EveryDateIsGiven(CivilFromDays(days));
    if back < days {
      CivilIsMonotone(back, days);
    } else if days < back {
      CivilIsMonotone(days, back);
    }
  }
}
