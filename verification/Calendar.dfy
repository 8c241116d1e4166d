/**
 Calendar arithmetic on dates written as one number, year * 10000 + month * 100 + day, checked against
 the day number of the Gregorian calendar.
 */
module Calendar {

  const MONTH := [31, 28, 31, 30, 31, 30, 31, 31, 30, 31, 30, 31]
  const LEAP_MONTH := [31, 29, 31, 30, 31, 30, 31, 31, 30, 31, 30, 31]
  const INT32_MAX := 0x7FFF_FFFF

  predicate IsLeapYear(year: nat) {
    (year % 4 == 0 && year % 100 != 0) || year % 400 == 0
  }

  function GetYear(date: nat): nat {
    date / 10000
  }

  function GetMonth(date: nat): nat {
    date / 100 % 100
  }

  function GetDay(date: nat): nat {
    date % 100
  }

  function MonthLength(year: nat, month: nat): nat
    requires 1 <= month <= 12
  {
    if IsLeapYear(year) then LEAP_MONTH[month - 1] else MONTH[month - 1]
  }

  /** Months of 31 days alternate with months of 30, but July and August both have 31; February has 28 or 29. */
  lemma MonthLengths(year: nat, month: nat)
    requires 1 <= month <= 12
    ensures MonthLength(year, month) ==
            if month == 2 then (if IsLeapYear(year) then 29 else 28) else 30 + (month + month / 8) % 2
  {
  }

  predicate IsDate(date: int) {
    date >= 0 && 1 <= GetMonth(date) <= 12 && 1 <= GetDay(date) <= MonthLength(GetYear(date), GetMonth(date))
  }

  /** The tables are looked up at the month, so the month has to be one. */
  predicate IsEndOfMonth(date: nat)
    requires 1 <= GetMonth(date) <= 12
  {
    MonthLength(GetYear(date), GetMonth(date)) == GetDay(date)
  }

  predicate IsEndOfYear(date: nat) {
    GetMonth(date) == 12
  }

  function GetNextDate(date: nat): nat
    requires 1 <= GetMonth(date) <= 12
  {
    if IsEndOfMonth(date) then
      if IsEndOfYear(date) then (date / 10000 + 1) * 10000 + 101
      else (date / 100 + 1) * 100 + 1
    else date + 1
  }

  // ----- day numbers -----

  const DAYS_BEFORE_MONTH := [0, 31, 59, 90, 120, 151, 181, 212, 243, 273, 304, 334]

  /** The days of the years before this one: every fourth is a leap year, but of the hundredths only every fourth. */
  function DaysBeforeYear(year: nat): nat {
    LeapsArePositive(year);
    365 * year + Leaps(year)
  }

  function DaysBeforeMonth(year: nat, month: nat): nat
    requires 1 <= month <= 12
  {
    DAYS_BEFORE_MONTH[month - 1] + if IsLeapYear(year) && month > 2 then 1 else 0
  }

  function DayNumber(date: nat): nat
    requires IsDate(date)
  {
    DaysBeforeYear(GetYear(date)) + DaysBeforeMonth(GetYear(date), GetMonth(date)) + GetDay(date)
  }

  lemma FourthYear(y: nat)
    ensures (y + 4) / 4 == (y + 3) / 4 + if y % 4 == 0 then 1 else 0
  {
  }

  lemma HundredthYear(y: nat)
    ensures (y + 100) / 100 == (y + 99) / 100 + if y % 100 == 0 then 1 else 0
  {
  }

  lemma FourHundredthYear(y: nat)
    ensures (y + 400) / 400 == (y + 399) / 400 + if y % 400 == 0 then 1 else 0
  {
  }

  lemma Multiples(y: nat)
    ensures y % 400 == 0 ==> y % 100 == 0
    ensures y % 100 == 0 ==> y % 4 == 0
  {
    if y % 400 == 0 {
      assert y == 100 * (4 * (y / 400));
    }
    if y % 100 == 0 {
      assert y == 4 * (25 * (y / 100));
    }
  }

  function Leaps(year: nat): int {
    (year + 3) / 4 - (year + 99) / 100 + (year + 399) / 400
  }

  lemma LeapsGrow(year: nat)
    ensures Leaps(year + 1) == Leaps(year) + if IsLeapYear(year) then 1 else 0
  {
    FourthYear(year);
    HundredthYear(year);
    FourHundredthYear(year);
    Multiples(year);
  }

  lemma {:induction false} LeapsArePositive(year: nat)
    ensures Leaps(year) >= 0
  {
    if year > 0 {
      LeapsArePositive(year - 1);
      LeapsGrow(year - 1);
    }
  }

  lemma YearLength(year: nat)
    ensures DaysBeforeYear(year + 1) == DaysBeforeYear(year) + if IsLeapYear(year) then 366 else 365
  {
    hide Leaps, IsLeapYear;
    LeapsGrow(year);
  }

  lemma MonthLengthCounts(year: nat, month: nat)
    requires 1 <= month <= 12
    ensures DaysBeforeMonth(year, month) + MonthLength(year, month) ==
            if month < 12 then DaysBeforeMonth(year, month + 1) else if IsLeapYear(year) then 366 else 365
  {
    hide IsLeapYear;
  }

  lemma Parts(year: nat, month: nat, day: nat)
    requires month < 100 && day < 100
    ensures var date := year * 10000 + month * 100 + day;
            GetYear(date) == year && GetMonth(date) == month && GetDay(date) == day
  {
  }

  lemma Whole(date: nat)
    ensures date == GetYear(date) * 10000 + GetMonth(date) * 100 + GetDay(date)
  {
  }

  lemma MonthBasics(year: nat, month: nat)
    requires 1 <= month <= 12
    ensures 28 <= MonthLength(year, month) <= 31 && DaysBeforeMonth(year, 1) == 0
  {
  }

  /** A number put together from a year, a month and a day. */
  lemma PartsAreDate(date: nat, year: nat, month: nat, day: nat)
    requires date == year * 10000 + month * 100 + day && 1 <= month <= 12 && 1 <= day <= MonthLength(year, month)
    ensures IsDate(date) && DayNumber(date) == DaysBeforeYear(year) + DaysBeforeMonth(year, month) + day
  {
    MonthBasics(year, month);
    hide MonthLength, DaysBeforeYear, DaysBeforeMonth;
    Parts(year, month, day);
  }

  /** The next date is a date, and it is the next day. */
  lemma NextDateIsNextDay(date: nat)
    requires IsDate(date)
    ensures IsDate(GetNextDate(date)) && DayNumber(GetNextDate(date)) == DayNumber(date) + 1
  {
    hide MonthLength, DaysBeforeYear, DaysBeforeMonth, IsLeapYear;
    var year, month, day := GetYear(date), GetMonth(date), GetDay(date);
    Whole(date);
    MonthLengthCounts(year, month);
    if IsEndOfMonth(date) && month == 12 {
      YearLength(year);
      MonthBasics(year + 1, 1);
      PartsAreDate(GetNextDate(date), year + 1, 1, 1);
    } else if IsEndOfMonth(date) {
      MonthBasics(year, month + 1);
      assert date / 100 == year * 100 + month;
      PartsAreDate(GetNextDate(date), year, month + 1, 1);
    } else {
      PartsAreDate(GetNextDate(date), year, month, day + 1);
    }
  }

  // ----- the order of dates is the order of days -----

  lemma {:induction false} YearsAscend(a: nat, b: nat)
    requires a < b
    ensures DaysBeforeYear(a + 1) <= DaysBeforeYear(b)
  {
    if a + 1 < b {
      YearsAscend(a, b - 1);
      YearLength(b - 1);
    }
  }

  lemma {:induction false} MonthsAscend(year: nat, a: nat, b: nat)
    requires 1 <= a < b <= 12
    ensures DaysBeforeMonth(year, a) + MonthLength(year, a) <= DaysBeforeMonth(year, b)
  {
    MonthLengthCounts(year, a);
    if a + 1 < b {
      MonthsAscend(year, a, b - 1);
      MonthLengthCounts(year, b - 1);
    }
  }

  lemma WithinYear(date: nat)
    requires IsDate(date)
    ensures DaysBeforeYear(GetYear(date)) < DayNumber(date) <= DaysBeforeYear(GetYear(date) + 1)
  {
    var year, month := GetYear(date), GetMonth(date);
    YearLength(year);
    MonthLengthCounts(year, month);
    if month < 12 {
      MonthsAscend(year, month, 12);
      MonthLengthCounts(year, 12);
    }
  }

  lemma EarlierDay(a: nat, b: nat)
    requires IsDate(a) && IsDate(b) && a < b
    ensures DayNumber(a) < DayNumber(b)
  {
    hide IsLeapYear, DaysBeforeYear, DaysBeforeMonth, MonthLength;
    Whole(a);
    Whole(b);
    if GetYear(a) < GetYear(b) {
      WithinYear(a);
      WithinYear(b);
      YearsAscend(GetYear(a), GetYear(b));
    } else if GetMonth(a) < GetMonth(b) {
      MonthsAscend(GetYear(a), GetMonth(a), GetMonth(b));
    }
  }

  lemma DateOrderIsDayOrder(a: nat, b: nat)
    requires IsDate(a) && IsDate(b)
    ensures a < b <==> DayNumber(a) < DayNumber(b)
    ensures a == b <==> DayNumber(a) == DayNumber(b)
  {
    hide DayNumber, IsDate;
    if a < b {
      EarlierDay(a, b);
    } else if b < a {
      EarlierDay(b, a);
    }
  }

  // ----- ranges -----

  /** The last date a 32-bit number can hold; the day after it overflows. */
  const LAST_INT32_DATE := 214748_1231

  lemma LastDateOverflows()
    ensures IsDate(LAST_INT32_DATE) && LAST_INT32_DATE <= INT32_MAX < GetNextDate(LAST_INT32_DATE)
  {
  }

  lemma NextFits(date: nat)
    requires IsDate(date)
    ensures GetNextDate(date) <= INT32_MAX <==> date < LAST_INT32_DATE
  {
    LastDateOverflows();
    hide DayNumber, MonthLength, GetNextDate;
    NextDateIsNextDay(date);
    NextDateIsNextDay(LAST_INT32_DATE);
    DateOrderIsDayOrder(date, LAST_INT32_DATE);
    DateOrderIsDayOrder(GetNextDate(date), LAST_INT32_DATE);
    DateOrderIsDayOrder(GetNextDate(date), GetNextDate(LAST_INT32_DATE));
  }

  lemma NoneBetween(date: nat, d: int)
    requires IsDate(date) && IsDate(d)
    ensures date < GetNextDate(date)
    ensures d < GetNextDate(date) <==> d <= date
  {
    hide DayNumber, MonthLength, GetNextDate;
    NextDateIsNextDay(date);
    DateOrderIsDayOrder(date, GetNextDate(date));
    DateOrderIsDayOrder(d, date);
    DateOrderIsDayOrder(d, GetNextDate(date));
  }

  // A range may begin at a number that is no date, as long as its month is one: up to the first date
  // after it the loop counts up by one.

  predicate HasMonth(date: int) {
    date >= 0 && 1 <= GetMonth(date) <= 12
  }

  /** The first date from a number on: itself, the first of its month, or the first of the next month. */
  function FirstDate(begin: nat): nat {
    if IsDate(begin) then begin else if GetDay(begin) == 0 then begin + 1 else (begin / 100 + 1) * 100 + 1
  }

  /** The loop never asks for the thirteenth month: it ends before, or finds a date before. */
  predicate CanStart(begin: int, end: int) {
    HasMonth(begin) && (IsDate(begin) || GetDay(begin) == 0 || GetMonth(begin) < 12 || end < (begin / 100 + 1) * 100)
  }

  lemma BeforeFirstDate(begin: nat, end: int, x: nat)
    requires CanStart(begin, end) && begin <= x < FirstDate(begin) && x <= end
    ensures HasMonth(x) && !IsDate(x) && GetNextDate(x) == x + 1
    ensures x + 1 < FirstDate(begin) || IsDate(x + 1)
  {
    hide MonthLength, DaysBeforeYear, DaysBeforeMonth, IsLeapYear;
    var year, month, day := GetYear(begin), GetMonth(begin), GetDay(begin);
    Whole(begin);
    MonthBasics(year, month);
    assert begin / 100 == year * 100 + month;
    if day == 0 {
      Parts(year, month, 1);
    } else if x < (begin / 100 + 1) * 100 {
      Parts(year, month, x - begin + day);
    } else {
      MonthBasics(year, month + 1);
      Parts(year, month + 1, 0);
      Parts(year, month + 1, 1);
    }
  }

  /** What the loop has found when it arrives at a date or at a number before the first one. */
  ghost predicate Collected(dates: seq<int>, begin: int, date: int)
    requires HasMonth(begin)
  {
    begin <= date && (date < FirstDate(begin) || IsDate(date)) &&
    (IsDate(begin) ==> IsDate(date) && |dates| == DayNumber(date) - DayNumber(begin)) &&
    (forall i, j :: 0 <= i < j < |dates| ==> dates[i] < dates[j]) &&
    forall d :: d in dates <==> begin <= d < date && (IsDate(d) || d < FirstDate(begin))
  }

  lemma CollectOne(dates: seq<int>, begin: int, date: int, end: int)
    requires CanStart(begin, end) && Collected(dates, begin, date) && date <= end
    ensures HasMonth(date) && date < GetNextDate(date) && Collected(dates + [date], begin, GetNextDate(date))
  {
    hide DayNumber, MonthLength, GetNextDate, FirstDate;
    FirstIsNotBefore(begin);
    if date < FirstDate(begin) {
      BeforeFirstDate(begin, end, date);
    } else {
      NextDateIsNextDay(date);
      NoneBetween(date, date);
    }
    var more, next := dates + [date], GetNextDate(date);
    forall d ensures d in more <==> begin <= d < next && (IsDate(d) || d < FirstDate(begin)) {
      if FirstDate(begin) <= date && IsDate(d) {
        NoneBetween(date, d);
      }
    }
    forall i, j | 0 <= i < j < |more| ensures more[i] < more[j] {
      assert more[i] in dates;
    }
  }

  lemma FirstIsNotBefore(begin: nat)
    ensures begin <= FirstDate(begin) && (IsDate(begin) ==> FirstDate(begin) == begin)
  {
  }

  lemma NextStaysSmall(begin: int, end: int, date: nat)
    requires CanStart(begin, end) && begin <= date <= end < LAST_INT32_DATE
    requires date < FirstDate(begin) || IsDate(date)
    ensures HasMonth(date) && GetNextDate(date) <= INT32_MAX
  {
    hide DayNumber, MonthLength, GetNextDate, FirstDate;
    if date < FirstDate(begin) {
      BeforeFirstDate(begin, end, date);
    } else {
      NextFits(date);
    }
  }

  /**
   GetRangeDate: exactly the dates from begin to end, one after the other, and before them the numbers
   up to the first date when the range begins at none.
   */
  method GetRangeDate(beginDate: int, endDate: int) returns (dates: seq<int>)
    requires beginDate <= endDate ==> CanStart(beginDate, endDate) && endDate < LAST_INT32_DATE
    ensures forall i, j :: 0 <= i < j < |dates| ==> dates[i] < dates[j]
    ensures forall d :: d in dates <==>
              beginDate <= d <= endDate && (IsDate(d) || d < FirstDate(beginDate))
    ensures beginDate <= endDate && IsDate(beginDate) && IsDate(endDate) ==>
              |dates| == DayNumber(endDate) - DayNumber(beginDate) + 1
  {
    dates := [];
    if beginDate > endDate {
      return;
    }
    hide DayNumber, MonthLength, GetNextDate, FirstDate;
    FirstIsNotBefore(beginDate);
    var date := beginDate;
    while date <= endDate
      invariant Collected(dates, beginDate, date) && date <= INT32_MAX
      invariant forall d :: d in dates ==> d <= endDate
      decreases endDate - date
    {
      CollectOne(dates, beginDate, date, endDate);
      NextStaysSmall(beginDate, endDate, date);
      dates := dates + [date];
      date := GetNextDate(date);
    }
    if IsDate(beginDate) && IsDate(endDate) {
      LastCollected(dates, beginDate, date, endDate);
    }
  }

  lemma LastCollected(dates: seq<int>, begin: int, date: int, end: int)
    requires IsDate(begin) && Collected(dates, begin, date) && IsDate(end) && begin <= end < date
    requires forall d :: d in dates ==> d <= end
    ensures DayNumber(date) == DayNumber(end) + 1
  {
    hide DayNumber, MonthLength, GetNextDate;
    NextDateIsNextDay(end);
    DateOrderIsDayOrder(end, date);
    DateOrderIsDayOrder(GetNextDate(end), date);
    NoneBetween(end, date);
    assert GetNextDate(end) !in dates;
  }
}
