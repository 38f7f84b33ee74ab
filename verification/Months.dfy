/** Calendar dates and moving them by whole months, clamped to the shorter month. */
module Months {
  /** `month` counts from 0, as in a JavaScript date. */
  datatype Date = Date(year: int, month: nat, day: nat)

  predicate Leap(y: int) {
    y % 4 == 0 && (y % 100 != 0 || y % 400 == 0)
  }

  function DaysIn(y: int, m: nat): nat {
    if m == 1 then (if Leap(y) then 29 else 28)
    else if m in {3, 5, 8, 10} then 30
    else 31
  }

  predicate ValidDate(d: Date) {
    d.month < 12 && 1 <= d.day <= DaysIn(d.year, d.month)
  }

  function AddMonths(d: Date, months: int): Date {
    var m := d.month + months;
    var y, target := d.year + m / 12, m % 12;
    Date(y, target, if d.day < DaysIn(y, target) then d.day else DaysIn(y, target))
  }

  function MonthNumber(d: Date): int {
    12 * d.year + d.month
  }

  /** The result is a date of exactly the month asked for: the same day where that month has it, its last day where not. */
  lemma AddMonthsMeaning(d: Date, months: int)
    requires ValidDate(d)
    ensures var r := AddMonths(d, months);
            && ValidDate(r) && MonthNumber(r) == MonthNumber(d) + months
            && r.day <= d.day
            && (r.day != d.day ==> r.day == DaysIn(r.year, r.month))
  {
  }

  /** Days in that many months from March on. */
  function DaysSinceMarch(months: nat): nat {
    (153 * months + 2) / 5
  }

  /** Days in the years before `y`, with a leap day every fourth year, none every hundredth, one every four-hundredth. */
  function DaysBeforeYear(y: int): int {
    365 * (y - 1) + (y - 1) / 4 - (y - 1) / 100 + (y - 1) / 400
  }

  /** The months are those of the Gregorian calendar. */
  lemma MonthsAreGregorian(y: int, m: nat)
    requires m < 12
    ensures m != 1 ==> var k := (m + 10) % 12; DaysIn(y, m) == DaysSinceMarch(k + 1) - DaysSinceMarch(k)
    ensures DaysIn(y, 1) == DaysBeforeYear(y + 1) - DaysBeforeYear(y) - DaysSinceMarch(11)
  {
    LeapDays(y);
  }

  lemma LeapDays(y: int)
    ensures DaysBeforeYear(y + 1) - DaysBeforeYear(y) == if Leap(y) then 366 else 365
  {
    Quotients(y, 4);
    Quotients(y, 100);
    Quotients(y, 400);
    if y % 400 == 0 { FourHundredth(y); }
    if y % 100 == 0 { Hundredth(y); }
  }

  lemma FourHundredth(y: int)
    requires y % 400 == 0
    ensures y % 100 == 0
  {
    assert y == 100 * (4 * (y / 400));
  }

  lemma Hundredth(y: int)
    requires y % 100 == 0
    ensures y % 4 == 0
  {
    assert y == 4 * (25 * (y / 100));
  }

  lemma Quotients(y: int, d: nat)
    requires d > 1
    ensures y / d - (y - 1) / d == if y % d == 0 then 1 else 0
  {
    var q, r := y / d, y % d;
    assert y == q * d + r;
    if r == 0 { QuotientIs(y - 1, d, q - 1, d - 1); } else { QuotientIs(y - 1, d, q, r - 1); }
  }

  lemma QuotientIs(x: int, d: nat, q: int, r: nat)
    requires r < d && x == q * d + r
    ensures x / d == q
  {
    var k := x / d - q;
    assert k * d == r - x % d;
  }

  /** Earlier in the calendar. */
  predicate Before(a: Date, b: Date) {
    a.year < b.year || (a.year == b.year && (a.month < b.month || (a.month == b.month && a.day < b.day)))
  }

  /** Of two dates one is earlier or they are the same, and earlier than an earlier one is earlier still. */
  lemma BeforeOrders(a: Date, b: Date, c: Date)
    ensures (Before(a, b) || Before(b, a)) <==> a != b
    ensures !(Before(a, b) && Before(b, a))
    ensures Before(a, b) && Before(b, c) ==> Before(a, c)
  {
  }

  /** The days of a month are those from the first to the last. */
  lemma ValidDays(y: int, m: nat, d: nat)
    ensures ValidDate(Date(y, m, d)) <==> m <= 11 && d != 0 && !(d > DaysIn(y, m))
  {
  }

  lemma MoreMonthsIsLater(d: Date, i: int, j: int)
    requires ValidDate(d) && i < j
    ensures Before(AddMonths(d, i), AddMonths(d, j)) && AddMonths(d, i) != AddMonths(d, j)
  {
    AddMonthsMeaning(d, i);
    AddMonthsMeaning(d, j);
    var a, b := AddMonths(d, i), AddMonths(d, j);
    assert a.month < 12 && b.month < 12 && MonthNumber(a) < MonthNumber(b);
  }
}
