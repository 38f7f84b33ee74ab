/** What each row of a schedule shows, from the asset and the rows before it. */
module DepreciationPeriods {
  import opened Rounding
  import opened Months
  import opened Depreciation
  import opened DepreciationSchedule

  /** Cost less salvage to the nearest cent, or nothing when that is not positive. */
  predicate IsBase(base: int, a: Asset) {
    if a.cost - a.salvage < 0.5 then base == 0 else Nearest(base, a.cost - a.salvage)
  }

  lemma BaseNearest(a: Asset)
    ensures IsBase(DepreciableBase(a), a)
  {
    RoundBounds(a.cost - a.salvage);
  }

  lemma BaseUnique(a: Asset, b: int, c: int)
    requires IsBase(b, a) && IsBase(c, a)
    ensures b == c
  {
  }

  // ---------------------------------------------------------------------------------------------
  // Which assets have a schedule, and how long it is

  lemma ScheduleExists(a: Asset, p: Policy)
    ensures ScheduleOf(a, p) == Err(MissingUsage) <==>
      a.depreciationMethod == UnitsOfProduction && (|p.units| == 0 || p.totalUnits <= 0.0)
    ensures ScheduleOf(a, p) == Err(InvalidLife) <==> a.depreciationMethod != UnitsOfProduction && a.lifeMonths < 1
    ensures ScheduleOf(a, p).Ok? ==>
      |ScheduleOf(a, p).value| == if a.depreciationMethod == UnitsOfProduction then |p.units| else a.lifeMonths
  {
    hide Rows, StraightLineAmounts, SumOfYearsDigitsAmounts, DecliningAmounts, UnitAmounts, DepreciableBase;
    if ScheduleOf(a, p).Ok? && a.depreciationMethod != UnitsOfProduction {
      TimeLength(a, p);
    }
  }

  lemma TimeLength(a: Asset, p: Policy)
    requires a.lifeMonths > 0
    ensures |TimeAmounts(a, p)| == a.lifeMonths
  {
    hide DepreciableBase, StraightLineShares, SumOfYearsShares, TrueUp;
    if a.depreciationMethod == StraightLine { SharesLength(DepreciableBase(a), a.lifeMonths); }
    if a.depreciationMethod == SumOfYearsDigits { SharesLength(DepreciableBase(a), a.lifeMonths); }
  }

  lemma SharesLength(base: int, n: nat)
    requires n > 0
    ensures |StraightLineShares(base, n)| == n && |SumOfYearsShares(base, n)| == n
  {
  }

  // ---------------------------------------------------------------------------------------------
  // What every row carries forward

  /**
   * Rows are numbered from one, a month apart; each adds its own amount to what was accumulated before, and
   * what is left of the cost is the book value.
   */
  lemma RowCarries(a: Asset, p: Policy, rows: seq<Period>, i: nat)
    requires ScheduleOf(a, p) == Ok(rows) && i < |rows| && ValidDate(a.inService)
    ensures rows[i].index == i + 1
    ensures ValidDate(rows[i].periodDate) && MonthNumber(rows[i].periodDate) == MonthNumber(a.inService) + i + 1
    ensures Nearest(rows[0].accumulated - rows[0].depreciation, a.accumulated)
    ensures i > 0 ==> rows[i].accumulated == rows[i - 1].accumulated + rows[i].depreciation
    ensures Nearest(rows[i].accumulated + rows[i].netBookValue, a.cost)
  {
    hide TimeAmounts, UnitAmounts, DepreciableBase, AddMonths, Round, ValidDate;
    var amounts := if a.depreciationMethod == UnitsOfProduction then UnitAmounts(DepreciableBase(a), p.units, p.totalUnits)
                   else TimeAmounts(a, p);
    assert rows == Rows(a, amounts);
    AddMonthsMeaning(a.inService, i + 1);
    RoundBounds(a.accumulated);
    RoundBounds(a.cost);
    assert amounts[..i + 1][..i] == amounts[..i] && amounts[..1][..0] == [];
    assert Sum(amounts[..1]) == amounts[0];
  }

  // ---------------------------------------------------------------------------------------------
  // The amounts

  /** The sum of the amounts of the first `k` rows. */
  function Charged(rows: seq<Period>, k: nat): int
    requires k <= |rows|
  {
    if k == 0 then 0 else Charged(rows, k - 1) + rows[k - 1].depreciation
  }

  lemma {:induction false} ChargedIs(a: Asset, amounts: seq<int>, k: nat)
    requires k <= |amounts|
    ensures Charged(Rows(a, amounts), k) == Sum(amounts[..k])
    decreases k
  {
    if k > 0 {
      hide AddMonths, Round;
      ChargedIs(a, amounts, k - 1);
      assert amounts[..k][..k - 1] == amounts[..k - 1];
    }
  }

  /** True-up: each row but the last is its share to the nearest cent, and the last is what is left of the base. */
  lemma TrueUpRows(a: Asset, shares: seq<real>, base: int, i: nat)
    requires i < |shares|
    ensures var rows := Rows(a, TrueUp(shares, base)); var n := |shares|;
      && |rows| == n
      && (i < n - 1 ==> Nearest(rows[i].depreciation, shares[i]))
      && rows[n - 1].depreciation == base - Charged(rows, n - 1)
  {
    hide AddMonths;
    var amounts, n := TrueUp(shares, base), |shares|;
    var head := Rounded(shares[..n - 1]);
    assert amounts[..n - 1] == head;
    ChargedIs(a, amounts, n - 1);
    RoundWhole(base - Sum(head));
    if i < n - 1 { RoundBounds(shares[i]); }
    hide Round;
  }

  /** Straight line: every row but the last is the base over the life, and the last is what is left. */
  lemma StraightLinePeriod(a: Asset, p: Policy, rows: seq<Period>, base: int, i: nat)
    requires ScheduleOf(a, p) == Ok(rows) && a.depreciationMethod == StraightLine && IsBase(base, a) && i < |rows|
    ensures |rows| == a.lifeMonths
    ensures i < |rows| - 1 ==> Nearest(rows[i].depreciation, base as real / a.lifeMonths as real)
    ensures i == |rows| - 1 ==> rows[i].depreciation == base - Charged(rows, i)
  {
    ScheduleExists(a, p);
    BaseNearest(a);
    BaseUnique(a, base, DepreciableBase(a));
    var n: nat := a.lifeMonths;
    if base == 0 {
      ZeroRows(a, n, i);
      hide Rows, DepreciableBase;
      ZeroShare(n);
    } else {
      hide Rows, DepreciableBase, TrueUp;
      TrueUpRows(a, StraightLineShares(base, n), base, i);
    }
  }

  lemma ZeroShare(n: nat)
    requires n > 0
    ensures 0.0 / n as real == 0.0
  {
  }

  lemma ZeroRows(a: Asset, n: nat, i: nat)
    requires i < n
    ensures var rows := Rows(a, seq(n, _ => 0)); |rows| == n && rows[i].depreciation == 0 && Charged(rows, i) == 0
  {
    hide AddMonths, Round;
    ChargedIs(a, seq(n, _ => 0), i);
    assert seq(n, _ => 0)[..i] == seq(i, _ => 0);
    ZerosSum(i);
  }

  /** The part of the base that goes with n - i of the n(n + 1)/2 digits. */
  function DigitPart(base: real, n: real, i: real): real
    requires n > 0.0
  {
    base * (n - i) / (n * (n + 1.0) / 2.0)
  }

  /** Sum of years: each row but the last carries its digits' part of the base, and the last is what is left. */
  lemma SumOfYearsPeriod(a: Asset, p: Policy, rows: seq<Period>, base: int, i: nat)
    requires ScheduleOf(a, p) == Ok(rows) && a.depreciationMethod == SumOfYearsDigits && IsBase(base, a) && i < |rows|
    ensures |rows| == a.lifeMonths > 0
    ensures i < |rows| - 1 ==> Nearest(rows[i].depreciation, DigitPart(base as real, a.lifeMonths as real, i as real))
    ensures i == |rows| - 1 ==> rows[i].depreciation == base - Charged(rows, i)
  {
    ScheduleExists(a, p);
    BaseNearest(a);
    BaseUnique(a, base, DepreciableBase(a));
    var n: nat := a.lifeMonths;
    SharePart(base, n, i);
    hide DigitPart, SumOfYearsShares;
    if base == 0 {
      ZeroRows(a, n, i);
      hide Rows, DepreciableBase;
    } else {
      hide Rows, DepreciableBase, TrueUp, Nearest;
      TrueUpRows(a, SumOfYearsShares(base, n), base, i);
    }
  }

  lemma SharePart(base: int, n: nat, i: nat)
    requires i < n
    ensures |SumOfYearsShares(base, n)| == n && SumOfYearsShares(base, n)[i] == DigitPart(base as real, n as real, i as real)
    ensures base == 0 ==> DigitPart(base as real, n as real, i as real) == 0.0
  {
    assert SumOfYearsShares(base, n)[i] == DigitShare(base as real, (n - i) as real, Digits(n));
    assert Digits(n) == n as real * (n as real + 1.0) / 2.0;
    assert (n - i) as real == n as real - i as real;
    ZeroOver((n - i) as real, Digits(n));
  }

  lemma ZeroOver(x: real, d: real)
    requires d > 0.0
    ensures DigitShare(0.0, x, d) == 0.0
  {
  }

  // ---------------------------------------------------------------------------------------------
  // Declining balance

  /** The book value row `k` opens with: rounded from the second row on. */
  function OpeningBook(a: Asset, rows: seq<Period>, k: nat): real
    requires k <= |rows|
  {
    if k == 0 then a.cost - a.accumulated else (Round(a.cost - a.accumulated) - Charged(rows, k)) as real
  }

  /**
   * Of `left`, the book value above salvage, with `periods` to come: all of it in the last period, before that
   * `factor` times the even part of the whole life or the even part of what is left, whichever is more, and
   * never more than is left.
   */
  predicate DeclinesBy(cents: int, book: real, left: real, factor: real, life: nat, periods: nat)
    requires life > 0 && periods > 0
  {
    var atRate, even := book * (factor / life as real), left / periods as real;
    if periods == 1 || atRate >= left then Nearest(cents, left)
    else if atRate >= even then Nearest(cents, atRate)
    else Nearest(cents, even)
  }

  /** The amount the opening book value and the periods to come call for. */
  lemma DecliningAmountIs(book: real, salvage: real, factor: real, life: nat, periods: nat)
    requires life > 0 && periods > 0
    ensures DeclinesBy(DecliningAmount(book, salvage, factor / life as real, periods), book,
                       if book > salvage then book - salvage else 0.0, factor, life, periods)
  {
    var left, rate := if book > salvage then book - salvage else 0.0, factor / life as real;
    var even := left / periods as real;
    assert 0.0 <= even <= left && (periods == 1 ==> even == left) by { EvenPart(left, periods as real); }
    var exact := DecliningExact(book, salvage, rate, periods);
    assert PerPeriod(left, periods) == even && AtRate(book, rate) == book * rate;
    RoundBounds(exact);
    hide PerPeriod, AtRate, Round;
  }

  lemma EvenPart(left: real, periods: real)
    requires left >= 0.0 && periods >= 1.0
    ensures 0.0 <= left / periods <= left && (periods == 1.0 ==> left / periods == left)
  {
    var even := left / periods;
    assert even * periods == left;
  }

  lemma {:induction false} DecliningTail(book: real, salvage: real, rate: real, n: nat, k: nat)
    requires k < n
    ensures var amounts := DecliningAmounts(book, salvage, rate, n);
      amounts[k] == DecliningAmount(if k == 0 then book else (Round(book) - Sum(amounts[..k])) as real, salvage, rate, n - k)
    decreases k
  {
    hide DecliningAmount, Round;
    if k > 0 {
      var amount := DecliningAmount(book, salvage, rate, n);
      var next := Round(book - amount as real);
      var amounts, rest := DecliningAmounts(book, salvage, rate, n), DecliningAmounts(next as real, salvage, rate, n - 1);
      DecliningTail(next as real, salvage, rate, n - 1, k - 1);
      RoundShift(book, -amount);
      RoundWhole(next);
      assert amounts == [amount] + rest && amounts[..k] == [amount] + rest[..k - 1];
      SumPrepend(amount, rest[..k - 1]);
      assert Sum([]) == 0 && rest[..0] == [];
    }
  }

  /** The default multiplier is two. */
  predicate IsFactor(factor: real, p: Policy) {
    if p.factor > 0.0 then factor == p.factor else factor == 2.0
  }

  lemma FactorIs(p: Policy, factor: real)
    requires IsFactor(factor, p)
    ensures FactorOf(p) == factor
  {
  }

  /** Row `i` charges what its opening book value calls for. */
  predicate RowDeclines(a: Asset, rows: seq<Period>, factor: real, i: nat)
    requires i < |rows| == a.lifeMonths
  {
    var book := OpeningBook(a, rows, i);
    DeclinesBy(rows[i].depreciation, book, if book > a.salvage then book - a.salvage else 0.0,
               factor, a.lifeMonths, a.lifeMonths - i)
  }

  lemma DecliningRow(a: Asset, factor: real, n: nat, i: nat)
    requires i < n == a.lifeMonths
    ensures var rows := Rows(a, DecliningAmounts(a.cost - a.accumulated, a.salvage, factor / n as real, n));
      RowDeclines(a, rows, factor, i)
  {
    hide Rows, Round, DeclinesBy, DecliningAmounts, DecliningAmount;
    var book, rate := a.cost - a.accumulated, factor / n as real;
    var amounts := DecliningAmounts(book, a.salvage, rate, n);
    DecliningTail(book, a.salvage, rate, n, i);
    ChargedIs(a, amounts, i);
    AmountInRow(a, amounts, i);
    DecliningAmountIs(OpeningBook(a, Rows(a, amounts), i), a.salvage, factor, n, n - i);
  }

  lemma DecliningRows(a: Asset, p: Policy, rows: seq<Period>)
    requires ScheduleOf(a, p) == Ok(rows) && a.depreciationMethod == DecliningBalance
    ensures a.lifeMonths > 0
    ensures DepreciableBase(a) == 0 ==> rows == Rows(a, seq(a.lifeMonths, _ => 0))
    ensures DepreciableBase(a) != 0 ==>
      rows == Rows(a, DecliningAmounts(a.cost - a.accumulated, a.salvage, FactorOf(p) / a.lifeMonths as real, a.lifeMonths))
  {
    hide Rows, DepreciableBase, DecliningAmounts, FactorOf;
  }

  /** Declining balance, row by row; nothing at all when cost is not above salvage. */
  lemma DecliningPeriod(a: Asset, p: Policy, rows: seq<Period>, base: int, factor: real, i: nat)
    requires ScheduleOf(a, p) == Ok(rows) && a.depreciationMethod == DecliningBalance && i < |rows|
    requires IsBase(base, a) && IsFactor(factor, p)
    ensures |rows| == a.lifeMonths
    ensures if base == 0 then rows[i].depreciation == 0 else RowDeclines(a, rows, factor, i)
  {
    ScheduleExists(a, p);
    DecliningRows(a, p, rows);
    hide *;
    BaseNearest(a);
    BaseUnique(a, base, DepreciableBase(a));
    FactorIs(p, factor);
    if base == 0 { ZeroRows(a, a.lifeMonths, i); } else { DecliningRow(a, factor, a.lifeMonths, i); }
  }

  lemma AmountInRow(a: Asset, amounts: seq<int>, i: nat)
    requires i < |amounts|
    ensures Rows(a, amounts)[i].depreciation == amounts[i]
  {
  }

  // ---------------------------------------------------------------------------------------------
  // Units of production

  /** The usage's part of the base, but nothing for negative usage, and no more than is left of the base. */
  predicate UsedUp(cents: int, base: int, used: real, total: real, charged: int)
    requires total > 0.0
  {
    var part := base as real * used / total;
    if part >= (base - charged) as real then cents == base - charged
    else if part < 0.0 then cents == 0
    else Nearest(cents, part)
  }

  lemma CappedIs(base: int, used: real, total: real, charged: int)
    requires total > 0.0 && 0 <= charged <= base
    ensures UsedUp(Round(Capped(base, used, total, charged)), base, used, total, charged)
  {
    var part := base as real * used / total;
    assert Used(base, used, total) == part;
    RoundWhole(base - charged);
    RoundWhole(0);
    RoundBounds(part);
    hide Used, Round;
  }

  lemma {:induction false} UnitAmountsAt(base: int, units: seq<real>, total: real, i: nat)
    requires i < |units| && total > 0.0
    ensures var amounts := UnitAmounts(base, units, total);
      && amounts[..i] == UnitAmounts(base, units[..i], total)
      && amounts[i] == Round(Capped(base, units[i], total, Recognised(base, units[..i], total)))
    decreases |units|
  {
    hide Capped, Round, Recognised;
    var n := |units| - 1;
    if i < n {
      UnitAmountsAt(base, units[..n], total, i);
      assert units[..n][..i] == units[..i];
    }
  }

  /** Units of production, row by row. */
  lemma UnitsPeriod(a: Asset, p: Policy, rows: seq<Period>, base: int, i: nat)
    requires ScheduleOf(a, p) == Ok(rows) && a.depreciationMethod == UnitsOfProduction && IsBase(base, a) && i < |rows|
    ensures |rows| == |p.units| && p.totalUnits > 0.0
    ensures UsedUp(rows[i].depreciation, base, p.units[i], p.totalUnits, Charged(rows, i))
  {
    ScheduleExists(a, p);
    BaseNearest(a);
    BaseUnique(a, base, DepreciableBase(a));
    hide Rows, DepreciableBase, Round, UsedUp, IsBase, UnitAmounts, Recognised, Capped;
    var amounts, front := UnitAmounts(base, p.units, p.totalUnits), p.units[..i];
    assert rows == Rows(a, amounts);
    hide ScheduleOf;
    UnitAmountsAt(base, p.units, p.totalUnits, i);
    ChargedIs(a, amounts, i);
    AmountInRow(a, amounts, i);
    UnitsWithinBase(base, front, p.totalUnits);
    WithinBaseSums(base, front, p.totalUnits, amounts[..i]);
    SumsToRecognised(base, front, p.totalUnits, amounts[..i]);
    CappedIs(base, p.units[i], p.totalUnits, Charged(rows, i));
  }
}
