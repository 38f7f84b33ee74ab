/** Whole schedules: where they land, and which period a posting date finds. */
module DepreciationSchedule {
  import opened Rounding
  import opened Months
  import opened Depreciation

  /** The periods in closed form: each carries the opening accumulation and every amount up to its own. */
  function Rows(a: Asset, amounts: seq<int>): (r: seq<Period>)
    ensures |r| == |amounts|
  {
    seq(|amounts|, i requires 0 <= i < |amounts| =>
      var accumulated := Round(a.accumulated) + Sum(amounts[..i + 1]);
      Period(i + 1, AddMonths(a.inService, i + 1), amounts[i], accumulated, Round(a.cost) - accumulated))
  }

  method ToSchedule(a: Asset, amounts: seq<int>) returns (rows: seq<Period>)
    ensures rows == Rows(a, amounts)
  {
    hide Round, AddMonths;
    rows := [];
    var accumulated := a.accumulated;
    for i := 0 to |amounts|
      invariant accumulated == if i == 0 then a.accumulated else (Round(a.accumulated) + Sum(amounts[..i])) as real
      invariant rows == Rows(a, amounts)[..i]
    {
      assert amounts[..i + 1][..i] == amounts[..i];
      AccumulateOne(a.accumulated, Sum(amounts[..i]), i, amounts[i]);
      accumulated := Round(accumulated + amounts[i] as real) as real;
      AccumulatedBook(a.cost, Round(a.accumulated) + Sum(amounts[..i + 1]));
      rows := rows + [Period(i + 1, AddMonths(a.inService, i + 1), amounts[i],
                             Round(accumulated), Round(a.cost - accumulated))];
    }
  }

  lemma AccumulateOne(opening: real, before: int, i: nat, amount: int)
    requires i == 0 ==> before == 0
    ensures Round((if i == 0 then opening else (Round(opening) + before) as real) + amount as real) == Round(opening) + before + amount
  {
    RoundShift(opening, amount);
    RoundWhole(Round(opening) + before + amount);
  }

  lemma AccumulatedBook(cost: real, accumulated: int)
    ensures Round(cost - accumulated as real) == Round(cost) - accumulated
    ensures Round(accumulated as real) == accumulated
  {
    RoundShift(cost, -accumulated);
    RoundWhole(accumulated);
  }

  function RateOf(p: Policy, n: nat): real
    requires n > 0
  {
    FactorOf(p) / n as real
  }

  function FactorOf(p: Policy): real {
    if p.factor > 0.0 then p.factor else DEFAULT_DECLINING_BALANCE_FACTOR
  }

  /** The amounts of the methods that run over the useful life. */
  function TimeAmounts(a: Asset, p: Policy): seq<int>
    requires a.lifeMonths > 0
  {
    var n: nat, base := a.lifeMonths, DepreciableBase(a);
    if base == 0 then seq(n, _ => 0)
    else match a.depreciationMethod
      case StraightLine => StraightLineAmounts(base, n)
      case SumOfYearsDigits => SumOfYearsDigitsAmounts(base, n)
      case _ => DecliningAmounts(a.cost - a.accumulated, a.salvage, RateOf(p, n), n)
  }

  function ScheduleOf(a: Asset, p: Policy): Result<seq<Period>> {
    if a.depreciationMethod == UnitsOfProduction then
      if p.units == [] || p.totalUnits <= 0.0 then Err(MissingUsage)
      else Ok(Rows(a, UnitAmounts(DepreciableBase(a), p.units, p.totalUnits)))
    else if a.lifeMonths <= 0 then Err(InvalidLife)
    else Ok(Rows(a, TimeAmounts(a, p)))
  }

  method Schedule(a: Asset, p: Policy) returns (r: Result<seq<Period>>)
    ensures r == ScheduleOf(a, p)
  {
    hide Rows, UnitAmounts, Round, StraightLineAmounts, SumOfYearsDigitsAmounts, DecliningAmounts;
    var base := DepreciableBase(a);
    if a.depreciationMethod == UnitsOfProduction {
      var produced := ProduceUnits(base, p);
      if produced.Err? { return Err(produced.error); }
      var rows := ToSchedule(a, produced.value);
      return Ok(rows);
    }
    var n := a.lifeMonths;
    if n <= 0 { return Err(InvalidLife); }
    if base <= 0 {
      var rows := ToSchedule(a, seq(n, _ => 0));
      return Ok(rows);
    }
    var amounts;
    if a.depreciationMethod == StraightLine {
      amounts := StraightLineAmounts(base, n);
    } else if a.depreciationMethod == SumOfYearsDigits {
      amounts := SumOfYearsDigitsAmounts(base, n);
    } else {
      amounts := DeclineBalance(a, n, FactorOf(p));
    }
    var rows := ToSchedule(a, amounts);
    return Ok(rows);
  }

  // ---------------------------------------------------------------------------------------------
  // Where a schedule lands

  ghost predicate WholeCents(a: Asset) {
    Whole(a.cost) && Whole(a.salvage) && Whole(a.accumulated)
  }

  /** The net book value after the last period. */
  function FinalBook(rows: seq<Period>): int
    requires rows != []
  {
    rows[|rows| - 1].netBookValue
  }

  lemma FinalBookIs(a: Asset, amounts: seq<int>)
    requires amounts != []
    ensures FinalBook(Rows(a, amounts)) == Round(a.cost) - Round(a.accumulated) - Sum(amounts)
  {
    assert amounts[..|amounts|] == amounts;
  }

  lemma {:induction false} ZerosSum(n: nat)
    ensures Sum(seq(n, _ => 0)) == 0
    decreases n
  {
    if n > 0 {
      ZerosSum(n - 1);
      assert seq(n, _ => 0)[..n - 1] == seq(n - 1, _ => 0);
    }
  }

  lemma BaseIs(a: Asset)
    requires Whole(a.cost) && Whole(a.salvage) && a.cost >= a.salvage
    ensures DepreciableBase(a) == Round(a.cost) - Round(a.salvage)
  {
    RoundWhole(a.cost.Floor - a.salvage.Floor);
    RoundWhole(a.cost.Floor);
    RoundWhole(a.salvage.Floor);
  }

  /**
   * Straight line and sum of years recognise the whole base, so they end at salvage exactly when nothing was
   * accumulated before; an opening accumulation is taken off salvage.
   */
  lemma EvenMethodsLand(a: Asset, p: Policy)
    requires a.lifeMonths > 0 && a.depreciationMethod in {StraightLine, SumOfYearsDigits}
    requires Whole(a.cost) && Whole(a.salvage) && a.cost >= a.salvage
    ensures Sum(TimeAmounts(a, p)) == DepreciableBase(a) && |TimeAmounts(a, p)| == a.lifeMonths
    ensures FinalBook(Rows(a, TimeAmounts(a, p))) == Round(a.salvage) - Round(a.accumulated)
    ensures FinalBook(Rows(a, TimeAmounts(a, p))) as real == a.salvage <==> Round(a.accumulated) == 0
  {
    var n, base, amounts := a.lifeMonths, DepreciableBase(a), TimeAmounts(a, p);
    BaseIs(a);
    RoundWhole(a.salvage.Floor);
    hide Rows, FinalBook, Round, DepreciableBase;
    if base == 0 {
      ZerosSum(n);
    } else if a.depreciationMethod == StraightLine {
      TrueUpSums(StraightLineShares(base, n), base);
    } else {
      TrueUpSums(SumOfYearsShares(base, n), base);
    }
    FinalBookIs(a, amounts);
  }

  /**
   * Declining balance, from any opening book value: no period raises the book value, none takes it below
   * salvage if it was not below already, and it comes down to salvage exactly. A book value below salvage
   * stays, and so does any when cost is not above salvage.
   */
  lemma DecliningBalanceLands(a: Asset, p: Policy)
    requires a.lifeMonths > 0 && a.depreciationMethod == DecliningBalance && WholeCents(a)
    ensures var rows := Rows(a, TimeAmounts(a, p)); var book := a.cost - a.accumulated;
            && |rows| == a.lifeMonths
            && (forall i :: 0 <= i < |rows| ==> rows[i].depreciation >= 0 && rows[i].netBookValue as real <= book)
            && (forall i, j :: 0 <= i < j < |rows| ==> rows[j].netBookValue <= rows[i].netBookValue)
            && (book >= a.salvage ==> forall i :: 0 <= i < |rows| ==> rows[i].netBookValue as real >= a.salvage)
            && FinalBook(rows) as real == if DepreciableBase(a) > 0 && book > a.salvage then a.salvage else book
  {
    var amounts := TimeAmounts(a, p);
    DecliningFacts(a, p);
    hide *;
    FinalBookIs(a, amounts);
    BookFalls(a, amounts);
  }

  lemma DecliningFacts(a: Asset, p: Policy)
    requires a.lifeMonths > 0 && a.depreciationMethod == DecliningBalance && WholeCents(a)
    ensures var amounts := TimeAmounts(a, p); var book := a.cost - a.accumulated;
            && |amounts| == a.lifeMonths && (forall i :: 0 <= i < |amounts| ==> amounts[i] >= 0)
            && (Round(a.cost) - Round(a.accumulated)) as real == book
            && Sum(amounts) as real == if DepreciableBase(a) > 0 && book > a.salvage then book - a.salvage else 0.0
  {
    var n: nat, book := a.lifeMonths, a.cost - a.accumulated;
    WholeDifference(a.cost, a.accumulated);
    if DepreciableBase(a) == 0 {
      ZerosSum(n);
      assert TimeAmounts(a, p) == seq(n, _ => 0);
    } else {
      assert TimeAmounts(a, p) == DecliningAmounts(book, a.salvage, RateOf(p, n), n);
      hide DecliningAmounts, Round, Whole, RateOf, TimeAmounts, DepreciableBase;
      DecliningLands(book, a.salvage, RateOf(p, n), n);
    }
  }

  lemma WholeDifference(x: real, y: real)
    requires Whole(x) && Whole(y)
    ensures Whole(x - y) && (Round(x) - Round(y)) as real == x - y
  {
    var m, k := x.Floor, y.Floor;
    hide Round;
    RoundWhole(m);
    RoundWhole(k);
    FloorOfWhole(m - k);
    assert x - y == (m - k) as real;
  }

  lemma RoundOfWhole(x: real)
    requires Whole(x)
    ensures Round(x) as real == x
  {
    RoundWhole(x.Floor);
  }

  lemma WithinBaseSums(base: int, units: seq<real>, total: real, amounts: seq<int>)
    requires total > 0.0 && WithinBase(base, units, total, amounts)
    ensures 0 <= Sum(amounts) <= base && |amounts| == |units| && forall i :: 0 <= i < |amounts| ==> amounts[i] >= 0
  {
    assert amounts[..|units|] == amounts;
    assert RunsTo(base, units[..|units|], total, amounts[..|units|]);
  }

  lemma FloorOfWhole(k: int)
    ensures (k as real).Floor == k
  {
  }

  lemma BookFalls(a: Asset, amounts: seq<int>)
    requires forall i :: 0 <= i < |amounts| ==> amounts[i] >= 0
    ensures var rows := Rows(a, amounts);
            && (forall i, j :: 0 <= i < j < |rows| ==> rows[j].netBookValue <= rows[i].netBookValue)
            && (forall i :: 0 <= i < |rows| ==>
                  && rows[i].depreciation == amounts[i]
                  && rows[i].netBookValue <= Round(a.cost) - Round(a.accumulated)
                  && FinalBook(rows) <= rows[i].netBookValue)
  {
    hide Round, AddMonths;
    var rows := Rows(a, amounts);
    forall i, j | 0 <= i <= j <= |amounts| ensures Sum(amounts[..i]) <= Sum(amounts[..j]) { PrefixSums(amounts, i, j); }
    assert amounts[..0] == [];
  }

  lemma {:induction false} PrefixSums(s: seq<int>, i: nat, j: nat)
    requires i <= j <= |s| && forall k :: 0 <= k < |s| ==> s[k] >= 0
    ensures Sum(s[..i]) <= Sum(s[..j])
    decreases j
  {
    if i < j {
      PrefixSums(s, i, j - 1);
      assert s[..j][..j - 1] == s[..j - 1];
    }
  }

  // ---------------------------------------------------------------------------------------------
  // Finding a period by its date

  /** The depreciation of the period posted at the date, 0 if none is. */
  ghost function Posted(rows: seq<Period>, date: Date): int {
    if rows == [] then 0
    else if rows[0].periodDate == date then rows[0].depreciation
    else Posted(rows[1..], date)
  }

  ghost function PostedIn(schedule: Result<seq<Period>>, date: Date): Result<int> {
    if schedule.Err? then Err(schedule.error) else Ok(Posted(schedule.value, date))
  }

  method ForPeriod(a: Asset, date: Date, p: Policy) returns (r: Result<int>)
    ensures r == PostedIn(ScheduleOf(a, p), date)
  {
    hide ScheduleOf;
    var schedule := Schedule(a, p);
    if schedule.Err? { return Err(schedule.error); }
    ghost var rows := schedule.value;
    var i := 0;
    while i < |schedule.value|
      invariant 0 <= i <= |rows|
      invariant forall k :: 0 <= k < i ==> rows[k].periodDate != date
    {
      if schedule.value[i].periodDate == date {
        FirstPosted(rows, date, i);
        return Ok(schedule.value[i].depreciation);
      }
      i := i + 1;
    }
    NonePosted(rows, date);
    return Ok(0);
  }

  lemma {:induction false} FirstPosted(rows: seq<Period>, date: Date, i: nat)
    requires i < |rows| && rows[i].periodDate == date && forall k :: 0 <= k < i ==> rows[k].periodDate != date
    ensures Posted(rows, date) == rows[i].depreciation
    decreases i
  {
    if i > 0 { FirstPosted(rows[1..], date, i - 1); }
  }

  lemma {:induction false} NonePosted(rows: seq<Period>, date: Date)
    requires forall k :: 0 <= k < |rows| ==> rows[k].periodDate != date
    ensures Posted(rows, date) == 0
    decreases |rows|
  {
    if rows != [] { NonePosted(rows[1..], date); }
  }

  /** Posting dates are strictly later from period to period, so each finds its own period and no other. */
  lemma EveryPeriodIsFound(a: Asset, amounts: seq<int>, i: nat)
    requires ValidDate(a.inService) && i < |amounts|
    ensures Posted(Rows(a, amounts), Rows(a, amounts)[i].periodDate) == amounts[i]
    ensures forall j :: i < j < |amounts| ==> Before(Rows(a, amounts)[i].periodDate, Rows(a, amounts)[j].periodDate)
  {
    hide Round, AddMonths, Before, ValidDate;
    var rows := Rows(a, amounts);
    forall j | i < j < |amounts| ensures Before(rows[i].periodDate, rows[j].periodDate) {
      MoreMonthsIsLater(a.inService, i + 1, j + 1);
    }
    forall k | 0 <= k < i ensures rows[k].periodDate != rows[i].periodDate {
      MoreMonthsIsLater(a.inService, k + 1, i + 1);
    }
    FirstPosted(rows, rows[i].periodDate, i);
  }
}
