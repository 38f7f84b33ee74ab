/** Depreciation schedules. Money is counted in cents: rounding to cents is rounding to a whole number. */
module Depreciation {
  import opened Rounding
  import opened Months

  datatype Method = StraightLine | DecliningBalance | UnitsOfProduction | SumOfYearsDigits

  /** An asset with its useful life already truncated to whole months; `accumulated` is what was depreciated before. */
  datatype Asset = Asset(
    cost: real, salvage: real, lifeMonths: int, depreciationMethod: Method, inService: Date, accumulated: real)

  /** `units` absent or empty is the missing usage series; `factor <= 0` stands for none supplied. */
  datatype Policy = Policy(units: seq<real>, totalUnits: real, factor: real)

  datatype Period = Period(index: nat, periodDate: Date, depreciation: int, accumulated: int, netBookValue: int)

  datatype Error = InvalidLife | MissingUsage

  datatype Result<T> = Ok(value: T) | Err(error: Error)

  const DEFAULT_DECLINING_BALANCE_FACTOR := 2.0

  function Max(a: real, b: real): real {
    if a > b then a else b
  }

  function Clamp(x: real, lo: real, hi: real): real {
    var low := if x < lo then lo else x;
    if low > hi then hi else low
  }

  function Sum(s: seq<int>): int {
    if s == [] then 0 else Sum(s[..|s| - 1]) + s[|s| - 1]
  }

  function SumReal(s: seq<real>): real {
    if s == [] then 0.0 else SumReal(s[..|s| - 1]) + s[|s| - 1]
  }

  function Rounded(s: seq<real>): (r: seq<int>)
    ensures |r| == |s| && forall i :: 0 <= i < |s| ==> r[i] == Round(s[i])
  {
    seq(|s|, i requires 0 <= i < |s| => Round(s[i]))
  }

  function DepreciableBase(a: Asset): (r: int)
    ensures r >= 0
  {
    var base := Round(a.cost - a.salvage);
    if base < 0 then 0 else base
  }

  // ---------------------------------------------------------------------------------------------
  // Rounding with the residual in the last period

  function TrueUp(amounts: seq<real>, total: int): (r: seq<int>)
    ensures |r| == |amounts|
  {
    if amounts == [] then []
    else
      var head := Rounded(amounts[..|amounts| - 1]);
      head + [Round(total as real - Sum(head) as real)]
  }

  /** No drift: the rounded periods add up to the total. */
  lemma TrueUpSums(amounts: seq<real>, total: int)
    requires amounts != []
    ensures Sum(TrueUp(amounts, total)) == total
  {
    var head := Rounded(amounts[..|amounts| - 1]);
    RoundWhole(total - Sum(head));
    var r := TrueUp(amounts, total);
    assert r[..|r| - 1] == head;
  }

  /** ... and the last one is off its exact value by at most half a cent for each other period. */
  lemma TrueUpBound(amounts: seq<real>, total: int)
    requires amounts != [] && SumReal(amounts) == total as real
    ensures var n := |amounts|; var last := TrueUp(amounts, total)[n - 1] as real;
            -((n - 1) as real) / 2.0 <= last - amounts[n - 1] <= (n - 1) as real / 2.0
  {
    var head, exact := amounts[..|amounts| - 1], amounts[|amounts| - 1];
    hide Round, Sum, Rounded;
    assert SumReal(head) + exact == total as real;
    RoundWhole(total - Sum(Rounded(head)));
    assert TrueUp(amounts, total)[|amounts| - 1] == total - Sum(Rounded(head));
    hide TrueUp, SumReal;
    RoundedDrift(head);
  }

  lemma {:induction false} RoundedDrift(s: seq<real>)
    ensures -(|s| as real) / 2.0 <= SumReal(s) - Sum(Rounded(s)) as real <= |s| as real / 2.0
    decreases |s|
  {
    if s != [] {
      var front, last := s[..|s| - 1], s[|s| - 1];
      RoundedDrift(front);
      RoundBounds(last);
      assert Rounded(s)[..|s| - 1] == Rounded(front);
    }
  }

  function StraightLineShares(base: int, n: nat): seq<real>
    requires n > 0
  {
    seq(n, _ => base as real / n as real)
  }

  function StraightLineAmounts(base: int, n: nat): seq<int>
    requires n > 0
  {
    TrueUp(StraightLineShares(base, n), base)
  }

  /** The sum of the digits 1 to n. */
  function Digits(n: nat): (r: real)
    ensures n > 0 ==> r > 0.0
  {
    n as real * (n as real + 1.0) / 2.0
  }

  function DigitShare(base: real, digit: real, digits: real): real
    requires digits > 0.0
  {
    base * digit / digits
  }

  function SumOfYearsShares(base: int, n: nat): seq<real>
    requires n > 0
  {
    seq(n, k requires 0 <= k < n => DigitShare(base as real, (n - k) as real, Digits(n)))
  }

  function SumOfYearsDigitsAmounts(base: int, n: nat): seq<int>
    requires n > 0
  {
    TrueUp(SumOfYearsShares(base, n), base)
  }

  /** The exact shares of both methods are the whole base, so the drift bound applies to their last period. */
  lemma StraightLineSharesSum(base: int, n: nat)
    requires n > 0
    ensures SumReal(StraightLineShares(base, n)) == base as real
  {
    EqualShares(StraightLineShares(base, n), base as real / n as real);
    Undivide(base as real, n as real);
  }

  lemma SumOfYearsSharesSum(base: int, n: nat)
    requires n > 0
    ensures SumReal(SumOfYearsShares(base, n)) == base as real
  {
    assert SumOfYearsShares(base, n)[..n] == SumOfYearsShares(base, n);
    FirstShares(base, n, n);
    var m := n as real;
    assert Digits(n) == FirstDigits(m, m);
    hide Digits, SumReal, SumOfYearsShares;
    WholeShare(base as real, Digits(n));
  }

  lemma Undivide(base: real, n: real)
    requires n > 0.0
    ensures n * (base / n) == base
  {
  }

  lemma WholeShare(base: real, digits: real)
    requires digits > 0.0
    ensures DigitShare(base, digits, digits) == base
  {
  }

  lemma {:induction false} EqualShares(s: seq<real>, share: real)
    requires forall i :: 0 <= i < |s| ==> s[i] == share
    ensures SumReal(s) == |s| as real * share
    decreases |s|
  {
    if s != [] { EqualShares(s[..|s| - 1], share); }
  }

  /** The sum of the digits n, n-1, ..., n-k+1 of the first `k` periods. */
  function FirstDigits(n: real, k: real): real {
    k * (2.0 * n - k + 1.0) / 2.0
  }

  lemma {:induction false} FirstShares(base: int, n: nat, k: nat)
    requires k <= n && n > 0
    ensures SumReal(SumOfYearsShares(base, n)[..k]) == DigitShare(base as real, FirstDigits(n as real, k as real), Digits(n))
    decreases k
  {
    hide Digits, FirstDigits, DigitShare;
    var s, b, m, j := SumOfYearsShares(base, n), base as real, n as real, k as real;
    if k == 0 {
      NoShare(b, m, Digits(n));
    } else {
      FirstShares(base, n, k - 1);
      assert s[..k][..k - 1] == s[..k - 1];
      assert s[k - 1] == DigitShare(b, m - j + 1.0, Digits(n));
      DigitsAdd(b, FirstDigits(m, j - 1.0), m - j + 1.0, Digits(n));
      OneMoreDigit(m, j);
    }
  }

  lemma NoShare(b: real, n: real, digits: real)
    requires digits > 0.0
    ensures DigitShare(b, FirstDigits(n, 0.0), digits) == 0.0
  {
  }

  lemma OneMoreDigit(n: real, k: real)
    ensures FirstDigits(n, k - 1.0) + (n - k + 1.0) == FirstDigits(n, k)
  {
  }

  lemma DigitsAdd(b: real, x: real, y: real, digits: real)
    requires digits > 0.0
    ensures DigitShare(b, x, digits) + DigitShare(b, y, digits) == DigitShare(b, x + y, digits)
  {
    AddOver(b * x, b * y, digits);
    assert b * (x + y) == b * x + b * y;
  }

  lemma AddOver(x: real, y: real, d: real)
    requires d > 0.0
    ensures x / d + y / d == (x + y) / d
  {
  }

  /** Sum of years is accelerated: any two periods' shares are as their digits, the earlier one larger. */
  lemma SharesFollowDigits(base: int, n: nat, i: nat, j: nat)
    requires i < j < n
    ensures var s := SumOfYearsShares(base, n); s[i] * (n - j) as real == s[j] * (n - i) as real
    ensures base > 0 ==> SumOfYearsShares(base, n)[i] > SumOfYearsShares(base, n)[j]
  {
    hide Digits, DigitShare;
    Proportion(base as real, (n - i) as real, (n - j) as real, Digits(n));
  }

  lemma Proportion(b: real, x: real, y: real, d: real)
    requires d > 0.0 && x > y
    ensures DigitShare(b, x, d) * y == DigitShare(b, y, d) * x
    ensures b > 0.0 ==> DigitShare(b, x, d) > DigitShare(b, y, d)
  {
    assert b * x / d * y == (b / d) * x * y;
    if b > 0.0 {
      assert b * (x - y) > 0.0;
      AddOver(b * y, b * (x - y), d);
      assert b * (x - y) / d > 0.0;
    }
  }

  // ---------------------------------------------------------------------------------------------
  // Declining balance

  /** One period's amount from the book value it opens with and the periods still to come, this one included. */
  function DecliningAmount(book: real, salvage: real, rate: real, remaining: nat): int
    requires remaining > 0
  {
    Round(DecliningExact(book, salvage, rate, remaining))
  }

  /** The remaining book value spread evenly. */
  function PerPeriod(depreciable: real, remaining: nat): real
    requires remaining > 0
  {
    depreciable / remaining as real
  }

  function AtRate(book: real, rate: real): real {
    book * rate
  }

  function DecliningExact(book: real, salvage: real, rate: real, remaining: nat): real
    requires remaining > 0
  {
    var depreciable := Max(0.0, book - salvage);
    var sl := PerPeriod(depreciable, remaining);
    if remaining == 1 then depreciable else Clamp(Max(AtRate(book, rate), sl), 0.0, depreciable)
  }

  function DecliningAmounts(book: real, salvage: real, rate: real, n: nat): (r: seq<int>)
    ensures |r| == n
    decreases n
  {
    if n == 0 then []
    else
      var amount := DecliningAmount(book, salvage, rate, n);
      [amount] + DecliningAmounts(Round(book - amount as real) as real, salvage, rate, n - 1)
  }

  method DeclineBalance(a: Asset, n: nat, factor: real) returns (amounts: seq<int>)
    requires n > 0
    ensures amounts == DecliningAmounts(a.cost - a.accumulated, a.salvage, factor / n as real, n)
  {
    hide Max, Clamp, Round, PerPeriod, AtRate;
    var rate := factor / n as real;
    var book := a.cost - a.accumulated;
    amounts := [];
    for k := 0 to n
      invariant amounts + DecliningAmounts(book, a.salvage, rate, n - k)
             == DecliningAmounts(a.cost - a.accumulated, a.salvage, rate, n)
    {
      ghost var whole := amounts + DecliningAmounts(book, a.salvage, rate, n - k);
      var depreciable := Max(0.0, book - a.salvage);
      var sl := PerPeriod(depreciable, n - k);
      var amount := Clamp(Max(AtRate(book, rate), sl), 0.0, depreciable);
      if k == n - 1 { amount := depreciable; }
      var cents := Round(amount);
      assert amount == DecliningExact(book, a.salvage, rate, n - k);
      assert cents == DecliningAmount(book, a.salvage, rate, n - k);
      hide DecliningAmount, DecliningExact;
      assert whole == amounts + [cents] + DecliningAmounts(Round(book - cents as real) as real, a.salvage, rate, n - k - 1);
      amounts := amounts + [cents];
      book := Round(book - cents as real) as real;
    }
  }

  /** No amount is negative, and together they are exactly what the opening book value has above salvage, if anything. */
  lemma {:induction false} DecliningLands(book: real, salvage: real, rate: real, n: nat)
    requires n > 0 && Whole(book) && Whole(salvage)
    ensures var amounts := DecliningAmounts(book, salvage, rate, n);
            (forall i :: 0 <= i < n ==> amounts[i] >= 0) && Sum(amounts) as real == Max(0.0, book - salvage)
    decreases n
  {
    hide DecliningAmount, Max, Whole, Round;
    var amount := DecliningAmount(book, salvage, rate, n);
    DecliningStep(book, salvage, rate, n);
    var rest := DecliningAmounts(book - amount as real, salvage, rate, n - 1);
    assert DecliningAmounts(book, salvage, rate, n) == [amount] + rest;
    SumPrepend(amount, rest);
    if n > 1 { DecliningLands(book - amount as real, salvage, rate, n - 1); }
  }

  lemma DecliningStep(book: real, salvage: real, rate: real, n: nat)
    requires n > 0 && Whole(book) && Whole(salvage)
    ensures var amount := DecliningAmount(book, salvage, rate, n); var depreciable := Max(0.0, book - salvage);
            && 0.0 <= amount as real <= depreciable
            && (n == 1 ==> amount as real == depreciable)
            && Round(book - amount as real) as real == book - amount as real
            && Whole(book - amount as real)
            && Max(0.0, book - amount as real - salvage) == depreciable - amount as real
  {
    var depreciable := Max(0.0, book - salvage);
    var exact := if n == 1 then depreciable else Clamp(Max(AtRate(book, rate), PerPeriod(depreciable, n)), 0.0, depreciable);
    assert 0.0 <= exact <= depreciable;
    RoundMonotone(0.0, exact);
    RoundMonotone(exact, depreciable);
    var d := if book >= salvage then book.Floor - salvage.Floor else 0;
    RoundWhole(d);
    RoundWhole(0);
    RoundWhole(book.Floor - DecliningAmount(book, salvage, rate, n));
  }

  lemma {:induction false} SumPrepend(x: int, s: seq<int>)
    ensures Sum([x] + s) == x + Sum(s)
    decreases |s|
  {
    if s != [] {
      SumPrepend(x, s[..|s| - 1]);
      assert ([x] + s)[..|s|] == [x] + s[..|s| - 1];
    }
  }

  // ---------------------------------------------------------------------------------------------
  // Units of production

  /** What has been recognised after the usage reported so far. */
  function Recognised(base: int, units: seq<real>, total: real): int
    requires total > 0.0
  {
    if units == [] then 0
    else
      var before := Recognised(base, units[..|units| - 1], total);
      Round(before as real + Capped(base, units[|units| - 1], total, before))
  }

  /** The part of the base that the usage stands for. */
  function Used(base: int, used: real, total: real): real
    requires total > 0.0
  {
    base as real * used / total
  }

  function Capped(base: int, used: real, total: real, recognised: int): real
    requires total > 0.0
  {
    Clamp(Used(base, used, total), 0.0, Round(base as real - recognised as real) as real)
  }

  /** Nothing negative, and the running total is what has been recognised, never more than the base. */
  ghost predicate WithinBase(base: int, units: seq<real>, total: real, amounts: seq<int>)
    requires total > 0.0
  {
    && |amounts| == |units|
    && (forall i :: 0 <= i < |amounts| ==> amounts[i] >= 0)
    && (forall i :: 0 <= i <= |amounts| ==> RunsTo(base, units[..i], total, amounts[..i]))
  }

  ghost predicate RunsTo(base: int, units: seq<real>, total: real, amounts: seq<int>)
    requires total > 0.0
  {
    0 <= Sum(amounts) == Recognised(base, units, total) <= base
  }

  function UnitAmounts(base: int, units: seq<real>, total: real): (r: seq<int>)
    requires total > 0.0
    ensures |r| == |units|
  {
    if units == [] then []
    else
      var front := units[..|units| - 1];
      UnitAmounts(base, front, total) + [Round(Capped(base, units[|units| - 1], total, Recognised(base, front, total)))]
  }

  method ProduceUnits(base: int, p: Policy) returns (r: Result<seq<int>>)
    ensures r == if p.units == [] || p.totalUnits <= 0.0 then Err(MissingUsage) else Ok(UnitAmounts(base, p.units, p.totalUnits))
  {
    if p.units == [] || p.totalUnits <= 0.0 { return Err(MissingUsage); }
    hide Clamp, Round, Used;
    var recognised: int := 0;
    var amounts: seq<int> := [];
    for k := 0 to |p.units|
      invariant recognised == Recognised(base, p.units[..k], p.totalUnits)
      invariant amounts == UnitAmounts(base, p.units[..k], p.totalUnits)
    {
      var raw := Used(base, p.units[k], p.totalUnits);
      var capped := Clamp(raw, 0.0, Round(base as real - recognised as real) as real);
      assert p.units[..k + 1][..k] == p.units[..k];
      recognised := Round(recognised as real + capped);
      amounts := amounts + [Round(capped)];
    }
    assert p.units[..|p.units|] == p.units;
    return Ok(amounts);
  }

  lemma SumsToRecognised(base: int, units: seq<real>, total: real, amounts: seq<int>)
    requires total > 0.0 && WithinBase(base, units, total, amounts)
    ensures Sum(amounts) == Recognised(base, units, total)
  {
    assert units[..|units|] == units && amounts[..|units|] == amounts;
    assert RunsTo(base, units[..|units|], total, amounts[..|units|]);
  }

  /** Whatever usage is reported, no amount is negative and the running total stays within the base. */
  lemma {:induction false} UnitsWithinBase(base: int, units: seq<real>, total: real)
    requires base >= 0 && total > 0.0
    ensures WithinBase(base, units, total, UnitAmounts(base, units, total))
    decreases |units|
  {
    if units != [] {
      var front, used := units[..|units| - 1], units[|units| - 1];
      UnitsWithinBase(base, front, total);
      var amounts := UnitAmounts(base, front, total);
      hide Clamp, Round, Used;
      assert units == front + [used];
      assert UnitAmounts(base, units, total) == amounts + [Round(Capped(base, used, total, Recognised(base, front, total)))];
      SumsToRecognised(base, front, total, amounts);
      assert Capped(base, used, total, Sum(amounts)) == Clamp(Used(base, used, total), 0.0, Round(base as real - Sum(amounts) as real) as real);
      hide WithinBase, RunsTo, Capped, UnitAmounts, Recognised, Sum;
      OneMoreUnit(base, front, total, amounts, used, Capped(base, used, total, Sum(amounts)));
    }
  }

  lemma OneMoreUnit(base: int, units: seq<real>, total: real, amounts: seq<int>, used: real, capped: real)
    requires total > 0.0 && WithinBase(base, units, total, amounts)
    requires capped == Clamp(Used(base, used, total), 0.0, Round(base as real - Sum(amounts) as real) as real)
    ensures WithinBase(base, units + [used], total, amounts + [Round(capped)])
    ensures Sum(amounts + [Round(capped)]) == Round(Sum(amounts) as real + capped)
  {
    hide Clamp, Round, Used;
    var k := |units|;
    assert units[..k] == units && amounts[..k] == amounts && RunsTo(base, units[..k], total, amounts[..k]);
    CappedFits(base, Used(base, used, total), Sum(amounts));
    var us, rs := units + [used], amounts + [Round(capped)];
    assert us[..k] == units && rs[..k] == amounts && us[..k + 1] == us && rs[..k + 1] == rs;
    assert capped == Capped(base, used, total, Sum(amounts));
    hide Capped;
    assert RunsTo(base, us, total, rs);
    forall i | 0 <= i <= k + 1 ensures RunsTo(base, us[..i], total, rs[..i]) {
      if i <= k {
        assert us[..i] == units[..i] && rs[..i] == amounts[..i];
        assert RunsTo(base, units[..i], total, amounts[..i]);
      }
    }
  }

  /** Rounding commutes with whole-cent shifts, so the running total grows by the rounded amount and stays within the base. */
  lemma CappedFits(base: int, raw: real, recognised: int)
    requires 0 <= recognised <= base
    ensures var capped := Clamp(raw, 0.0, Round(base as real - recognised as real) as real);
            0 <= Round(capped) <= base - recognised && Round(recognised as real + capped) == recognised + Round(capped)
  {
    var capped := Clamp(raw, 0.0, Round(base as real - recognised as real) as real);
    RoundWhole(base - recognised);
    RoundWhole(0);
    RoundMonotone(0.0, capped);
    RoundMonotone(capped, (base - recognised) as real);
    RoundShift(capped, recognised);
  }
}
