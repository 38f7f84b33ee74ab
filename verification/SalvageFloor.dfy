/** When a schedule keeps the book value at or above salvage, method by method. */
module SalvageFloor {
  import opened Rounding
  import opened Months
  import opened Depreciation
  import opened DepreciationSchedule

  /** A period's book value is at or above salvage exactly if what was accumulated by then fits between cost and salvage. */
  lemma BookAboveSalvage(a: Asset, amounts: seq<int>, i: nat)
    requires i < |amounts| && Whole(a.cost) && Whole(a.salvage)
    ensures Rows(a, amounts)[i].netBookValue as real >= a.salvage <==>
      Round(a.accumulated) + Sum(amounts[..i + 1]) <= Round(a.cost) - Round(a.salvage)
  {
    hide Round, AddMonths, Whole;
    RoundOfWhole(a.cost);
    RoundOfWhole(a.salvage);
  }

  /** No book value is below salvage. */
  ghost predicate NeverBelow(rows: seq<Period>, salvage: real) {
    forall i :: 0 <= i < |rows| ==> rows[i].netBookValue as real >= salvage
  }

  ghost predicate NonNegative(amounts: seq<int>) {
    forall i :: 0 <= i < |amounts| ==> amounts[i] >= 0
  }

  // ---------------------------------------------------------------------------------------------
  // Units of production

  /**
   * Units of production takes no book value below salvage exactly as long as the opening accumulation and
   * what has been recognised stay within the base; the schedule itself never recognises more than the base.
   */
  lemma UnitsNeverPassSalvage(a: Asset, p: Policy)
    requires p.totalUnits > 0.0 && Whole(a.cost) && Whole(a.salvage)
    ensures var base := DepreciableBase(a); var rows := Rows(a, UnitAmounts(base, p.units, p.totalUnits));
            && |rows| == |p.units|
            && (forall i :: 0 <= i < |rows| ==> rows[i].depreciation >= 0)
            && (forall i, j :: 0 <= i < j < |rows| ==> rows[j].netBookValue <= rows[i].netBookValue)
            && (forall i :: 0 <= i < |rows| ==>
                  (rows[i].netBookValue as real >= a.salvage <==>
                     Round(a.accumulated) + Recognised(base, p.units[..i + 1], p.totalUnits) <= Round(a.cost) - Round(a.salvage)))
            && (a.cost >= a.salvage && Round(a.accumulated) <= 0 ==> NeverBelow(rows, a.salvage))
  {
    var base := DepreciableBase(a);
    var amounts := UnitAmounts(base, p.units, p.totalUnits);
    hide Round, Whole, DepreciableBase, UnitAmounts, Recognised, Rows, Sum, WithinBase, RunsTo;
    UnitsWithinBase(base, p.units, p.totalUnits);
    WithinBaseSums(base, p.units, p.totalUnits, amounts);
    BookFalls(a, amounts);
    RowsCount(a, amounts);
    forall i | 0 <= i < |amounts|
      ensures Rows(a, amounts)[i].netBookValue as real >= a.salvage <==>
        Round(a.accumulated) + Recognised(base, p.units[..i + 1], p.totalUnits) <= Round(a.cost) - Round(a.salvage)
    {
      UnitsRow(a, p, amounts, i);
    }
    if a.cost >= a.salvage && Round(a.accumulated) <= 0 {
      forall i | 0 <= i < |amounts| ensures Rows(a, amounts)[i].netBookValue as real >= a.salvage {
        UnitsRow(a, p, amounts, i);
        BaseIs(a);
      }
    }
  }

  lemma RowsCount(a: Asset, amounts: seq<int>)
    ensures |Rows(a, amounts)| == |amounts|
  {
  }

  lemma UnitsRow(a: Asset, p: Policy, amounts: seq<int>, i: nat)
    requires p.totalUnits > 0.0 && Whole(a.cost) && Whole(a.salvage)
    requires WithinBase(DepreciableBase(a), p.units, p.totalUnits, amounts) && i < |amounts|
    ensures |amounts| == |p.units| && Recognised(DepreciableBase(a), p.units[..i + 1], p.totalUnits) <= DepreciableBase(a)
    ensures Rows(a, amounts)[i].netBookValue as real >= a.salvage <==>
      Round(a.accumulated) + Recognised(DepreciableBase(a), p.units[..i + 1], p.totalUnits) <= Round(a.cost) - Round(a.salvage)
  {
    hide Round, Whole, DepreciableBase, Recognised, Rows, Sum;
    BookAboveSalvage(a, amounts, i);
    assert RunsTo(DepreciableBase(a), p.units[..i + 1], p.totalUnits, amounts[..i + 1]);
  }

  /** Some usage series passes salvage exactly if the opening accumulation rounds to more than zero. */
  lemma UnitsSafeIffNothingBefore(a: Asset, total: real)
    requires total > 0.0 && Whole(a.cost) && Whole(a.salvage) && a.cost >= a.salvage
    ensures (forall units :: NeverBelow(Rows(a, UnitAmounts(DepreciableBase(a), units, total)), a.salvage)) <==>
      Round(a.accumulated) <= 0
  {
    hide Round, Whole, Rows, UnitAmounts, DepreciableBase, NeverBelow;
    if Round(a.accumulated) <= 0 {
      forall units ensures NeverBelow(Rows(a, UnitAmounts(DepreciableBase(a), units, total)), a.salvage) {
        UnitsNeverPassSalvage(a, Policy(units, total, 0.0));
      }
    } else {
      FullUsagePasses(a, total);
    }
  }

  lemma FullUsagePasses(a: Asset, total: real)
    requires total > 0.0 && Whole(a.cost) && Whole(a.salvage) && a.cost >= a.salvage && Round(a.accumulated) > 0
    ensures !NeverBelow(Rows(a, UnitAmounts(DepreciableBase(a), [total], total)), a.salvage)
  {
    hide Round, Whole, Rows, DepreciableBase;
    BaseIs(a);
    var base := DepreciableBase(a);
    FullUsage(base, total);
    RowsCount(a, [base]);
    BookAboveSalvage(a, [base], 0);
    assert [base][..0] == [] && [base][..1] == [base];
    assert Sum([base]) == base;
  }

  lemma FullUsage(base: int, total: real)
    requires base >= 0 && total > 0.0
    ensures UnitAmounts(base, [total], total) == [base]
  {
    assert [total][..0] == [];
    assert Used(base, total, total) == base as real by { Refund(base as real, total); }
    RoundWhole(base);
    assert Recognised(base, [], total) == 0;
    assert Capped(base, total, total, 0) == base as real;
  }

  lemma Refund(b: real, total: real)
    requires total > 0.0
    ensures b * total / total == b
  {
  }

  /** Half depreciated before and then used in full: the book value ends at minus fifty. */
  lemma UnitsPassSalvage(inService: Date)
    ensures var a := Asset(100.0, 0.0, 12, UnitsOfProduction, inService, 50.0);
            FinalBook(Rows(a, UnitAmounts(DepreciableBase(a), [1.0], 1.0))) == -50
  {
    var a := Asset(100.0, 0.0, 12, UnitsOfProduction, inService, 50.0);
    assert DepreciableBase(a) == 100 by { RoundWhole(100); }
    RoundWhole(100);
    RoundWhole(50);
    FullUsage(100, 1.0);
    assert [100][..0] == [];
    FinalBookIs(a, [100]);
  }

  // ---------------------------------------------------------------------------------------------
  // Declining balance

  /** Nothing to depreciate, and an opening accumulation below zero: the book value stays above salvage. */
  lemma ZeroBaseStays(inService: Date, p: Policy)
    ensures var a := Asset(100.0, 100.0, 12, DecliningBalance, inService, -50.0);
            FinalBook(Rows(a, TimeAmounts(a, p))) == 150
  {
    var a := Asset(100.0, 100.0, 12, DecliningBalance, inService, -50.0);
    assert DepreciableBase(a) == 0 by { RoundWhole(0); }
    DecliningBalanceLands(a, p);
  }

  // ---------------------------------------------------------------------------------------------
  // Straight line and sum of years

  /** What the periods before the last recognise. */
  function HeadSum(shares: seq<real>): int
    requires shares != []
  {
    Sum(Rounded(shares[..|shares| - 1]))
  }

  /** A true-up leaves no negative amount exactly if the other periods do not already exceed the total. */
  lemma TrueUpSign(shares: seq<real>, total: int)
    requires shares != [] && forall i :: 0 <= i < |shares| ==> shares[i] >= 0.0
    ensures NonNegative(TrueUp(shares, total)) <==> HeadSum(shares) <= total
  {
    var n := |shares|;
    var head := Rounded(shares[..n - 1]);
    RoundWhole(total - Sum(head));
    RoundWhole(0);
    hide Sum, Round;
    assert TrueUp(shares, total)[n - 1] == total - Sum(head);
    forall i | 0 <= i < n - 1 ensures TrueUp(shares, total)[i] >= 0 {
      RoundMonotone(0.0, shares[i]);
    }
  }

  lemma StraightLineSharesFit(base: int, n: nat)
    requires n > 0 && base >= 0
    ensures forall i :: 0 <= i < n ==> StraightLineShares(base, n)[i] >= 0.0
    ensures HeadSum(StraightLineShares(base, n)) == (n - 1) * Round(base as real / n as real)
  {
    var per := base as real / n as real;
    assert per >= 0.0;
    ConstantSum(Rounded(StraightLineShares(base, n)[..n - 1]), Round(per));
  }

  /** A straight-line schedule has no negative amount exactly when the other periods do not already exceed the base. */
  lemma StraightLineSign(base: int, n: nat)
    requires n > 0 && base >= 0
    ensures NonNegative(StraightLineAmounts(base, n)) <==> (n - 1) * Round(base as real / n as real) <= base
  {
    hide Round, StraightLineShares, HeadSum, TrueUp;
    StraightLineSharesFit(base, n);
    assert |StraightLineShares(base, n)| == n by { SharesCount(base, n); }
    TrueUpSign(StraightLineShares(base, n), base);
  }

  lemma SharesCount(base: int, n: nat)
    requires n > 0
    ensures |StraightLineShares(base, n)| == n == |SumOfYearsShares(base, n)|
  {
  }

  lemma {:induction false} ConstantSum(s: seq<int>, c: int)
    requires forall i :: 0 <= i < |s| ==> s[i] == c
    ensures Sum(s) == |s| * c
    decreases |s|
  {
    if s != [] { ConstantSum(s[..|s| - 1], c); }
  }

  /** Half a cent for each other period is enough room. */
  lemma StraightLineLargeBase(base: int, n: nat)
    requires n > 0 && 2 * base >= n * (n - 1)
    ensures NonNegative(StraightLineAmounts(base, n))
  {
    var per := base as real / n as real;
    RoundBounds(per);
    OthersFit(base, n, per, Round(per));
    assert base >= 0;
    StraightLineSign(base, n);
  }

  lemma OthersFit(base: int, n: nat, per: real, cents: int)
    requires n > 0 && 2 * base >= n * (n - 1) && per * n as real == base as real && cents as real <= per + 0.5
    ensures (n - 1) * cents <= base && base >= 0
  {
    assert base >= 0 by { Times(n - 1, 0, n); }
    TimesReal(n as real, cents as real, per + 0.5);
    assert n as real * (per + 0.5) == base as real + n as real / 2.0;
    var all := n * cents;
    assert n as real * cents as real == all as real;
    // so twice all n of them are at most twice the base and one n
    Times(n - 1, 2 * all, 2 * base + n);
    Spread(n, base);
    Regroup(n, cents);
    Cancel(n, (n - 1) * cents, base);
  }

  lemma Times(m: int, x: int, y: int)
    requires m >= 0 && x <= y
    ensures m * x <= m * y
  {
  }

  lemma TimesReal(m: real, x: real, y: real)
    requires m >= 0.0 && x <= y
    ensures m * x <= m * y
  {
    assert m * (y - x) >= 0.0;
  }

  lemma Spread(n: int, base: int)
    ensures (n - 1) * (2 * base + n) == 2 * (n * base) - 2 * base + n * (n - 1)
  {
  }

  lemma Regroup(n: int, cents: int)
    ensures (n - 1) * (2 * (n * cents)) == 2 * (n * ((n - 1) * cents))
  {
  }

  lemma Cancel(n: int, x: int, y: int)
    requires n > 0 && n * x <= n * y
    ensures x <= y
  {
    if x > y { Times(n, y + 1, x); }
  }

  /** Three cents over five months: four times one cent and then minus one. */
  lemma SmallBaseOvershoots()
    ensures StraightLineAmounts(3, 5)[4] < 0
  {
    StraightLineSign(3, 5);
    var per := 3 as real / 5 as real;
    assert per == 0.6;
    assert Round(per) == 1;
    var amounts := StraightLineAmounts(3, 5);
    var exact := StraightLineShares(3, 5);
    var head := Rounded(exact[..4]);
    ConstantSum(head, 1);
    RoundWhole(-1);
  }

  lemma SumOfYearsSharesFit(base: int, n: nat)
    requires n > 0 && base >= 0
    ensures forall i :: 0 <= i < n ==> SumOfYearsShares(base, n)[i] >= 0.0
  {
    hide Digits;
    forall i | 0 <= i < n ensures SumOfYearsShares(base, n)[i] >= 0.0 {
      ShareSign(base as real, (n - i) as real, Digits(n));
    }
  }

  lemma ShareSign(b: real, digit: real, digits: real)
    requires b >= 0.0 && digit >= 0.0 && digits > 0.0
    ensures DigitShare(b, digit, digits) >= 0.0
  {
    assert b * digit >= 0.0;
  }

  /** Sum of years has no negative amount exactly when the other periods do not already exceed the base. */
  lemma SumOfYearsSign(base: int, n: nat)
    requires n > 0 && base >= 0
    ensures NonNegative(SumOfYearsDigitsAmounts(base, n)) <==> HeadSum(SumOfYearsShares(base, n)) <= base
  {
    hide Round, SumOfYearsShares, HeadSum, TrueUp;
    SumOfYearsSharesFit(base, n);
    SharesCount(base, n);
    TrueUpSign(SumOfYearsShares(base, n), base);
  }

  /** The drift of the other periods leaves room in the last once the base exceeds n(n+1)(n-3)/4 cents. */
  lemma SumOfYearsLargeBase(base: int, n: nat)
    requires n > 0 && base >= 0 && 4 * base > n * (n + 1) * (n - 3)
    ensures NonNegative(SumOfYearsDigitsAmounts(base, n))
  {
    hide SumOfYearsShares, TrueUp, HeadSum, Sum, SumReal, Round, Rounded, DigitShare;
    var shares := SumOfYearsShares(base, n);
    SharesCount(base, n);
    SumOfYearsSharesSum(base, n);
    TrueUpBound(shares, base);
    LastShare(base, n);
    LastIs(shares, base);
    assert TrueUp(shares, base)[n - 1] as real > -1.0;
    SumOfYearsSign(base, n);
  }

  lemma LastIs(shares: seq<real>, total: int)
    requires shares != []
    ensures TrueUp(shares, total)[|shares| - 1] == total - HeadSum(shares)
  {
    RoundWhole(total - HeadSum(shares));
  }

  lemma LastShare(base: int, n: nat)
    requires n > 0 && 4 * base > n * (n + 1) * (n - 3)
    ensures |SumOfYearsShares(base, n)| == n && SumOfYearsShares(base, n)[n - 1] > (n as real - 3.0) / 2.0
  {
    var m := n as real;
    var whole := n * (n + 1);
    assert whole as real == m * (m + 1.0);
    assert (whole * (n - 3)) as real == m * (m + 1.0) * (m - 3.0);
    assert whole * (n - 3) == n * (n + 1) * (n - 3);
    assert Digits(n) == m * (m + 1.0) / 2.0;
    hide Digits;
    OneDigit(base as real, Digits(n), m - 3.0);
  }

  lemma OneDigit(b: real, digits: real, x: real)
    requires digits > 0.0 && 4.0 * b > 2.0 * digits * x
    ensures DigitShare(b, 1.0, digits) > x / 2.0
  {
    var share := b / digits;
    assert share * digits == b;
    if share <= x / 2.0 {
      TimesReal(digits, share, x / 2.0);
      assert false;
    }
  }

  /** Seven cents over seven months: eight cents in six months and then minus one. */
  lemma SmallDigitsOvershoot()
    ensures SumOfYearsDigitsAmounts(7, 7)[6] == -1
  {
    var shares := SumOfYearsShares(7, 7);
    assert Digits(7) == 28.0;
    assert shares == [1.75, 1.5, 1.25, 1.0, 0.75, 0.5, 0.25];
    assert shares[..6] == [1.75, 1.5, 1.25, 1.0, 0.75, 0.5];
    assert Rounded(shares[..6]) == [2, 2, 1, 1, 1, 1];
    SixSum(2, 2, 1, 1, 1, 1);
    LastIs(shares, 7);
  }

  lemma SixSum(a: int, b: int, c: int, d: int, e: int, f: int)
    ensures Sum([a, b, c, d, e, f]) == a + b + c + d + e + f
  {
    assert [a, b, c, d, e, f][..5] == [a, b, c, d, e] && [a, b, c, d, e][..4] == [a, b, c, d];
    assert [a, b, c, d][..3] == [a, b, c] && [a, b, c][..2] == [a, b] && [a, b][..1] == [a] && [a][..0] == [];
    assert Sum([a]) == a && Sum([a, b]) == a + b && Sum([a, b, c]) == a + b + c;
    assert Sum([a, b, c, d]) == a + b + c + d && Sum([a, b, c, d, e]) == a + b + c + d + e;
  }

  /** The unrounded shares of the two even methods. */
  function EvenShares(a: Asset): (r: seq<real>)
    requires a.lifeMonths > 0
    ensures |r| == a.lifeMonths
  {
    if a.depreciationMethod == StraightLine then StraightLineShares(DepreciableBase(a), a.lifeMonths)
    else SumOfYearsShares(DepreciableBase(a), a.lifeMonths)
  }

  /**
   * Straight line and sum of years keep every book value at or above salvage exactly if the opening
   * accumulation rounds to at most zero and, with the periods before the last, stays within the base.
   */
  lemma EvenMethodsNeverPassSalvage(a: Asset, p: Policy)
    requires a.lifeMonths > 0 && a.depreciationMethod in {StraightLine, SumOfYearsDigits}
    requires Whole(a.cost) && Whole(a.salvage) && a.cost >= a.salvage
    ensures var rows := Rows(a, TimeAmounts(a, p));
            NeverBelow(rows, a.salvage) <==>
              Round(a.accumulated) <= 0 && Round(a.accumulated) + HeadSum(EvenShares(a)) <= DepreciableBase(a)
  {
    var amounts, n: nat := TimeAmounts(a, p), a.lifeMonths;
    BaseIs(a);
    EvenMethodsLand(a, p);
    EvenPrefixes(a, p);
    hide *;
    assert amounts[..n] == amounts;
    NeverBelowIff(a, amounts, Round(a.accumulated), DepreciableBase(a));
    PrefixesFit(amounts, Round(a.accumulated), DepreciableBase(a));
  }

  /** Every sum so far, on top of the opening accumulation, is within the base. */
  ghost predicate AllFit(amounts: seq<int>, opening: int, base: int) {
    forall i :: 0 < i <= |amounts| ==> opening + Sum(amounts[..i]) <= base
  }

  lemma NeverBelowIff(a: Asset, amounts: seq<int>, opening: int, base: int)
    requires Whole(a.cost) && Whole(a.salvage) && opening == Round(a.accumulated) && base == Round(a.cost) - Round(a.salvage)
    ensures NeverBelow(Rows(a, amounts), a.salvage) <==> AllFit(amounts, opening, base)
  {
    hide Round, Whole, Sum, Rows;
    RowsCount(a, amounts);
    forall i | 0 <= i < |amounts|
      ensures Rows(a, amounts)[i].netBookValue as real >= a.salvage <==> opening + Sum(amounts[..i + 1]) <= base
    {
      BookAboveSalvage(a, amounts, i);
    }
    if NeverBelow(Rows(a, amounts), a.salvage) {
      forall i | 0 < i <= |amounts| ensures opening + Sum(amounts[..i]) <= base {
        assert Rows(a, amounts)[i - 1].netBookValue as real >= a.salvage;
      }
    }
  }

  lemma PrefixesFit(amounts: seq<int>, opening: int, base: int)
    requires amounts != [] && Sum(amounts) == base
    requires |amounts| == 1 ==> Sum(amounts[..|amounts| - 1]) == 0
    requires base >= 0 && forall i :: 0 <= i < |amounts| ==> Sum(amounts[..i]) <= Sum(amounts[..|amounts| - 1])
    ensures AllFit(amounts, opening, base) <==> opening <= 0 && opening + Sum(amounts[..|amounts| - 1]) <= base
  {
    hide Sum;
    assert amounts[..|amounts|] == amounts;
    if |amounts| > 1 && AllFit(amounts, opening, base) {
      assert opening + Sum(amounts[..|amounts| - 1]) <= base;
    }
  }

  /** Until the last period the amounts recognised only grow, up to the head sum. */
  lemma EvenPrefixes(a: Asset, p: Policy)
    requires a.lifeMonths > 0 && a.depreciationMethod in {StraightLine, SumOfYearsDigits}
    ensures var amounts := TimeAmounts(a, p); var n := a.lifeMonths;
      && |amounts| == n && Sum(amounts[..n - 1]) == HeadSum(EvenShares(a))
      && (n == 1 ==> Sum(amounts[..0]) == 0)
      && forall i :: 0 <= i < n ==> Sum(amounts[..i]) <= Sum(amounts[..n - 1])
  {
    var amounts, shares, base, n := TimeAmounts(a, p), EvenShares(a), DepreciableBase(a), a.lifeMonths;
    var head := Rounded(shares[..n - 1]);
    assert amounts[..n - 1] == head && forall i :: 0 <= i < n - 1 ==> head[i] >= 0 by {
      EvenHead(a, p);
    }
    forall i | 0 <= i < n ensures Sum(amounts[..i]) <= Sum(amounts[..n - 1]) {
      PrefixSums(head, i, n - 1);
      assert head[..i] == amounts[..i] && head[..n - 1] == head;
    }
  }

  lemma EvenHead(a: Asset, p: Policy)
    requires a.lifeMonths > 0 && a.depreciationMethod in {StraightLine, SumOfYearsDigits}
    ensures var amounts := TimeAmounts(a, p); var head := Rounded(EvenShares(a)[..a.lifeMonths - 1]);
      |amounts| == a.lifeMonths && amounts[..a.lifeMonths - 1] == head && forall i :: 0 <= i < |head| ==> head[i] >= 0
  {
    var base, n: nat := DepreciableBase(a), a.lifeMonths;
    var shares := EvenShares(a);
    hide DepreciableBase;
    StraightLineSharesFit(base, n);
    SumOfYearsSharesFit(base, n);
    RoundWhole(0);
    forall i | 0 <= i < n - 1 ensures Round(shares[i]) >= 0 { RoundMonotone(0.0, shares[i]); }
    if base == 0 { ZeroShares(a); }
  }

  lemma ZeroShares(a: Asset)
    requires a.lifeMonths > 0 && DepreciableBase(a) == 0
    ensures forall i :: 0 <= i < a.lifeMonths ==> EvenShares(a)[i] == 0.0 && Round(EvenShares(a)[i]) == 0
  {
    RoundWhole(0);
    hide Digits;
    var n: nat := a.lifeMonths;
    forall i | 0 <= i < n ensures SumOfYearsShares(0, n)[i] == 0.0 { ZeroShare((n - i) as real, Digits(n)); }
  }

  lemma ZeroShare(digit: real, digits: real)
    requires digits > 0.0
    ensures DigitShare(0.0, digit, digits) == 0.0
  {
  }
}
