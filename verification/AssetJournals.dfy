/** The journals of a depreciation period and of a disposal, and exactly when a disposal balances. */
module AssetJournals {
  import opened Options
  import opened Rounding
  import opened Depreciation

  datatype Line = Line(account: string, debit: int, credit: int)

  function Debits(lines: seq<Line>): int {
    if lines == [] then 0 else Debits(lines[..|lines| - 1]) + lines[|lines| - 1].debit
  }

  function Credits(lines: seq<Line>): int {
    if lines == [] then 0 else Credits(lines[..|lines| - 1]) + lines[|lines| - 1].credit
  }

  predicate Balanced(lines: seq<Line>) {
    Debits(lines) == Credits(lines)
  }

  /** Every line moves money one way. */
  ghost predicate OneSided(lines: seq<Line>) {
    forall l :: l in lines ==> (l.debit > 0 && l.credit == 0) || (l.debit == 0 && l.credit > 0)
  }

  /** What the lines leave on an account. */
  function Net(lines: seq<Line>, account: string): int {
    if lines == [] then 0
    else
      var l := lines[|lines| - 1];
      Net(lines[..|lines| - 1], account) + if l.account == account then l.debit - l.credit else 0
  }

  function DepreciationJournal(period: Period, expense: string, accumulated: string): (r: Option<seq<Line>>)
    ensures r.None? <==> period.depreciation <= 0
    ensures r.Some? ==> Balanced(r.value) && OneSided(r.value) && Debits(r.value) == period.depreciation
    ensures r.Some? && expense != accumulated ==> Net(r.value, expense) == period.depreciation
    ensures r.Some? && expense != accumulated ==> Net(r.value, accumulated) == -period.depreciation
  {
    if period.depreciation <= 0 then None
    else
      var first, second := Line(expense, period.depreciation, 0), Line(accumulated, 0, period.depreciation);
      NoLines();
      LineAdds([], first);
      LineAdds([first], second);
      assert [] + [first] == [first];
      Some([first] + [second])
  }

  datatype Disposal = Disposal(cost: real, accumulated: real, impairment: real, proceeds: real)

  datatype Outcome = Outcome(netBookValue: int, gainLoss: int)

  function DisposalResult(d: Disposal): Outcome {
    var book := Round(d.cost - d.accumulated - d.impairment);
    Outcome(book, Round(d.proceeds - book as real))
  }

  datatype Accounts = Accounts(asset: string, accumulated: string, proceeds: string, gainLoss: string)

  function Positive(x: int): int {
    if x > 0 then x else 0
  }

  function Negative(x: int): int {
    if x < 0 then -x else 0
  }

  /** The amounts the journal posts: proceeds in, accumulation cleared, cost out. */
  function Proceeds(d: Disposal): int { Round(d.proceeds) }
  function Cleared(d: Disposal): int { Round(d.accumulated + d.impairment) }
  function Cost(d: Disposal): int { Round(d.cost) }

  function On(account: string, role: string, amount: int): int {
    if account == role then amount else 0
  }

  method DisposalJournal(d: Disposal, accounts: Accounts) returns (lines: seq<Line>)
    ensures OneSided(lines) && |lines| <= 4
    ensures forall x :: Net(lines, x) ==
              On(x, accounts.proceeds, Positive(Proceeds(d))) + On(x, accounts.accumulated, Positive(Cleared(d)))
              - On(x, accounts.asset, Positive(Cost(d))) - On(x, accounts.gainLoss, DisposalResult(d).gainLoss)
    ensures Debits(lines) == Positive(Proceeds(d)) + Positive(Cleared(d)) + Negative(DisposalResult(d).gainLoss)
    ensures Credits(lines) == Positive(Cost(d)) + Positive(DisposalResult(d).gainLoss)
  {
    hide DisposalResult, Proceeds, Cleared, Cost, Debits, Credits, Net;
    NoLines();
    var gainLoss := DisposalResult(d).gainLoss;
    lines := [];
    if Proceeds(d) > 0 {
      LineAdds(lines, Line(accounts.proceeds, Proceeds(d), 0));
      lines := lines + [Line(accounts.proceeds, Proceeds(d), 0)];
    }
    if Cleared(d) > 0 {
      LineAdds(lines, Line(accounts.accumulated, Cleared(d), 0));
      lines := lines + [Line(accounts.accumulated, Cleared(d), 0)];
    }
    if Cost(d) > 0 {
      LineAdds(lines, Line(accounts.asset, 0, Cost(d)));
      lines := lines + [Line(accounts.asset, 0, Cost(d))];
    }
    var gl := if gainLoss < 0 then -gainLoss else gainLoss;
    if gl > 0 {
      var line := if gainLoss > 0 then Line(accounts.gainLoss, 0, gl) else Line(accounts.gainLoss, gl, 0);
      LineAdds(lines, line);
      lines := lines + [line];
    }
  }

  lemma NoLines()
    ensures Debits([]) == 0 && Credits([]) == 0 && forall x :: Net([], x) == 0
  {
  }

  lemma LineAdds(lines: seq<Line>, l: Line)
    ensures Debits(lines + [l]) == Debits(lines) + l.debit && Credits(lines + [l]) == Credits(lines) + l.credit
    ensures forall x :: Net(lines + [l], x) == Net(lines, x) + On(x, l.account, l.debit - l.credit)
  {
    assert (lines + [l])[..|lines|] == lines;
  }

  /** What is posted, to the nearest cent: impairment is cleared with the accumulation, and both come off the carrying value. */
  lemma PostedToTheCent(d: Disposal)
    ensures Nearest(Proceeds(d), d.proceeds) && Nearest(Cleared(d), d.accumulated + d.impairment) && Nearest(Cost(d), d.cost)
    ensures Nearest(DisposalResult(d).netBookValue, d.cost - (d.accumulated + d.impairment))
  {
    RoundIsNearest(d.proceeds);
    RoundIsNearest(d.accumulated + d.impairment);
    RoundIsNearest(d.cost);
    RoundIsNearest(d.cost - d.accumulated - d.impairment);
    hide Round;
  }

  /** Gain or loss is proceeds over carrying value. */
  lemma GainIsProceedsOverBook(d: Disposal)
    ensures DisposalResult(d).gainLoss == Proceeds(d) - DisposalResult(d).netBookValue
  {
    RoundShift(d.proceeds, -DisposalResult(d).netBookValue);
  }

  /** A disposal journal by its totals balances exactly if the carrying value is cost less what is cleared, as posted. */
  lemma BalancedExactly(d: Disposal, lines: seq<Line>)
    requires Debits(lines) == Positive(Proceeds(d)) + Positive(Cleared(d)) + Negative(DisposalResult(d).gainLoss)
    requires Credits(lines) == Positive(Cost(d)) + Positive(DisposalResult(d).gainLoss)
    ensures Balanced(lines) <==> Round(d.cost - d.accumulated - d.impairment) == Positive(Cost(d)) - Positive(Cleared(d)) - Negative(Proceeds(d))
  {
    GainIsProceedsOverBook(d);
    hide Proceeds, Cleared, Cost, Round;
  }

  ghost predicate WholeDisposal(d: Disposal) {
    Whole(d.cost) && Whole(d.accumulated) && Whole(d.impairment) && Whole(d.proceeds)
  }

  /** In whole cents it balances exactly if the dropped negative lines would have cancelled; so always when nothing is negative. */
  lemma WholeCentsBalance(d: Disposal, lines: seq<Line>)
    requires WholeDisposal(d)
    requires Debits(lines) == Positive(Proceeds(d)) + Positive(Cleared(d)) + Negative(DisposalResult(d).gainLoss)
    requires Credits(lines) == Positive(Cost(d)) + Positive(DisposalResult(d).gainLoss)
    ensures Balanced(lines) <==> Negative(Proceeds(d)) + Negative(Cleared(d)) == Negative(Cost(d))
    ensures d.cost >= 0.0 && d.accumulated + d.impairment >= 0.0 && d.proceeds >= 0.0 ==> Balanced(lines)
  {
    BalancedExactly(d, lines);
    BookInWholeCents(d);
    if d.cost >= 0.0 && d.accumulated + d.impairment >= 0.0 && d.proceeds >= 0.0 {
      RoundMonotone(0.0, d.cost);
      RoundMonotone(0.0, d.accumulated + d.impairment);
      RoundMonotone(0.0, d.proceeds);
      RoundWhole(0);
    }
  }

  lemma BookInWholeCents(d: Disposal)
    requires WholeDisposal(d)
    ensures Round(d.cost - d.accumulated - d.impairment) == Cost(d) - Cleared(d)
  {
    var c, a := d.cost.Floor, d.accumulated.Floor + d.impairment.Floor;
    assert d.accumulated + d.impairment == a as real && d.cost - d.accumulated - d.impairment == (c - a) as real;
    RoundWhole(c);
    RoundWhole(a);
    RoundWhole(c - a);
  }

  /** Half a cent of accumulated depreciation and the entry is a cent out. */
  lemma HalfCentUnbalances(lines: seq<Line>)
    requires var d := Disposal(100.0, 0.5, 0.0, 0.0);
             && Debits(lines) == Positive(Proceeds(d)) + Positive(Cleared(d)) + Negative(DisposalResult(d).gainLoss)
             && Credits(lines) == Positive(Cost(d)) + Positive(DisposalResult(d).gainLoss)
    ensures Debits(lines) == Credits(lines) + 1
  {
    var d := Disposal(100.0, 0.5, 0.0, 0.0);
    GainIsProceedsOverBook(d);
    assert d.cost - d.accumulated - d.impairment == 99.5;
    assert Round(99.5) == 100 && Round(100.0) == 100 && Round(0.5) == 1 && Round(0.0) == 0;
  }
}
