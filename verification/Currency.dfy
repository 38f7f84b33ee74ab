/** Base-anchored currency conversion. */
module Currency {
  import opened Options

  /** The finite rates a table owns; `None` when no table was supplied. */
  type Rates = Option<map<string, real>>

  function AtRates(amount: real, sourceRate: real, targetRate: real): real
    requires targetRate != 0.0
  {
    amount * sourceRate / targetRate
  }

  function ConvertAmount(amount: real, source: string, target: string, rates: Rates): real {
    if rates.None? || source == target then amount
    else if source !in rates.value || target !in rates.value || rates.value[target] == 0.0 then amount
    else AtRates(amount, rates.value[source], rates.value[target])
  }

  predicate IsConvertible(source: string, target: string, rates: Rates) {
    source == target
    || (rates.Some? && source in rates.value && target in rates.value && rates.value[target] != 0.0)
  }

  predicate MutuallyConvertible(a: string, b: string, rates: Rates) {
    IsConvertible(a, b, rates) && IsConvertible(b, a, rates)
  }

  /** An amount that cannot be converted passes through, so only the guard keeps it out of a sum. */
  lemma UnconvertiblePassesThrough(amount: real, source: string, target: string, rates: Rates)
    requires !IsConvertible(source, target, rates)
    ensures ConvertAmount(amount, source, target, rates) == amount
  {
  }

  lemma ThereAndBack(amount: real, a: string, b: string, rates: Rates)
    requires MutuallyConvertible(a, b, rates)
    ensures ConvertAmount(ConvertAmount(amount, a, b, rates), b, a, rates) == amount
  {
    if a != b { Undo(amount, rates.value[a], rates.value[b]); }
  }

  lemma Undo(x: real, p: real, q: real)
    requires p != 0.0 && q != 0.0
    ensures AtRates(AtRates(x, p, q), q, p) == x
  {
  }

  /** Conversion keeps an amount's worth in the base currency: amounts times their rates agree. */
  lemma WorthIsKept(amount: real, source: string, target: string, rates: Rates)
    requires rates.Some? && source in rates.value && target in rates.value && rates.value[target] != 0.0
    ensures ConvertAmount(amount, source, target, rates) * rates.value[target] == amount * rates.value[source]
  {
    if source != target { Worth(amount, rates.value[source], rates.value[target]); }
  }

  lemma Worth(x: real, p: real, q: real)
    requires q != 0.0
    ensures AtRates(x, p, q) * q == x * p
  {
    Requotient(x * p, q);
  }

  lemma Requotient(x: real, q: real)
    requires q != 0.0
    ensures x / q * q == x
  {
  }

  /** One unit of `a` in units of `b`. */
  function RateOf(a: string, b: string, rates: Rates): real
    requires MutuallyConvertible(a, b, rates)
  {
    if a == b then 1.0 else rates.value[a] / rates.value[b]
  }

  /** Switching the reporting currency keeps what converts and scales it by the quotient of the two rates. */
  lemma SwitchTarget(amount: real, source: string, a: string, b: string, rates: Rates)
    requires MutuallyConvertible(a, b, rates)
    ensures IsConvertible(source, a, rates) <==> IsConvertible(source, b, rates)
    ensures IsConvertible(source, a, rates) && a != b ==>
      ConvertAmount(amount, source, b, rates) == ConvertAmount(amount, source, a, rates) * (rates.value[a] / rates.value[b])
    ensures IsConvertible(source, a, rates) ==>
      ConvertAmount(amount, source, b, rates) == ConvertAmount(amount, source, a, rates) * RateOf(a, b, rates)
  {
    hide AtRates;
    if a != b && IsConvertible(source, a, rates) {
      var r := rates.value;
      Rebase(amount, r[source], r[a], r[b]);
      if source == a { SelfRate(amount, r[a]); }
      if source == b { SelfRate(amount, r[b]); }
    }
  }

  lemma Rebase(x: real, s: real, p: real, q: real)
    requires p != 0.0 && q != 0.0
    ensures AtRates(x, s, q) == AtRates(x, s, p) * (p / q)
  {
  }

  lemma SelfRate(x: real, p: real)
    requires p != 0.0
    ensures AtRates(x, p, p) == x
  {
  }
}
