/** Rounding half up, as `Math.round` does, to whole units, tenths and hundredths. */
module Rounding {
  function Round(x: real): int {
    (x + 0.5).Floor
  }

  function Round1(x: real): real {
    Round(x * 10.0) as real / 10.0
  }

  function Round2(x: real): real {
    Round(x * 100.0) as real / 100.0
  }

  // ---------------------------------------------------------------------------------------------
  // Which number that is

  predicate Whole(x: real) {
    x == x.Floor as real
  }

  /** The whole number nearest to `exact`, the upper one of two. */
  predicate Nearest(k: int, exact: real) {
    exact - 0.5 < k as real <= exact + 0.5
  }

  predicate NearestTenth(shown: real, exact: real) {
    Whole(shown * 10.0) && exact - 0.05 < shown <= exact + 0.05
  }

  predicate NearestHundredth(shown: real, exact: real) {
    Whole(shown * 100.0) && exact - 0.005 < shown <= exact + 0.005
  }

  lemma RoundIsNearest(x: real)
    ensures forall k :: Nearest(k, x) <==> k == Round(x)
  {
  }

  lemma Round1IsNearest(x: real)
    ensures forall r :: NearestTenth(r, x) <==> r == Round1(x)
  {
    assert Round1(x) * 10.0 == Round(x * 10.0) as real;
    RoundIsNearest(x * 10.0);
    forall r | NearestTenth(r, x) ensures r == Round1(x) { assert Nearest((r * 10.0).Floor, x * 10.0); }
  }

  lemma Round2IsNearest(x: real)
    ensures forall r :: NearestHundredth(r, x) <==> r == Round2(x)
  {
    assert Round2(x) * 100.0 == Round(x * 100.0) as real;
    RoundIsNearest(x * 100.0);
    forall r | NearestHundredth(r, x) ensures r == Round2(x) { assert Nearest((r * 100.0).Floor, x * 100.0); }
  }

  lemma RoundBounds(x: real)
    ensures x - 0.5 < Round(x) as real <= x + 0.5
  {
  }

  /** Rounding commutes with whole-unit shifts. */
  lemma RoundShift(x: real, k: int)
    ensures Round(x + k as real) == Round(x) + k
  {
  }

  lemma RoundWhole(k: int)
    ensures Round(k as real) == k
  {
  }

  lemma RoundMonotone(x: real, y: real)
    requires x <= y
    ensures Round(x) <= Round(y)
  {
  }

  lemma Round2Monotone(x: real, y: real)
    requires x <= y
    ensures Round2(x) <= Round2(y)
  {
    RoundMonotone(x * 100.0, y * 100.0);
  }
}
