/** Which pairs the duplicate-demand answer holds, told by the token sets alone. */
module DuplicatePairs {
  import opened Options
  import opened Ids
  import opened Sorting
  import opened DemandDedup
  import opened DedupTheorems

  /** The two items have a token in common, and at least the part `t` of all their tokens. */
  ghost predicate AlikeAt(t: real, x: Item, y: Item) {
    var common, all := Elements(x.tokens) * Elements(y.tokens), Elements(x.tokens) + Elements(y.tokens);
    common != {} && |common| as real >= t * |all| as real
  }

  /** The pair tells the common tokens in order, and their part of all tokens to four places. */
  ghost predicate Tells(p: DuplicatePair, x: Item, y: Item) {
    var common, all := Elements(x.tokens) * Elements(y.tokens), Elements(x.tokens) + Elements(y.tokens);
    && StrictlySorted(StrLess, p.shared) && (set t | t in p.shared) == common
    && |all| > 0
    && |common| as real / |all| as real - 0.00005 < p.similarity <= |common| as real / |all| as real + 0.00005
    && (p.similarity * 10000.0).Floor as real == p.similarity * 10000.0
  }

  /** 0.5 unless given, and within 0 and 1. */
  ghost predicate IsThreshold(t: real, option: Option<real>) {
    && (option.None? ==> t == 0.5)
    && (option.Some? ==> 0.0 <= t <= 1.0)
    && (option.Some? && option.value < t ==> t == 0.0)
    && (option.Some? && option.value > t ==> t == 1.0)
  }

  lemma ThresholdIs(t: real, option: Option<real>)
    requires IsThreshold(t, option)
    ensures Threshold(option) == t
  {
  }

  lemma Quotient(part: int, whole: int, t: real)
    requires 0 <= part <= whole && whole > 0
    ensures Ratio(part, whole) == part as real / whole as real
    ensures part as real / whole as real >= t <==> part as real >= t * whole as real
    ensures part as real / whole as real > 0.0 <==> part > 0
  {
    var q, w := part as real / whole as real, whole as real;
    assert q * w == part as real;
    if q >= t { assert (q - t) * w >= 0.0; }
    if q < t { assert (t - q) * w > 0.0; }
  }

  lemma Rounded(x: real)
    ensures x - 0.00005 < Round4(x) <= x + 0.00005
    ensures (Round4(x) * 10000.0).Floor as real == Round4(x) * 10000.0
  {
    assert Round4(x) == (x * 10000.0 + 0.5).Floor as real / 10000.0;
  }

  /** What two items with distinct tokens form. */
  lemma PairIs(t: real, x: Item, y: Item)
    requires Distinct(x.tokens) && Distinct(y.tokens) && t >= 0.0
    ensures PairOf(t, x, y).Some? <==> AlikeAt(t, x, y)
    ensures PairOf(t, x, y).Some? ==> Tells(PairOf(t, x, y).value, x, y)
  {
    var common, all := Elements(x.tokens) * Elements(y.tokens), Elements(x.tokens) + Elements(y.tokens);
    hide StrLess, Sort, Overlap, Shared, Score, Round4, Ratio, StrictlySorted;
    JaccardMeaning(x.tokens, y.tokens);
    Rounded(Score(x.tokens, y.tokens));
    if x.tokens == [] || y.tokens == [] {
      assert common == {};
    } else {
      CommonIsPart(Elements(x.tokens), Elements(y.tokens));
      Quotient(|common|, |all|, t);
      assert (set s | s in Shared(x.tokens, y.tokens)) == common;
    }
  }

  lemma CommonIsPart(a: set<string>, b: set<string>)
    ensures |a * b| <= |a + b| && (|a * b| > 0 <==> a * b != {})
  {
    assert a + b == a * b + ((a + b) - a * b);
  }

  lemma Symmetric(t: real, x: Item, y: Item)
    ensures AlikeAt(t, x, y) <==> AlikeAt(t, y, x)
  {
    assert Elements(x.tokens) * Elements(y.tokens) == Elements(y.tokens) * Elements(x.tokens);
    assert Elements(x.tokens) + Elements(y.tokens) == Elements(y.tokens) + Elements(x.tokens);
  }

  /**
   * Two items are reported exactly if they are alike at the threshold, the smaller id first, and the pair
   * tells their common tokens and how much of all tokens these are.
   */
  lemma ReportedIffAlike(r: DedupResult, items: seq<Item>, option: Option<real>, t: real, i: nat, j: nat)
    requires Answers(r, items, option) && CleanItems(items) && IsThreshold(t, option)
    requires i < |items| && j < |items| && IdLess(items[i].id, items[j].id)
    ensures (exists p :: p in r.pairs && p.aId == items[i].id && p.bId == items[j].id) <==> AlikeAt(t, items[i], items[j])
    ensures forall p :: p in r.pairs && p.aId == items[i].id && p.bId == items[j].id ==> Tells(p, items[i], items[j])
  {
    hide PairOf, AlikeAt, Tells, Pairs, ClusterAnswer;
    ThresholdIs(t, option);
    IdLessOrders();
    assert i != j;
    var lo, hi := if i < j then i else j, if i < j then j else i;
    PairHere(t, items, lo, hi);
    Symmetric(t, items[i], items[j]);
    TellsSymmetric(items[i], items[j]);
    if AlikeAt(t, items[i], items[j]) {
      var p := PairOf(t, items[lo], items[hi]).value;
      PairsMembers(t, items, p);
      assert Forms(t, items, lo, hi, p);
    }
    forall p | p in r.pairs && p.aId == items[i].id && p.bId == items[j].id
      ensures AlikeAt(t, items[i], items[j]) && Tells(p, items[i], items[j])
    {
      PairsMembers(t, items, p);
      var h: nat, k: nat :| Forms(t, items, h, k, p);
      PairHere(t, items, h, k);
      SamePlaces(items, h, k, lo, hi, p, i, j);
    }
  }

  lemma TellsSymmetric(x: Item, y: Item)
    ensures forall p :: Tells(p, x, y) <==> Tells(p, y, x)
  {
    assert Elements(x.tokens) * Elements(y.tokens) == Elements(y.tokens) * Elements(x.tokens);
    assert Elements(x.tokens) + Elements(y.tokens) == Elements(y.tokens) + Elements(x.tokens);
  }

  lemma PairHere(t: real, items: seq<Item>, h: nat, k: nat)
    requires CleanItems(items) && t >= 0.0 && h < k < |items|
    ensures PairOf(t, items[h], items[k]).Some? <==> AlikeAt(t, items[h], items[k])
    ensures PairOf(t, items[h], items[k]).Some? ==>
      var p := PairOf(t, items[h], items[k]).value;
      && Tells(p, items[h], items[k])
      && p.aId == (if IdLess(items[k].id, items[h].id) then items[k].id else items[h].id)
      && p.bId == (if IdLess(items[k].id, items[h].id) then items[h].id else items[k].id)
  {
    hide AlikeAt, Tells, Score, Shared, Round4, IdLess;
    PairIs(t, items[h], items[k]);
  }

  lemma SamePlaces(items: seq<Item>, h: nat, k: nat, lo: nat, hi: nat, p: DuplicatePair, i: nat, j: nat)
    requires CleanItems(items) && h < k < |items| && lo < hi < |items| && {i, j} == {lo, hi}
    requires p.aId == items[i].id && p.bId == items[j].id
    requires p.aId == (if IdLess(items[k].id, items[h].id) then items[k].id else items[h].id)
    requires p.bId == (if IdLess(items[k].id, items[h].id) then items[h].id else items[k].id)
    ensures h == lo && k == hi
  {
    hide IdLess;
    assert {items[h].id, items[k].id} == {p.aId, p.bId} == {items[lo].id, items[hi].id};
  }

  /** Every pair is of two items, the smaller id first; more similar pairs come first, ties in order of the ids. */
  lemma PairsInOrder(r: DedupResult, items: seq<Item>, option: Option<real>)
    requires Answers(r, items, option) && CleanItems(items)
    ensures forall p :: p in r.pairs ==>
      exists i, j :: 0 <= i < |items| && 0 <= j < |items| && p.aId == items[i].id && p.bId == items[j].id && IdLess(p.aId, p.bId)
    ensures forall a, b :: 0 <= a < b < |r.pairs| ==>
      var p, q := r.pairs[a], r.pairs[b];
      || p.similarity > q.similarity
      || (p.similarity == q.similarity && (IdLess(p.aId, q.aId) || (p.aId == q.aId && IdLess(p.bId, q.bId))))
  {
    hide PairOf, Pairs, ClusterAnswer, IdLess;
    var t := Threshold(option);
    PairsStrictlySorted(t, items);
    forall p | p in r.pairs
      ensures exists i, j :: 0 <= i < |items| && 0 <= j < |items| && p.aId == items[i].id && p.bId == items[j].id && IdLess(p.aId, p.bId)
    {
      PairsMembers(t, items, p);
      var h: nat, k: nat :| Forms(t, items, h, k, p);
      PairHere(t, items, h, k);
      DistinctCompare(items, h, k);
      if IdLess(items[k].id, items[h].id) {
        assert p.aId == items[k].id && p.bId == items[h].id;
      } else {
        assert p.aId == items[h].id && p.bId == items[k].id;
      }
    }
    assert forall a, b :: 0 <= a < b < |r.pairs| ==> PairLess(r.pairs[a], r.pairs[b]);
  }

  lemma DistinctCompare(items: seq<Item>, h: nat, k: nat)
    requires CleanItems(items) && h < k < |items|
    ensures IdLess(items[h].id, items[k].id) || IdLess(items[k].id, items[h].id)
  {
    IdLessOrders();
    hide IdLess;
  }
}
