/** Idempotence and absorption of the deep merge, and when the child replaces the base. */
module MergeLaws {
  import opened Options
  import opened Json
  import opened Ids
  import opened OrderedMaps
  import opened DefCompose
  import opened MergeAlgebra

  /** Two unique-keyed arrays with the same keys in the same places and the same elements are equal. */
  lemma SameArray(a: seq<J>, b: seq<J>)
    requires AllKeyed(a) && AllKeyed(b) && Distinct(KeysOf(a)) && KeysOf(a) == KeysOf(b)
    requires forall k :: Element(a, k) == Element(b, k)
    ensures a == b
  {
    forall i | 0 <= i < |a| ensures a[i] == b[i] {
      ElementAt(a, i);
      ElementAt(b, i);
    }
  }

  lemma {:induction false} NoNewKeys(known: seq<string>, ks: seq<string>)
    requires forall k :: k in ks ==> k in known
    ensures NewKeys(known, ks) == []
    decreases |ks|
  {
    if ks != [] {
      assert forall k :: k in ks[..|ks| - 1] ==> k in ks;
      NoNewKeys(known, ks[..|ks| - 1]);
    }
  }

  /** Merging a keyed array with itself merges each element with itself. */
  lemma MergeArraySelf(items: seq<J>)
    requires AllKeyed(items) && Distinct(KeysOf(items))
    ensures Merge(Some(JArr(items)), JArr(items)) == JArr(items) <==>
      forall i :: 0 <= i < |items| ==> Merge(Some(items[i]), items[i]) == items[i]
  {
    hide ElementKey, Merge;
    KeyedArrayOrder(items, items);
    NoNewKeys(KeysOf(items), KeysOf(items));
    var r := Merge(Some(JArr(items)), JArr(items)).items;
    assert KeysOf(r) == KeysOf(items) + [] == KeysOf(items);
    forall i | 0 <= i < |items| ensures r[i] == Merge(Some(items[i]), items[i]) {
      ElementAt(items, i);
      ElementAt(r, i);
      KeyedArrayElement(items, items, KeysOf(items)[i]);
    }
  }

  /** A merged keyed array always has unique keys. */
  lemma MergedKeysUnique(b: seq<J>, c: seq<J>)
    requires AllKeyed(b) && AllKeyed(c)
    ensures var r := Merge(Some(JArr(b)), JArr(c));
      r.JArr? && AllKeyed(r.items) && Distinct(KeysOf(r.items))
  {
    hide ElementKey, Merge;
    ByKeyMeaning(b, "");
    MergeAllFiled(ByKey(b), c);
    ValuesFiled(MergeAll(ByKey(b), c));
    MergeKeyed(b, c);
  }

  /** Merging a value with itself changes nothing exactly when its keyed arrays have unique keys. */
  lemma {:induction false} MergeIdempotent(x: J)
    ensures Merge(Some(x), x) == x <==> Clean(x)
    decreases x
  {
    match x
    case JObj(fields) =>
      forall k | k in fields ensures Merge(Some(fields[k]), fields[k]) == fields[k] <==> Clean(fields[k]) {
        MergeIdempotent(fields[k]);
      }
      MergeObjectSelf(fields);
    case JArr(items) =>
      if AllKeyed(items) {
        if Distinct(KeysOf(items)) {
          forall i | 0 <= i < |items| ensures Merge(Some(items[i]), items[i]) == items[i] <==> Clean(items[i]) {
            MergeIdempotent(items[i]);
          }
          MergeArraySelf(items);
        } else {
          MergedKeysUnique(items, items);
        }
      }
    case _ =>
  }

  lemma MergeObjectSelf(fields: map<string, J>)
    ensures Merge(Some(JObj(fields)), JObj(fields)) == JObj(fields) <==>
      forall k :: k in fields ==> Merge(Some(fields[k]), fields[k]) == fields[k]
  {
    var r := Merge(Some(JObj(fields)), JObj(fields)).fields;
    assert r.Keys == fields.Keys;
    assert forall k :: k in fields ==> r[k] == Merge(Some(fields[k]), fields[k]);
  }

  /** Objects are equal when every property reads the same. */
  lemma SameObject(a: map<string, J>, b: map<string, J>)
    requires forall k :: FieldOf(a, k) == FieldOf(b, k)
    ensures a == b
  {
    forall k ensures (k in a <==> k in b) && (k in a ==> a[k] == b[k]) {
      assert FieldOf(a, k) == FieldOf(b, k);
    }
  }

  // ---------------------------------------------------------------------------------------------
  // Absorption

  /** Merging the same child twice is merging it once. */
  lemma {:induction false} MergeAbsorbs(b: Option<J>, c: J)
    requires Clean(c)
    ensures Merge(Some(Merge(b, c)), c) == Merge(b, c)
    decreases c
  {
    if b.Some? && b.value.JObj? && c.JObj? {
      var m := Merge(b, c).fields;
      forall k ensures FieldOf(Merge(Some(JObj(m)), c).fields, k) == FieldOf(m, k) {
        MergeObjects(b.value.fields, c.fields, k);
        MergeObjects(m, c.fields, k);
        if k in c.fields { MergeAbsorbs(FieldOf(b.value.fields, k), c.fields[k]); }
      }
      SameObject(Merge(Some(JObj(m)), c).fields, m);
    } else if b.Some? && IsKeyedArray(b.value) && IsKeyedArray(c) {
      var m := MergeAll(ByKey(b.value.items), c.items);
      forall k ensures Lookup(MergeAll(m, c.items), k) == Lookup(m, k) {
        MergeAllLookup(ByKey(b.value.items), c.items, k);
        MergeAllLookup(m, c.items, k);
        ElementMeaning(c.items, k);
        if Element(c.items, k).Some? {
          MergeAbsorbs(Lookup(ByKey(b.value.items), k), Element(c.items, k).value);
        }
      }
      ArrayAbsorbs(b.value.items, c.items);
    } else {
      MergeIdempotent(c);
    }
  }

  lemma ArrayAbsorbs(b: seq<J>, c: seq<J>)
    requires AllKeyed(b) && AllKeyed(c) && Distinct(KeysOf(c))
    requires forall k :: Lookup(MergeAll(MergeAll(ByKey(b), c), c), k) == Lookup(MergeAll(ByKey(b), c), k)
    ensures Merge(Some(Merge(Some(JArr(b)), JArr(c))), JArr(c)) == Merge(Some(JArr(b)), JArr(c))
  {
    hide ElementKey, Merge;
    var m := MergeAll(ByKey(b), c);
    ByKeyMeaning(b, "");
    MergeAllFiled(ByKey(b), c);
    MergeAllFiled(m, c);
    ValuesFiled(m);
    MergeKeyed(b, c);
    MergeKeyed(Values(m), c);
    MergeAllKeys(ByKey(b), c);
    MergeAllKeys(m, c);
    NewKeysMembers(ByKey(b).keys, KeysOf(c));
    NoNewKeys(m.keys, KeysOf(c));
    assert m.keys + [] == m.keys;
    SameMap(MergeAll(m, c), m);
  }

  ghost predicate Absorbs(b: Option<J>, c: J) {
    Merge(Some(Merge(b, c)), c) == Merge(b, c)
  }

  /** Absorption holds onto every base exactly when the child's keyed arrays have unique keys. */
  lemma AbsorbsIffClean(c: J)
    ensures (forall b :: Absorbs(b, c)) <==> Clean(c)
  {
    if Clean(c) {
      forall b ensures Absorbs(b, c) { MergeAbsorbs(b, c); }
    }
    if Absorbs(None, c) {
      MergeNothing(c);
      MergeIdempotent(c);
    }
  }

  // ---------------------------------------------------------------------------------------------
  // Replacing an array whole

  /** An empty child array counts as keyed: it leaves a keyed base as it is instead of replacing it. */
  lemma EmptyChildArrayKeepsBase(b: seq<J>)
    requires AllKeyed(b) && Distinct(KeysOf(b))
    ensures Merge(Some(JArr(b)), JArr([])) == JArr(b)
  {
    MergeKeyed(b, []);
    ByKeyOrder(b);
    ByKeyMeaning(b, "");
    forall k ensures Lookup(ByKey(b), k) == Element(b, k) { ByKeyMeaning(b, k); }
    ValuesFiled(ByKey(b));
    SameArray(Values(ByKey(b)), b);
  }

  /**
   * A child array without any keyed element replaces the base, unless it is empty and the base is a
   * non-empty keyed array.
   */
  lemma IdLessArrayReplaces(base: Option<J>, c: seq<J>)
    requires forall i :: 0 <= i < |c| ==> ElementKey(c[i]).None?
    ensures Merge(base, JArr(c)) == JArr(c) <==>
      !(c == [] && base.Some? && IsKeyedArray(base.value) && base.value.items != [])
  {
    hide ElementKey;
    if c == [] && base.Some? && IsKeyedArray(base.value) {
      MergeKeyed(base.value.items, []);
    }
  }

  // ---------------------------------------------------------------------------------------------
  // What a child already says

  /** Both are objects, or both are keyed arrays: the merge combines them. */
  predicate Mixes(x: J, y: J) {
    (x.JObj? && y.JObj?) || (IsKeyedArray(x) && IsKeyedArray(y))
  }

  /** `y` has everything `x` has: its properties, or its keys in the same order from the front. */
  ghost predicate Covered(x: J, y: J)
    decreases x
  {
    if x.JObj? && y.JObj? then
      forall k :: k in x.fields ==> k in y.fields && Covered(x.fields[k], y.fields[k])
    else if IsKeyedArray(x) && IsKeyedArray(y) then
      && KeysOf(x.items) <= KeysOf(y.items)
      && forall i :: 0 <= i < |x.items| ==> Covered(x.items[i], y.items[i])
    else true
  }

  /** The child comes out of the merge unchanged exactly when it covers the base. */
  lemma {:induction false} MergeIsChild(x: J, y: J)
    requires Clean(x) && Clean(y)
    ensures Merge(Some(x), y) == y <==> Covered(x, y)
    decreases x
  {
    hide ElementKey;
    if x.JObj? && y.JObj? {
      forall k | k in x.fields && k in y.fields
        ensures Merge(Some(x.fields[k]), y.fields[k]) == y.fields[k] <==> Covered(x.fields[k], y.fields[k])
      {
        MergeIsChild(x.fields[k], y.fields[k]);
      }
      ObjectIsChild(x.fields, y.fields);
    } else if IsKeyedArray(x) && IsKeyedArray(y) {
      forall i | 0 <= i < |x.items| && i < |y.items|
        ensures Merge(Some(x.items[i]), y.items[i]) == y.items[i] <==> Covered(x.items[i], y.items[i])
      {
        MergeIsChild(x.items[i], y.items[i]);
      }
      ArrayIsChild(x.items, y.items);
    }
  }

  lemma ObjectIsChild(x: map<string, J>, y: map<string, J>)
    ensures Merge(Some(JObj(x)), JObj(y)) == JObj(y) <==>
      forall k :: k in x ==> k in y && Merge(Some(x[k]), y[k]) == y[k]
  {
    var r := Merge(Some(JObj(x)), JObj(y)).fields;
    if forall k :: k in x ==> k in y && Merge(Some(x[k]), y[k]) == y[k] {
      forall k ensures FieldOf(r, k) == FieldOf(y, k) {
        MergeObjects(x, y, k);
        if k in y { MergeNothing(y[k]); }
      }
      SameObject(r, y);
    }
    if r == y {
      forall k | k in x ensures k in y && Merge(Some(x[k]), y[k]) == y[k] {
        assert k in r;
        MergeObjects(x, y, k);
      }
    }
  }

  lemma {:induction false} NewKeysAfterPrefix(known: seq<string>, ks: seq<string>)
    requires known <= ks && Distinct(ks)
    ensures NewKeys(known, ks) == ks[|known|..]
    decreases |ks|
  {
    if ks == known {
      NoNewKeys(known, ks);
    } else {
      var front, last := ks[..|ks| - 1], ks[|ks| - 1];
      assert ks == front + [last];
      DistinctFront(front, last);
      NewKeysAfterPrefix(known, front);
      assert forall k :: k in known ==> k in front;
    }
  }

  lemma ArrayIsChild(x: seq<J>, y: seq<J>)
    requires AllKeyed(x) && AllKeyed(y) && Distinct(KeysOf(x)) && Distinct(KeysOf(y))
    ensures Merge(Some(JArr(x)), JArr(y)) == JArr(y) <==>
      KeysOf(x) <= KeysOf(y) && forall i :: 0 <= i < |x| ==> Merge(Some(x[i]), y[i]) == y[i]
  {
    hide Merge, ElementKey, NewKeys;
    KeyedArrayOrder(x, y);
    var r := Merge(Some(JArr(x)), JArr(y)).items;
    if KeysOf(x) <= KeysOf(y) {
      NewKeysAfterPrefix(KeysOf(x), KeysOf(y));
      assert KeysOf(r) == KeysOf(y);
      forall i | 0 <= i < |y| ensures r[i] == Merge(if i < |x| then Some(x[i]) else None, y[i]) {
        MergedAt(x, y, i);
      }
      assert forall i :: |x| <= i < |y| ==> r[i] == y[i] by { MergeNothingAll(y); }
      assert r == y <==> forall i :: 0 <= i < |x| ==> r[i] == y[i];
    }
  }

  lemma MergeNothingAll(items: seq<J>)
    ensures forall i :: 0 <= i < |items| ==> Merge(None, items[i]) == items[i]
  {
    forall i | 0 <= i < |items| ensures Merge(None, items[i]) == items[i] {
      MergeNothing(items[i]);
    }
  }

  /** Where the keys line up, the merged array holds each element merged onto its namesake. */
  lemma MergedAt(x: seq<J>, y: seq<J>, i: nat)
    requires AllKeyed(x) && AllKeyed(y) && Distinct(KeysOf(x)) && Distinct(KeysOf(y))
    requires KeysOf(x) <= KeysOf(y) && i < |y|
    ensures var r := Merge(Some(JArr(x)), JArr(y));
      r.JArr? && |r.items| == |y| && r.items[i] == Merge(if i < |x| then Some(x[i]) else None, y[i])
  {
    hide Merge, ElementKey, NewKeys, Element;
    KeyedArrayOrder(x, y);
    NewKeysAfterPrefix(KeysOf(x), KeysOf(y));
    var r, k := Merge(Some(JArr(x)), JArr(y)).items, KeysOf(y)[i];
    assert KeysOf(r) == KeysOf(y);
    KeyedArrayElement(x, y, k);
    ElementAt(y, i);
    ElementAt(r, i);
    if i < |x| {
      ElementAt(x, i);
    } else {
      ElementMeaning(x, k);
      assert k !in KeysOf(x) by { assert forall j :: 0 <= j < |x| ==> KeysOf(x)[j] == KeysOf(y)[j]; }
    }
  }
}
