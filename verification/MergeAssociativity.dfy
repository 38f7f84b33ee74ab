/** When three composed values may be merged in either grouping. */
module MergeAssociativity {
  import opened Options
  import opened Json
  import opened Ids
  import opened DefCompose
  import opened MergeAlgebra
  import opened MergeLaws

  lemma CleanElements(x: seq<J>, k: string)
    requires AllKeyed(x) && Clean(JArr(x))
    ensures Element(x, k).Some? ==> Clean(Element(x, k).value)
  {
    ElementMeaning(x, k);
  }

  lemma NewKeysSnoc(known: seq<string>, ks: seq<string>, l: string)
    ensures l in known ==> NewKeys(known, ks + [l]) == NewKeys(known, ks)
    ensures l !in known ==> NewKeys(known, ks + [l]) == NewKeys(known, ks) + [l]
  {
    assert (ks + [l])[..|ks|] == ks;
  }

  lemma {:induction false} NewKeysChain(known: seq<string>, ks: seq<string>, ls: seq<string>)
    ensures NewKeys(known, ks + NewKeys(ks, ls)) == NewKeys(known, ks) + NewKeys(known + NewKeys(known, ks), ls)
    decreases |ls|
  {
    hide NewKeys;
    NewKeysMembers(known, ks);
    if ls == [] {
      NewKeysNone(ks);
      NewKeysNone(known + NewKeys(known, ks));
      assert ks + [] == ks;
    } else {
      var front, l := ls[..|ls| - 1], ls[|ls| - 1];
      var all := known + NewKeys(known, ks);
      assert ls == front + [l];
      NewKeysChain(known, ks, front);
      NewKeysSnoc(ks, front, l);
      NewKeysSnoc(all, front, l);
      if l !in ks {
        assert ks + NewKeys(ks, ls) == (ks + NewKeys(ks, front)) + [l];
        NewKeysSnoc(known, ks + NewKeys(ks, front), l);
        assert l in all <==> l in known;
      } else {
        assert l in all;
      }
    }
  }

  lemma NewKeysNone(known: seq<string>)
    ensures NewKeys(known, []) == []
  {
  }

  ghost predicate Associates(a: Option<J>, b: Option<J>, c: Option<J>) {
    MergeOpt(MergeOpt(a, b), c) == MergeOpt(a, MergeOpt(b, c))
  }

  /**
   * The exact condition, read off the three values. Where child and grandchild mix, a base that mixes with
   * them is compared place by place and any other base is replaced either way. Where they do not mix, the
   * grandchild replaces the child, and must already cover a base it mixes with.
   */
  ghost predicate MayRegroup(x: J, y: J, z: J)
    decreases x
  {
    if !Mixes(y, z) then Mixes(x, z) ==> Covered(x, z)
    else if x.JObj? && y.JObj? then
      forall k :: k in x.fields && k in y.fields && k in z.fields ==>
        MayRegroup(x.fields[k], y.fields[k], z.fields[k])
    else if IsKeyedArray(x) && IsKeyedArray(y) then
      forall h, i, j ::
        (0 <= h < |x.items| && 0 <= i < |y.items| && 0 <= j < |z.items|
         && ElementKey(x.items[h]) == ElementKey(y.items[i]) == ElementKey(z.items[j])) ==>
        MayRegroup(x.items[h], y.items[i], z.items[j])
    else true
  }

  ghost predicate MayRegroupOpt(x: Option<J>, y: Option<J>, z: Option<J>) {
    x.Some? && y.Some? && z.Some? ==> MayRegroup(x.value, y.value, z.value)
  }

  /** On clean values the merge is associative if and only if `MayRegroup`. */
  lemma {:induction false} AssociatesIffMayRegroup(x: J, y: J, z: J)
    requires Clean(x) && Clean(y) && Clean(z)
    ensures Associates(Some(x), Some(y), Some(z)) <==> MayRegroup(x, y, z)
    decreases x
  {
    hide ElementKey, Covered, Element;
    if !Mixes(y, z) {
      MergeIsChild(x, z);
      Replaced(x, y, z);
    } else if x.JObj? && y.JObj? {
      forall k ensures Associates(FieldOf(x.fields, k), FieldOf(y.fields, k), FieldOf(z.fields, k))
        <==> MayRegroupOpt(FieldOf(x.fields, k), FieldOf(y.fields, k), FieldOf(z.fields, k))
      {
        SomeMissing(FieldOf(x.fields, k), FieldOf(y.fields, k), FieldOf(z.fields, k));
        if k in x.fields && k in y.fields && k in z.fields {
          AssociatesIffMayRegroup(x.fields[k], y.fields[k], z.fields[k]);
        }
      }
      ObjectsAssociate(x.fields, y.fields, z.fields);
      ObjectsRegroup(x.fields, y.fields, z.fields);
    } else if IsKeyedArray(x) && IsKeyedArray(y) {
      forall k ensures Associates(Element(x.items, k), Element(y.items, k), Element(z.items, k))
        <==> MayRegroupOpt(Element(x.items, k), Element(y.items, k), Element(z.items, k))
      {
        SomeMissing(Element(x.items, k), Element(y.items, k), Element(z.items, k));
        CleanElements(x.items, k);
        CleanElements(y.items, k);
        CleanElements(z.items, k);
        ElementMeaning(x.items, k);
        if Element(x.items, k).Some? && Element(y.items, k).Some? && Element(z.items, k).Some? {
          AssociatesIffMayRegroup(Element(x.items, k).value, Element(y.items, k).value, Element(z.items, k).value);
        }
      }
      ArraysAssociate(x.items, y.items, z.items);
      ArraysRegroup(x.items, y.items, z.items);
    } else {
      BaseReplaced(x, y, z);
    }
  }

  /** The grandchild replaces the child: only what the base adds to the grandchild can differ. */
  lemma Replaced(x: J, y: J, z: J)
    requires !Mixes(y, z)
    ensures Associates(Some(x), Some(y), Some(z)) <==> (Mixes(x, z) ==> Merge(Some(x), z) == z)
  {
    hide ElementKey;
    if IsKeyedArray(x) && IsKeyedArray(y) { MergedKeysUnique(x.items, y.items); }
  }

  /** Child and grandchild replace the base, merged or one by one. */
  lemma BaseReplaced(x: J, y: J, z: J)
    requires Mixes(y, z) && !Mixes(x, y)
    ensures Associates(Some(x), Some(y), Some(z)) && MayRegroup(x, y, z)
  {
    hide ElementKey;
    if IsKeyedArray(y) && IsKeyedArray(z) { MergedKeysUnique(y.items, z.items); }
  }

  lemma SomeMissing(x: Option<J>, y: Option<J>, z: Option<J>)
    ensures x.None? || y.None? || z.None? ==> Associates(x, y, z)
  {
  }

  lemma ObjectsRegroup(x: map<string, J>, y: map<string, J>, z: map<string, J>)
    ensures MayRegroup(JObj(x), JObj(y), JObj(z)) <==>
      forall k :: MayRegroupOpt(FieldOf(x, k), FieldOf(y, k), FieldOf(z, k))
  {
    if forall k :: MayRegroupOpt(FieldOf(x, k), FieldOf(y, k), FieldOf(z, k)) {
      forall k | k in x && k in y && k in z ensures MayRegroup(x[k], y[k], z[k]) {
        assert MayRegroupOpt(FieldOf(x, k), FieldOf(y, k), FieldOf(z, k));
      }
    }
  }

  ghost predicate ElementsMayRegroup(x: seq<J>, y: seq<J>, z: seq<J>)
    requires AllKeyed(x) && AllKeyed(y) && AllKeyed(z)
  {
    forall k :: MayRegroupOpt(Element(x, k), Element(y, k), Element(z, k))
  }

  lemma ArraysRegroup(x: seq<J>, y: seq<J>, z: seq<J>)
    requires AllKeyed(x) && AllKeyed(y) && AllKeyed(z)
    requires Distinct(KeysOf(x)) && Distinct(KeysOf(y)) && Distinct(KeysOf(z))
    ensures MayRegroup(JArr(x), JArr(y), JArr(z)) <==> ElementsMayRegroup(x, y, z)
  {
    hide ElementKey, Element, MayRegroup, MayRegroupOpt;
    if MayRegroup(JArr(x), JArr(y), JArr(z)) {
      forall k ensures MayRegroupOpt(Element(x, k), Element(y, k), Element(z, k)) {
        ElementRegroups(x, y, z, k);
      }
    } else if ElementsMayRegroup(x, y, z) {
      ElementsRegroup(x, y, z);
    }
  }

  lemma ElementRegroups(x: seq<J>, y: seq<J>, z: seq<J>, k: string)
    requires AllKeyed(x) && AllKeyed(y) && AllKeyed(z) && MayRegroup(JArr(x), JArr(y), JArr(z))
    ensures MayRegroupOpt(Element(x, k), Element(y, k), Element(z, k))
  {
    hide ElementKey, Element, MayRegroup;
    if Element(x, k).Some? && Element(y, k).Some? && Element(z, k).Some? {
      var h := ElementPlace(x, k);
      var i := ElementPlace(y, k);
      var j := ElementPlace(z, k);
      TriplesRegroup(x, y, z, h, i, j);
    }
  }

  lemma ElementPlace(items: seq<J>, k: string) returns (i: nat)
    requires AllKeyed(items) && Element(items, k).Some?
    ensures i < |items| && items[i] == Element(items, k).value && ElementKey(items[i]) == Some(k)
  {
    hide ElementKey, Element;
    ElementMeaning(items, k);
    i :| 0 <= i < |items| && items[i] == Element(items, k).value;
  }

  lemma TriplesRegroup(x: seq<J>, y: seq<J>, z: seq<J>, h: nat, i: nat, j: nat)
    requires AllKeyed(x) && AllKeyed(y) && AllKeyed(z) && MayRegroup(JArr(x), JArr(y), JArr(z))
    requires h < |x| && i < |y| && j < |z| && ElementKey(x[h]) == ElementKey(y[i]) == ElementKey(z[j])
    ensures MayRegroup(x[h], y[i], z[j])
  {
    hide ElementKey;
  }

  lemma ElementsRegroup(x: seq<J>, y: seq<J>, z: seq<J>)
    requires AllKeyed(x) && AllKeyed(y) && AllKeyed(z)
    requires Distinct(KeysOf(x)) && Distinct(KeysOf(y)) && Distinct(KeysOf(z))
    requires ElementsMayRegroup(x, y, z)
    ensures MayRegroup(JArr(x), JArr(y), JArr(z))
  {
    hide ElementKey, Element;
    forall h, i, j | 0 <= h < |x| && 0 <= i < |y| && 0 <= j < |z| && ElementKey(x[h]) == ElementKey(y[i]) == ElementKey(z[j])
      ensures MayRegroup(x[h], y[i], z[j])
    {
      hide MayRegroup;
      ElementAt(x, h);
      ElementAt(y, i);
      ElementAt(z, j);
      assert MayRegroupOpt(Element(x, KeysOf(x)[h]), Element(y, KeysOf(x)[h]), Element(z, KeysOf(x)[h]));
    }
  }

  lemma ObjectsAssociate(x: map<string, J>, y: map<string, J>, z: map<string, J>)
    ensures Associates(Some(JObj(x)), Some(JObj(y)), Some(JObj(z))) <==>
      forall k :: Associates(FieldOf(x, k), FieldOf(y, k), FieldOf(z, k))
  {
    hide Merge;
    MergeObjects(x, y, "");
    MergeObjects(y, z, "");
    var xy, yz := Merge(Some(JObj(x)), JObj(y)).fields, Merge(Some(JObj(y)), JObj(z)).fields;
    MergeObjects(xy, z, "");
    MergeObjects(x, yz, "");
    var left, right := Merge(Some(JObj(xy)), JObj(z)).fields, Merge(Some(JObj(x)), JObj(yz)).fields;
    forall k ensures FieldOf(left, k) == FieldOf(right, k) <==> Associates(FieldOf(x, k), FieldOf(y, k), FieldOf(z, k)) {
      MergeObjects(x, y, k);
      MergeObjects(y, z, k);
      MergeObjects(xy, z, k);
      MergeObjects(x, yz, k);
    }
    if forall k :: FieldOf(left, k) == FieldOf(right, k) {
      SameObject(left, right);
    }
  }

  ghost predicate ElementsAssociate(x: seq<J>, y: seq<J>, z: seq<J>)
    requires AllKeyed(x) && AllKeyed(y) && AllKeyed(z)
  {
    forall k :: Associates(Element(x, k), Element(y, k), Element(z, k))
  }

  lemma ArraysAssociate(x: seq<J>, y: seq<J>, z: seq<J>)
    requires AllKeyed(x) && AllKeyed(y) && AllKeyed(z)
    requires Distinct(KeysOf(x)) && Distinct(KeysOf(y)) && Distinct(KeysOf(z))
    ensures Associates(Some(JArr(x)), Some(JArr(y)), Some(JArr(z))) <==> ElementsAssociate(x, y, z)
  {
    hide Merge, ElementKey, KeysOf, AllKeyed, NewKeys, Element, Associates, MergedItems;
    var left, right := MergedItems(MergedItems(x, y), z), MergedItems(x, MergedItems(y, z));
    ArraysGrouped(x, y, z);
    ArraysKeys(x, y, z);
    if left == right {
      forall k ensures Associates(Element(x, k), Element(y, k), Element(z, k)) {
        ArraysElement(x, y, z, k);
      }
    } else if ElementsAssociate(x, y, z) {
      forall k ensures Element(left, k) == Element(right, k) {
        assert Associates(Element(x, k), Element(y, k), Element(z, k));
        ArraysElement(x, y, z, k);
      }
      SameArray(left, right);
    }
  }

  lemma ArraysGrouped(x: seq<J>, y: seq<J>, z: seq<J>)
    requires AllKeyed(x) && AllKeyed(y) && AllKeyed(z)
    ensures Associates(Some(JArr(x)), Some(JArr(y)), Some(JArr(z))) <==>
      MergedItems(MergedItems(x, y), z) == MergedItems(x, MergedItems(y, z))
  {
    hide Merge, ElementKey, KeysOf, AllKeyed, MergedItems;
    MergedIs(x, y);
    MergedIs(y, z);
    MergedIs(MergedItems(x, y), z);
    MergedIs(x, MergedItems(y, z));
  }

  function MergedItems(b: seq<J>, c: seq<J>): (r: seq<J>)
    requires AllKeyed(b) && AllKeyed(c)
    ensures AllKeyed(r) && Distinct(KeysOf(r))
  {
    MergedKeysUnique(b, c);
    Merge(Some(JArr(b)), JArr(c)).items
  }

  lemma MergedIs(b: seq<J>, c: seq<J>)
    requires AllKeyed(b) && AllKeyed(c)
    ensures Merge(Some(JArr(b)), JArr(c)) == JArr(MergedItems(b, c))
  {
    MergedKeysUnique(b, c);
  }

  lemma ArraysKeys(x: seq<J>, y: seq<J>, z: seq<J>)
    requires AllKeyed(x) && AllKeyed(y) && AllKeyed(z)
    requires Distinct(KeysOf(x)) && Distinct(KeysOf(y)) && Distinct(KeysOf(z))
    ensures KeysOf(MergedItems(MergedItems(x, y), z)) == KeysOf(MergedItems(x, MergedItems(y, z)))
  {
    hide Merge, ElementKey, KeysOf, AllKeyed, NewKeys;
    KeyedArrayOrder(x, y);
    KeyedArrayOrder(y, z);
    KeyedArrayOrder(MergedItems(x, y), z);
    KeyedArrayOrder(x, MergedItems(y, z));
    NewKeysChain(KeysOf(x), KeysOf(y), KeysOf(z));
    var nx := NewKeys(KeysOf(x), KeysOf(y));
    assert KeysOf(x) + nx + NewKeys(KeysOf(x) + nx, KeysOf(z)) == KeysOf(x) + (nx + NewKeys(KeysOf(x) + nx, KeysOf(z)));
  }

  lemma ArraysElement(x: seq<J>, y: seq<J>, z: seq<J>, k: string)
    requires AllKeyed(x) && AllKeyed(y) && AllKeyed(z)
    requires Distinct(KeysOf(x)) && Distinct(KeysOf(y)) && Distinct(KeysOf(z))
    ensures Associates(Element(x, k), Element(y, k), Element(z, k)) <==>
      Element(MergedItems(MergedItems(x, y), z), k) == Element(MergedItems(x, MergedItems(y, z)), k)
  {
    hide Merge, ElementKey, KeysOf, AllKeyed, Element;
    KeyedArrayElement(x, y, k);
    KeyedArrayElement(y, z, k);
    KeyedArrayElement(MergedItems(x, y), z, k);
    KeyedArrayElement(x, MergedItems(y, z), k);
  }

  // ---------------------------------------------------------------------------------------------
  // Agreement in kind

  /** The values agree in kind wherever both have something: object, keyed array, or replaced whole. */
  ghost predicate Agree(x: J, y: J)
    decreases x
  {
    if x.JObj? || y.JObj? then
      && x.JObj? && y.JObj?
      && forall k :: k in x.fields && k in y.fields ==> Agree(x.fields[k], y.fields[k])
    else if IsKeyedArray(x) || IsKeyedArray(y) then
      && IsKeyedArray(x) && IsKeyedArray(y)
      && forall i, j :: 0 <= i < |x.items| && 0 <= j < |y.items| && ElementKey(x.items[i]) == ElementKey(y.items[j]) ==>
           Agree(x.items[i], y.items[j])
    else true
  }

  /** Values that agree in kind wherever they meet may be regrouped. */
  lemma {:induction false} AgreeingMayRegroup(x: J, y: J, z: J)
    requires Agree(x, y) && Agree(y, z) && Agree(x, z)
    ensures MayRegroup(x, y, z)
    decreases x
  {
    hide ElementKey, Covered;
    if x.JObj? {
      forall k | k in x.fields && k in y.fields && k in z.fields
        ensures MayRegroup(x.fields[k], y.fields[k], z.fields[k])
      {
        AgreeingMayRegroup(x.fields[k], y.fields[k], z.fields[k]);
      }
    } else if IsKeyedArray(x) {
      forall h, i, j | 0 <= h < |x.items| && 0 <= i < |y.items| && 0 <= j < |z.items|
        && ElementKey(x.items[h]) == ElementKey(y.items[i]) == ElementKey(z.items[j])
        ensures MayRegroup(x.items[h], y.items[i], z.items[j])
      {
        AgreeingMayRegroup(x.items[h], y.items[i], z.items[j]);
      }
    }
  }

  /** The merge is associative on clean values that agree in kind at shared paths. */
  lemma MergeAssociative(a: Option<J>, b: Option<J>, c: Option<J>)
    requires (a.Some? ==> Clean(a.value)) && (b.Some? ==> Clean(b.value)) && (c.Some? ==> Clean(c.value))
    requires a.Some? && b.Some? ==> Agree(a.value, b.value)
    requires b.Some? && c.Some? ==> Agree(b.value, c.value)
    requires a.Some? && c.Some? ==> Agree(a.value, c.value)
    ensures Associates(a, b, c)
  {
    hide Merge, Agree, Clean, MayRegroup;
    SomeMissing(a, b, c);
    if a.Some? && b.Some? && c.Some? {
      AgreeingMayRegroup(a.value, b.value, c.value);
      AssociatesIffMayRegroup(a.value, b.value, c.value);
    }
  }

  /** One input that does not regroup: an unkeyed array in the middle replaces the base, or not. */
  lemma KindsMustAgree()
    ensures exists a, b, c :: Clean(a) && Clean(b) && Clean(c) && !Associates(Some(a), Some(b), Some(c))
  {
    var keyed := JObj(map["id" := JStr("x")]);
    var a, b, c := JArr([keyed]), JArr([JNull]), JArr([]);
    assert ElementKey(keyed) == Some("x");
    assert AllKeyed(a.items) && ElementKey(b.items[0]) == None;
    assert Merge(Some(a), b) == b && Merge(Some(b), c) == c;
    EmptyChildArrayKeepsBase(a.items);
    assert Clean(keyed) && Clean(a) && Clean(b) && Clean(c);
    assert !Associates(Some(a), Some(b), Some(c));
  }
}
