/** The parts of the deep merge: property by property in objects, key by key and in order in keyed arrays. */
module MergeAlgebra {
  import opened Options
  import opened Json
  import opened Ids
  import opened OrderedMaps
  import opened DefCompose

  /** Every keyed array inside, at any depth the merge reaches, has unique keys. */
  ghost predicate Clean(v: J)
    decreases v
  {
    match v
    case JObj(fields) => forall k :: k in fields ==> Clean(fields[k])
    case JArr(items) =>
      AllKeyed(items) ==> Distinct(KeysOf(items)) && forall i :: 0 <= i < |items| ==> Clean(items[i])
    case _ => true
  }

  /** Merge where either side may be `undefined`. */
  function MergeOpt(x: Option<J>, y: Option<J>): Option<J> {
    if y.None? then x else Some(Merge(x, y.value))
  }

  lemma MergeObjects(b: map<string, J>, c: map<string, J>, k: string)
    ensures Merge(Some(JObj(b)), JObj(c)).JObj?
    ensures FieldOf(Merge(Some(JObj(b)), JObj(c)).fields, k) == MergeOpt(FieldOf(b, k), FieldOf(c, k))
  {
  }

  // ---------------------------------------------------------------------------------------------
  // Keyed arrays

  /** A merged element keeps its key. */
  lemma MergeKeepsKey(b: J, c: J, k: string)
    requires ElementKey(b) == Some(k) == ElementKey(c)
    ensures ElementKey(Merge(Some(b), c)) == Some(k)
  {
    MergeObjects(b.fields, c.fields, "id");
    MergeObjects(b.fields, c.fields, "key");
  }

  /** Every element of the map sits under its own key. */
  ghost predicate Filed(m: OMap<string, J>) {
    ValidMap(m) && forall k :: k in m.at ==> ElementKey(m.at[k]) == Some(k)
  }

  /** The keys of `ks` that `old` does not have yet. */
  function NewKeys(known: seq<string>, ks: seq<string>): seq<string> {
    if ks == [] then []
    else NewKeys(known, ks[..|ks| - 1]) + (if ks[|ks| - 1] in known then [] else [ks[|ks| - 1]])
  }

  lemma {:induction false} NewKeysMembers(known: seq<string>, ks: seq<string>)
    ensures forall k :: k in NewKeys(known, ks) <==> k in ks && k !in known
    decreases |ks|
  {
    if ks != [] {
      NewKeysMembers(known, ks[..|ks| - 1]);
      assert ks == ks[..|ks| - 1] + [ks[|ks| - 1]];
    }
  }

  /** The element of a keyed array with the given key. */
  function Element(items: seq<J>, k: string): Option<J>
    requires AllKeyed(items)
  {
    if items == [] then None
    else if ElementKey(items[|items| - 1]) == Some(k) then Some(items[|items| - 1])
    else Element(items[..|items| - 1], k)
  }

  lemma {:induction false} ElementMeaning(items: seq<J>, k: string)
    requires AllKeyed(items)
    ensures Element(items, k).Some? <==> k in KeysOf(items)
    ensures Element(items, k).Some? ==> Element(items, k).value in items && ElementKey(Element(items, k).value) == Some(k)
    decreases |items|
  {
    if items != [] {
      ElementMeaning(items[..|items| - 1], k);
      assert KeysOf(items) == KeysOf(items[..|items| - 1]) + [ElementKey(items[|items| - 1]).value];
    }
  }

  lemma {:induction false} ElementAt(items: seq<J>, i: nat)
    requires AllKeyed(items) && Distinct(KeysOf(items)) && i < |items|
    ensures Element(items, KeysOf(items)[i]) == Some(items[i])
    decreases |items|
  {
    if i < |items| - 1 {
      var front := items[..|items| - 1];
      assert KeysOf(front)[..] == KeysOf(items)[..|items| - 1];
      assert KeysOf(items)[i] != KeysOf(items)[|items| - 1];
      ElementAt(front, i);
    }
  }

  lemma {:induction false} ByKeyMeaning(items: seq<J>, k: string)
    requires AllKeyed(items)
    ensures Filed(ByKey(items))
    ensures Lookup(ByKey(items), k) == Element(items, k)
    decreases |items|
  {
    if items != [] { ByKeyMeaning(items[..|items| - 1], k); }
  }

  lemma {:induction false} ByKeyOrder(items: seq<J>)
    requires AllKeyed(items) && Distinct(KeysOf(items))
    ensures ByKey(items).keys == KeysOf(items)
    decreases |items|
  {
    if items != [] {
      var front := items[..|items| - 1];
      assert KeysOf(items) == KeysOf(front) + [KeysOf(items)[|items| - 1]];
      assert Distinct(KeysOf(front)) by {
        forall i, j | 0 <= i < j < |front| ensures KeysOf(front)[i] != KeysOf(front)[j] {
          assert KeysOf(items)[i] != KeysOf(items)[j];
        }
      }
      ByKeyOrder(front);
      assert KeysOf(items)[|items| - 1] !in KeysOf(front);
    }
  }

  lemma {:induction false} MergeAllFiled(m: OMap<string, J>, items: seq<J>)
    requires Filed(m) && AllKeyed(items)
    ensures Filed(MergeAll(m, items))
    decreases |items|
  {
    hide ElementKey, Merge;
    if items != [] {
      var front, e := items[..|items| - 1], items[|items| - 1];
      MergeAllFiled(m, front);
      var f, ke := MergeAll(m, front), ElementKey(e).value;
      if ke in f.at {
        MergeKeepsKey(f.at[ke], e, ke);
      } else {
        MergeNothing(e);
      }
    }
  }

  lemma MergeNothing(e: J)
    ensures Merge(None, e) == e
  {
  }

  /** New keys are appended in order of first appearance; known ones stay where they are. */
  lemma {:induction false} MergeAllKeys(m: OMap<string, J>, items: seq<J>)
    requires AllKeyed(items) && Distinct(KeysOf(items))
    ensures MergeAll(m, items).keys == m.keys + NewKeys(m.keys, KeysOf(items))
    decreases |items|
  {
    hide ElementKey, Merge;
    if items != [] {
      var front, ke := items[..|items| - 1], KeysOf(items)[|items| - 1];
      assert KeysOf(items) == KeysOf(front) + [ke];
      DistinctFront(KeysOf(front), ke);
      MergeAllKeys(m, front);
      NewKeysMembers(m.keys, KeysOf(front));
      assert KeysOf(items)[..|items| - 1] == KeysOf(front);
    }
  }

  /** With unique keys, each key holds the child's element merged onto what was there. */
  lemma {:induction false} MergeAllLookup(m: OMap<string, J>, items: seq<J>, k: string)
    requires AllKeyed(items) && Distinct(KeysOf(items))
    ensures Lookup(MergeAll(m, items), k) == MergeOpt(Lookup(m, k), Element(items, k))
    decreases |items|
  {
    hide ElementKey, Merge;
    if items != [] {
      var front, ke := items[..|items| - 1], KeysOf(items)[|items| - 1];
      assert KeysOf(items) == KeysOf(front) + [ke];
      DistinctFront(KeysOf(front), ke);
      MergeAllLookup(m, front, k);
      ElementMeaning(front, ke);
    }
  }

  lemma DistinctFront<T(!new)>(front: seq<T>, last: T)
    requires Distinct(front + [last])
    ensures Distinct(front) && last !in front
  {
    var s := front + [last];
    forall i, j | 0 <= i < j < |front| ensures front[i] != front[j] { assert s[i] != s[j]; }
    forall i | 0 <= i < |front| ensures front[i] != last { assert s[i] != s[|front|]; }
  }

  /** Reading a filed map out as an array and back loses nothing. */
  lemma ValuesFiled(m: OMap<string, J>)
    requires Filed(m)
    ensures AllKeyed(Values(m)) && KeysOf(Values(m)) == m.keys
    ensures ByKey(Values(m)) == m
    ensures forall k :: Element(Values(m), k) == Lookup(m, k)
  {
    hide ElementKey;
    var vs := Values(m);
    assert forall i :: 0 <= i < |vs| ==> ElementKey(vs[i]) == Some(m.keys[i]);
    assert KeysOf(vs) == m.keys;
    ByKeyOrder(vs);
    forall k ensures Element(vs, k) == Lookup(m, k) == Lookup(ByKey(vs), k) {
      ElementMeaning(vs, k);
      ByKeyMeaning(vs, k);
      if k in m.keys {
        var i :| 0 <= i < |m.keys| && m.keys[i] == k;
        ElementAt(vs, i);
      }
    }
    ByKeyMeaning(vs, "");
    SameMap(ByKey(vs), m);
  }

  /** Filed maps with the same order and the same elements are equal. */
  lemma SameMap(m: OMap<string, J>, n: OMap<string, J>)
    requires Filed(m) && Filed(n) && m.keys == n.keys && forall k :: Lookup(m, k) == Lookup(n, k)
    ensures m == n
  {
    forall k ensures (k in m.at <==> k in n.at) && (k in m.at ==> m.at[k] == n.at[k]) {
      assert Lookup(m, k) == Lookup(n, k);
    }
  }

  /** A merged keyed array lists the base's keys in order, then the child's new keys in the child's order. */
  lemma KeyedArrayOrder(b: seq<J>, c: seq<J>)
    requires AllKeyed(b) && Distinct(KeysOf(b)) && AllKeyed(c) && Distinct(KeysOf(c))
    ensures Merge(Some(JArr(b)), JArr(c)).JArr?
    ensures var r := Merge(Some(JArr(b)), JArr(c)).items;
      AllKeyed(r) && Distinct(KeysOf(r)) && KeysOf(r) == KeysOf(b) + NewKeys(KeysOf(b), KeysOf(c))
  {
    hide ElementKey, Merge, MergeAll, ByKey, Filed, KeysOf;
    var m := ByKey(b);
    ByKeyMeaning(b, "");
    ByKeyOrder(b);
    MergeAllFiled(m, c);
    MergeAllKeys(m, c);
    ValuesFiled(MergeAll(m, c));
    MergeKeyed(b, c);
    FiledDistinct(MergeAll(m, c));
  }

  lemma FiledDistinct(m: OMap<string, J>)
    requires Filed(m)
    ensures Distinct(m.keys)
  {
  }

  /** ... and each key holds the child's element merged onto the base's. */
  lemma KeyedArrayElement(b: seq<J>, c: seq<J>, k: string)
    requires AllKeyed(b) && AllKeyed(c) && Distinct(KeysOf(c))
    ensures Merge(Some(JArr(b)), JArr(c)).JArr? && AllKeyed(Merge(Some(JArr(b)), JArr(c)).items)
    ensures Element(Merge(Some(JArr(b)), JArr(c)).items, k) == MergeOpt(Element(b, k), Element(c, k))
  {
    hide ElementKey, Merge, MergeAll, ByKey, Filed, KeysOf;
    ByKeyMeaning(b, k);
    MergeAllFiled(ByKey(b), c);
    MergeAllLookup(ByKey(b), c, k);
    ValuesFiled(MergeAll(ByKey(b), c));
    MergeKeyed(b, c);
  }

  lemma MergeKeyed(b: seq<J>, c: seq<J>)
    requires AllKeyed(b) && AllKeyed(c)
    ensures Merge(Some(JArr(b)), JArr(c)) == JArr(Values(MergeAll(ByKey(b), c)))
  {
  }
}
