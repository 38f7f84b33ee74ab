/** By what an array element goes, and what that makes of two arrays that meet in a merge. */
module ElementNames {
  import opened Options
  import opened Json
  import opened Ids
  import opened DefCompose
  import opened MergeAlgebra

  /** The object names itself `k`: by its `id`, or by its `key` if the `id` is missing or null. */
  predicate GoesBy(el: J, k: string) {
    && el.JObj? && k != ""
    && if "id" in el.fields && el.fields["id"] != JNull then el.fields["id"] == JStr(k)
       else "key" in el.fields && el.fields["key"] == JStr(k)
  }

  /** The element has no usable name: not an object, or its name is missing, empty or not a string. */
  ghost predicate Nameless(el: J) {
    forall k :: !GoesBy(el, k)
  }

  lemma KeyIsName(el: J, k: string)
    ensures ElementKey(el) == Some(k) <==> GoesBy(el, k)
  {
  }

  lemma KeyIffNamed(el: J)
    ensures ElementKey(el).None? <==> Nameless(el)
  {
    if ElementKey(el).Some? { KeyIsName(el, ElementKey(el).value); }
    forall k ensures ElementKey(el) == Some(k) <==> GoesBy(el, k) { KeyIsName(el, k); }
  }

  /** Elements of one name merge into one, elements of different names stand side by side. */
  lemma NamedElementsMeet(x: J, y: J, k: string, l: string)
    requires GoesBy(x, k) && GoesBy(y, l)
    ensures Merge(Some(JArr([x])), JArr([y])) == JArr(if k == l then [Merge(Some(x), y)] else [x, y])
  {
    KeyIsName(x, k);
    KeyIsName(y, l);
    hide GoesBy, ElementKey, Merge;
    OneKey(x, k);
    OneKey(y, l);
    KeyedArrayOrder([x], [y]);
    KeyedArrayElement([x], [y], k);
    KeyedArrayElement([x], [y], l);
    var r := Merge(Some(JArr([x])), JArr([y])).items;
    assert [l][..0] == [];
    assert NewKeys([k], [l]) == if k == l then [] else [l];
    ElementAt(r, 0);
    if k != l {
      MergeNothing(y);
      ElementAt(r, 1);
      assert r == [x, y];
    } else {
      assert r == [Merge(Some(x), y)];
    }
  }

  lemma OneKey(x: J, k: string)
    requires ElementKey(x) == Some(k)
    ensures AllKeyed([x]) && KeysOf([x]) == [k] && Distinct([k])
    ensures forall l :: Element([x], l) == if l == k then Some(x) else None
  {
    assert [x][..0] == [];
  }

  /** One nameless element on either side, and the child's array replaces the base's whole. */
  lemma NamelessReplaces(b: seq<J>, c: seq<J>, el: J)
    requires Nameless(el) && (el in b || el in c)
    ensures Merge(Some(JArr(b)), JArr(c)) == JArr(c)
  {
    KeyIffNamed(el);
    hide ElementKey;
    assert !AllKeyed(b) || !AllKeyed(c);
  }

  /**
   * Form fields that carry only `key` merge by it; an `id` beside it decides, unless it is null: then, and
   * only then, the `key` is asked.
   */
  lemma KeyIsTheFallback(x: map<string, J>, y: map<string, J>, k: string)
    requires k != ""
    requires "id" !in x && "key" in x && x["key"] == JStr(k)
    requires "key" in y && y["key"] == JStr(k)
    ensures var r := Merge(Some(JArr([JObj(x)])), JArr([JObj(y)]));
      && ("id" !in y || y["id"] == JNull ==> r == JArr([Merge(Some(JObj(x)), JObj(y))]))
      && (forall l :: l != "" && l != k && "id" in y && y["id"] == JStr(l) ==> r == JArr([JObj(x), JObj(y)]))
      && ("id" in y && y["id"] != JNull && (y["id"] == JStr("") || !y["id"].JStr?) ==> r == JArr([JObj(y)]))
  {
    var a, b := JObj(x), JObj(y);
    assert GoesBy(a, k);
    if "id" !in y || y["id"] == JNull {
      NamedElementsMeet(a, b, k, k);
    } else if y["id"].JStr? && y["id"].s != "" {
      var l := y["id"].s;
      if l != k { NamedElementsMeet(a, b, k, l); }
    } else {
      assert Nameless(b);
      NamelessReplaces([a], [b], b);
    }
  }
}
