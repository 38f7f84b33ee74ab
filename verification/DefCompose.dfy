/** Definition composition: the deep merge of JSON values, child wins. */
module DefCompose {
  import opened Options
  import opened Json
  import opened OrderedMaps

  /** An object in an array goes by its `id`, by its `key` where that is missing or null, and only by a non-empty string. */
  function ElementKey(el: J): Option<string> {
    if !el.JObj? then None
    else
      var id := FieldOf(el.fields, "id");
      var k := if id.Some? && id.value != JNull then id else FieldOf(el.fields, "key");
      if k.Some? && k.value.JStr? && k.value.s != "" then Some(k.value.s) else None
  }

  predicate AllKeyed(items: seq<J>) {
    forall i :: 0 <= i < |items| ==> ElementKey(items[i]).Some?
  }

  function KeysOf(items: seq<J>): (r: seq<string>)
    requires AllKeyed(items)
    ensures |r| == |items| && forall i :: 0 <= i < |items| ==> r[i] == ElementKey(items[i]).value
  {
    seq(|items|, i requires 0 <= i < |items| => ElementKey(items[i]).value)
  }

  function Lookup(m: OMap<string, J>, k: string): Option<J> {
    if k in m.at then Some(m.at[k]) else None
  }

  /** A keyed array as an ordered map; a repeated key keeps its first place and its last element. */
  function ByKey(items: seq<J>): (m: OMap<string, J>)
    requires AllKeyed(items)
    ensures ValidMap(m)
  {
    if items == [] then Empty()
    else Set(ByKey(items[..|items| - 1]), ElementKey(items[|items| - 1]).value, items[|items| - 1])
  }

  predicate IsKeyedArray(v: J) {
    v.JArr? && AllKeyed(v.items)
  }

  /** Objects merge per property and keyed arrays per element; for anything else the child stands alone. */
  function Merge(base: Option<J>, child: J): J
    decreases child, 1
  {
    if base.Some? && base.value.JObj? && child.JObj? then
      var b := base.value.fields;
      JObj(map k | k in b.Keys + child.fields.Keys ::
        if k in child.fields then Merge(FieldOf(b, k), child.fields[k]) else b[k])
    else if base.Some? && IsKeyedArray(base.value) && IsKeyedArray(child) then
      JArr(Values(MergeAll(ByKey(base.value.items), child.items)))
    else child
  }

  /** Merge each element of a keyed array into the map, in order. */
  function MergeAll(m: OMap<string, J>, items: seq<J>): (r: OMap<string, J>)
    requires AllKeyed(items)
    ensures ValidMap(m) ==> ValidMap(r)
    decreases items, 0
  {
    if items == [] then m
    else
      var front, e := MergeAll(m, items[..|items| - 1]), items[|items| - 1];
      Set(front, ElementKey(e).value, Merge(Lookup(front, ElementKey(e).value), e))
  }
}
