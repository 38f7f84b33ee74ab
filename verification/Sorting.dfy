/** String order, stable sorting by a comparator, and when a sorted sequence is determined by its elements. */
module Sorting {
  import opened Ids

  /** `a < b` on strings, character by character. */
  predicate StrLess(a: string, b: string)
    decreases |a|
  {
    if b == "" then false
    else if a == "" then true
    else a[0] < b[0] || (a[0] == b[0] && StrLess(a[1..], b[1..]))
  }

  /** Up to `k` the strings agree, and there `a` ends or has the smaller character. */
  predicate FirstDiffers(a: string, b: string, k: nat) {
    && k <= |a| && k < |b| && a[..k] == b[..k]
    && (k == |a| || a[k] < b[k])
  }

  lemma {:induction false} StrLessMeaning(a: string, b: string)
    ensures StrLess(a, b) <==> exists k: nat :: FirstDiffers(a, b, k)
    decreases |a|
  {
    SameStart(a, b);
    if a != "" && b != "" && a[0] == b[0] {
      StrLessMeaning(a[1..], b[1..]);
      if k: nat :| FirstDiffers(a[1..], b[1..], k) {
        assert a[..k + 1] == [a[0]] + a[1..][..k] && b[..k + 1] == [b[0]] + b[1..][..k];
        assert FirstDiffers(a, b, k + 1);
      }
      if k: nat :| FirstDiffers(a, b, k) {
        assert k > 0;
        assert a[1..][..k - 1] == a[..k][1..] == b[..k][1..] == b[1..][..k - 1];
        assert FirstDiffers(a[1..], b[1..], k - 1);
      }
    } else if StrLess(a, b) {
      assert FirstDiffers(a, b, 0);
    }
  }

  lemma SameStart(a: string, b: string)
    ensures forall k: nat :: 0 < k <= |a| && k <= |b| && a[..k] == b[..k] ==> a[0] == b[0]
  {
    forall k: nat | 0 < k <= |a| && k <= |b| && a[..k] == b[..k] ensures a[0] == b[0] {
      assert a[..k][0] == b[..k][0];
    }
  }

  predicate IdLess(a: Id, b: Id) {
    StrLess(a.name, b.name)
  }

  lemma {:induction false} StrLessTransitive(a: string, b: string, c: string)
    requires StrLess(a, b) && StrLess(b, c)
    ensures StrLess(a, c)
    decreases |a|
  {
    if a != "" && a[0] == b[0] && b[0] == c[0] {
      StrLessTransitive(a[1..], b[1..], c[1..]);
    }
  }

  lemma {:induction false} StrLessIrreflexive(a: string)
    ensures !StrLess(a, a)
    decreases |a|
  {
    if a != "" { StrLessIrreflexive(a[1..]); }
  }

  lemma {:induction false} StrLessConnected(a: string, b: string)
    ensures a == b || StrLess(a, b) || StrLess(b, a)
    decreases |a|
  {
    if a != "" && b != "" && a[0] == b[0] {
      StrLessConnected(a[1..], b[1..]);
      assert a == [a[0]] + a[1..] && b == [b[0]] + b[1..];
    }
  }

  /** A strict order: nothing precedes itself, and precedence chains. */
  ghost predicate StrictOrder<T(!new)>(less: (T, T) -> bool) {
    && (forall a :: !less(a, a))
    && (forall a, b, c :: less(a, b) && less(b, c) ==> less(a, c))
  }

  /** ... in which any two different things compare. */
  ghost predicate Comparable<T(!new)>(less: (T, T) -> bool) {
    forall a, b :: a == b || less(a, b) || less(b, a)
  }

  lemma IdLessOrders()
    ensures StrictOrder(IdLess) && Comparable(IdLess)
  {
    forall a: Id ensures !IdLess(a, a) { StrLessIrreflexive(a.name); }
    forall a, b, c | IdLess(a, b) && IdLess(b, c) ensures IdLess(a, c) { StrLessTransitive(a.name, b.name, c.name); }
    forall a, b ensures a == b || IdLess(a, b) || IdLess(b, a) { StrLessConnected(a.name, b.name); }
  }

  lemma StrLessOrders()
    ensures StrictOrder(StrLess) && Comparable(StrLess)
  {
    forall a: string ensures !StrLess(a, a) { StrLessIrreflexive(a); }
    forall a, b, c | StrLess(a, b) && StrLess(b, c) ensures StrLess(a, c) { StrLessTransitive(a, b, c); }
    forall a, b ensures a == b || StrLess(a, b) || StrLess(b, a) { StrLessConnected(a, b); }
  }

  /** Insert `x` behind everything that does not come after it. */
  function Insert<T>(less: (T, T) -> bool, s: seq<T>, x: T): (r: seq<T>)
    ensures multiset(r) == multiset(s) + multiset{x}
    ensures |r| == |s| + 1
  {
    if s != [] && less(x, s[|s| - 1]) then
      var front := s[..|s| - 1];
      assert s == front + [s[|s| - 1]];
      Insert(less, front, x) + [s[|s| - 1]]
    else s + [x]
  }

  /** The stable sort by `less`. */
  function Sort<T>(less: (T, T) -> bool, s: seq<T>): (r: seq<T>)
    ensures multiset(r) == multiset(s)
    ensures |r| == |s|
  {
    if s == [] then [] else
      assert s == s[..|s| - 1] + [s[|s| - 1]];
      Insert(less, Sort(less, s[..|s| - 1]), s[|s| - 1])
  }

  lemma SortMembers<T(!new)>(less: (T, T) -> bool, s: seq<T>)
    ensures forall x :: x in Sort(less, s) <==> x in s
  {
    forall x ensures x in Sort(less, s) <==> x in s {
      assert x in multiset(Sort(less, s)) <==> x in multiset(s);
    }
  }

  ghost predicate StrictlySorted<T>(less: (T, T) -> bool, s: seq<T>) {
    forall i, j :: 0 <= i < j < |s| ==> less(s[i], s[j])
  }

  /** Any two of the elements compare. */
  ghost predicate NoTies<T(!new)>(less: (T, T) -> bool, s: seq<T>) {
    forall a, b :: a in s && b in s ==> a == b || less(a, b) || less(b, a)
  }

  lemma {:induction false} InsertSorted<T(!new)>(less: (T, T) -> bool, s: seq<T>, x: T)
    requires StrictOrder(less) && StrictlySorted(less, s) && x !in s
    requires forall a :: a in s ==> less(a, x) || less(x, a)
    ensures StrictlySorted(less, Insert(less, s, x))
    decreases |s|
  {
    if s != [] && less(x, s[|s| - 1]) {
      var front, last := s[..|s| - 1], s[|s| - 1];
      InsertSorted(less, front, x);
      var r := Insert(less, front, x);
      forall i | 0 <= i < |r| ensures less(r[i], last) {
        assert r[i] in multiset(r);
        assert r[i] in front || r[i] == x;
      }
    } else if s != [] {
      forall i | 0 <= i < |s| ensures less(s[i], x) {
        if i < |s| - 1 { assert less(s[i], s[|s| - 1]); }
      }
    }
  }

  /** Sorting distinct, comparable elements sorts them strictly. */
  lemma {:induction false} SortSorts<T(!new)>(less: (T, T) -> bool, s: seq<T>)
    requires StrictOrder(less) && Distinct(s) && NoTies(less, s)
    ensures StrictlySorted(less, Sort(less, s))
    decreases |s|
  {
    if s != [] {
      var front, last := s[..|s| - 1], s[|s| - 1];
      assert forall x :: x in front ==> x in s;
      SortSorts(less, front);
      SortMembers(less, front);
      assert last !in front;
      InsertSorted(less, Sort(less, front), last);
    }
  }

  /** Distinct ids sort strictly. */
  lemma SortIds(s: seq<Id>)
    requires Distinct(s)
    ensures StrictlySorted(IdLess, Sort(IdLess, s))
    ensures forall x :: x in Sort(IdLess, s) <==> x in s
  {
    hide Sort, IdLess, Distinct;
    IdLessOrders();
    SortMembers(IdLess, s);
    SortSorts(IdLess, s);
  }

  lemma StrictlySortedDistinct<T(!new)>(less: (T, T) -> bool, s: seq<T>)
    requires StrictOrder(less) && StrictlySorted(less, s)
    ensures Distinct(s)
  {
  }

  /** A strictly sorted sequence is determined by its set of elements. */
  lemma {:induction false} StrictlySortedUnique<T(!new)>(less: (T, T) -> bool, s: seq<T>, t: seq<T>)
    requires StrictOrder(less) && StrictlySorted(less, s) && StrictlySorted(less, t)
    requires forall x :: x in s <==> x in t
    ensures s == t
    decreases |s|
  {
    if s == [] {
      if t != [] { HasMember(t); }
    } else {
      assert s[0] in t;
      SameLast(less, s, t);
      var sf, tf := s[..|s| - 1], t[..|t| - 1];
      WithoutLast(less, s);
      WithoutLast(less, t);
      forall x ensures x in sf <==> x in tf {
        assert x in s <==> x in t;
      }
      StrictlySortedUnique(less, sf, tf);
      assert s == sf + [s[|s| - 1]] && t == tf + [t[|t| - 1]];
    }
  }

  lemma SameLast<T(!new)>(less: (T, T) -> bool, s: seq<T>, t: seq<T>)
    requires StrictOrder(less) && StrictlySorted(less, s) && StrictlySorted(less, t)
    requires s != [] && t != [] && forall x :: x in s <==> x in t
    ensures s[|s| - 1] == t[|t| - 1]
  {
    hide StrictlySorted;
    assert s[|s| - 1] in s && t[|t| - 1] in t;
    LastIsGreatest(less, s, t[|t| - 1]);
    LastIsGreatest(less, t, s[|s| - 1]);
  }

  lemma WithoutLast<T(!new)>(less: (T, T) -> bool, s: seq<T>)
    requires StrictOrder(less) && StrictlySorted(less, s) && s != []
    ensures StrictlySorted(less, s[..|s| - 1])
    ensures forall x :: x in s[..|s| - 1] <==> x in s && x != s[|s| - 1]
  {
    StrictlySortedDistinct(less, s);
    assert s == s[..|s| - 1] + [s[|s| - 1]];
  }

  lemma HasMember<T(!new)>(t: seq<T>)
    requires t != []
    ensures exists x :: x in t
  {
    assert t[0] in t;
  }

  lemma LastIsGreatest<T(!new)>(less: (T, T) -> bool, s: seq<T>, x: T)
    requires StrictlySorted(less, s) && x in s
    ensures x == s[|s| - 1] || less(x, s[|s| - 1])
  {
  }
}
