/** A stable sort by a comparison, standing in for Array.prototype.sort. */
module Sorting {
  /** A strict weak order: "not less either way" is an equivalence. */
  ghost predicate Order<T(!new)>(lt: (T, T) -> bool) {
    && (forall a :: !lt(a, a))
    && (forall a, b, c :: lt(a, b) && lt(b, c) ==> lt(a, c))
    && (forall a, b, c :: !lt(a, b) && !lt(b, c) ==> !lt(a, c))
  }

  ghost predicate Sorted<T>(lt: (T, T) -> bool, s: seq<T>) {
    forall i, j :: 0 <= i < j < |s| ==> !lt(s[j], s[i])
  }

  ghost predicate StrictlySorted<T>(lt: (T, T) -> bool, s: seq<T>) {
    forall i, j :: 0 <= i < j < |s| ==> lt(s[i], s[j])
  }

  /** Put `x` after everything it is not less than. */
  function Insert<T>(lt: (T, T) -> bool, s: seq<T>, x: T): seq<T> {
    if s == [] || !lt(x, s[|s| - 1]) then s + [x] else Insert(lt, s[..|s| - 1], x) + [s[|s| - 1]]
  }

  function Sort<T>(lt: (T, T) -> bool, s: seq<T>): seq<T> {
    if s == [] then [] else Insert(lt, Sort(lt, s[..|s| - 1]), s[|s| - 1])
  }

  lemma {:induction false} InsertPermutes<T>(lt: (T, T) -> bool, s: seq<T>, x: T)
    ensures multiset(Insert(lt, s, x)) == multiset(s) + multiset{x}
    decreases |s|
  {
    if s != [] && lt(x, s[|s| - 1]) {
      InsertPermutes(lt, s[..|s| - 1], x);
      assert s == s[..|s| - 1] + [s[|s| - 1]];
    }
  }

  lemma {:induction false} SortPermutes<T>(lt: (T, T) -> bool, s: seq<T>)
    ensures multiset(Sort(lt, s)) == multiset(s)
    decreases |s|
  {
    if s != [] {
      SortPermutes(lt, s[..|s| - 1]);
      InsertPermutes(lt, Sort(lt, s[..|s| - 1]), s[|s| - 1]);
      assert s == s[..|s| - 1] + [s[|s| - 1]];
    }
  }

  lemma {:induction false} SortKeepsElements<T>(lt: (T, T) -> bool, s: seq<T>, x: T)
    ensures x in Sort(lt, s) <==> x in s
    ensures |Sort(lt, s)| == |s|
  {
    SortPermutes(lt, s);
    assert x in multiset(s) <==> x in s;
    assert x in multiset(Sort(lt, s)) <==> x in Sort(lt, s);
    assert |multiset(s)| == |multiset(Sort(lt, s))|;
  }

  lemma {:induction false} InsertMember<T>(lt: (T, T) -> bool, s: seq<T>, x: T, i: nat)
    requires i < |Insert(lt, s, x)|
    ensures Insert(lt, s, x)[i] in s || Insert(lt, s, x)[i] == x
    decreases |s|
  {
    if s != [] && lt(x, s[|s| - 1]) && i < |Insert(lt, s, x)| - 1 {
      InsertMember(lt, s[..|s| - 1], x, i);
    }
  }

  lemma {:induction false} InsertSorted<T(!new)>(lt: (T, T) -> bool, s: seq<T>, x: T)
    requires Order(lt) && Sorted(lt, s)
    ensures Sorted(lt, Insert(lt, s, x))
    decreases |s|
  {
    if s != [] {
      var last, front := s[|s| - 1], s[..|s| - 1];
      if lt(x, last) {
        InsertSorted(lt, front, x);
        var r := Insert(lt, front, x);
        forall i | 0 <= i < |r| ensures !lt(last, r[i]) {
          InsertMember(lt, front, x, i);
        }
        SortedAppend(lt, r, last);
      } else {
        SortedAppend(lt, s, x);
      }
    }
  }

  lemma {:induction false} SortedAppend<T(!new)>(lt: (T, T) -> bool, s: seq<T>, x: T)
    requires Order(lt) && Sorted(lt, s)
    requires s != [] ==> !lt(x, s[|s| - 1])
    ensures Sorted(lt, s + [x])
  {
    forall i | 0 <= i < |s| ensures !lt(x, s[i]) {
      assert i < |s| - 1 ==> !lt(s[|s| - 1], s[i]);
    }
  }

  lemma {:induction false} SortSorted<T(!new)>(lt: (T, T) -> bool, s: seq<T>)
    requires Order(lt)
    ensures Sorted(lt, Sort(lt, s))
    decreases |s|
  {
    if s != [] {
      SortSorted(lt, s[..|s| - 1]);
      InsertSorted(lt, Sort(lt, s[..|s| - 1]), s[|s| - 1]);
    }
  }

  ghost predicate Distinct<T>(s: seq<T>) {
    forall i, j :: 0 <= i < j < |s| ==> s[i] != s[j]
  }

  lemma {:induction false} InsertDistinct<T>(lt: (T, T) -> bool, s: seq<T>, x: T)
    requires Distinct(s) && x !in s
    ensures Distinct(Insert(lt, s, x))
    decreases |s|
  {
    if s != [] && lt(x, s[|s| - 1]) {
      var front := s[..|s| - 1];
      InsertDistinct(lt, front, x);
      forall i | 0 <= i < |Insert(lt, front, x)| ensures Insert(lt, front, x)[i] != s[|s| - 1] {
        InsertMember(lt, front, x, i);
      }
    }
  }

  lemma {:induction false} SortDistinct<T>(lt: (T, T) -> bool, s: seq<T>)
    requires Distinct(s)
    ensures Distinct(Sort(lt, s))
    decreases |s|
  {
    if s != [] {
      var front := s[..|s| - 1];
      SortDistinct(lt, front);
      SortKeepsElements(lt, front, s[|s| - 1]);
      InsertDistinct(lt, Sort(lt, front), s[|s| - 1]);
    }
  }

  /** Sorting distinct elements of which any two compare leaves no ties. */
  lemma {:induction false} SortStrict<T(!new)>(lt: (T, T) -> bool, s: seq<T>)
    requires Order(lt) && Distinct(s)
    requires forall a, b :: a in s && b in s && a != b ==> lt(a, b) || lt(b, a)
    ensures StrictlySorted(lt, Sort(lt, s))
  {
    hide Sort;
    SortSorted(lt, s);
    SortDistinct(lt, s);
    var r := Sort(lt, s);
    forall i, j | 0 <= i < j < |r| ensures lt(r[i], r[j]) {
      SortKeepsElements(lt, s, r[i]);
      SortKeepsElements(lt, s, r[j]);
    }
  }

  /** A strictly sorted sequence is determined by its elements. */
  lemma {:induction false} StrictlySortedUnique<T(!new)>(lt: (T, T) -> bool, a: seq<T>, b: seq<T>)
    requires Order(lt) && StrictlySorted(lt, a) && StrictlySorted(lt, b)
    requires forall x :: x in a <==> x in b
    ensures a == b
    decreases |a|
  {
    assert (a != [] ==> a[0] in a) && (b != [] ==> b[0] in b);
    if a != [] && b != [] {
      var x, y := a[|a| - 1], b[|b| - 1];
      assert x in b && y in a;
      assert x == y;
      var a', b' := a[..|a| - 1], b[..|b| - 1];
      forall z ensures z in a' <==> z in b' {
        assert z in a <==> z in b;
      }
      StrictlySortedUnique(lt, a', b');
    }
  }
}
