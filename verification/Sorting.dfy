/** Stable sorting by a comparison that ranks any two elements. */
module Sorting {

  /** Whether the first element does not come after the second. */
  type Comparison<!T> = (T, T) -> bool

  ghost predicate Ranks<T(!new)>(notAfter: Comparison<T>) {
    && (forall a, b :: notAfter(a, b) || notAfter(b, a))
    && (forall a, b, c :: notAfter(a, b) && notAfter(b, c) ==> notAfter(a, c))
  }

  function Insert<T>(notAfter: Comparison<T>, e: T, sorted: seq<T>): seq<T> {
    if sorted != [] && notAfter(sorted[0], e) then [sorted[0]] + Insert(notAfter, e, sorted[1..])
    else [e] + sorted
  }

  function Sort<T>(notAfter: Comparison<T>, elements: seq<T>): seq<T> {
    if elements == [] then []
    else Insert(notAfter, elements[|elements| - 1], Sort(notAfter, elements[..|elements| - 1]))
  }

  ghost predicate Sorted<T>(notAfter: Comparison<T>, elements: seq<T>) {
    forall i, j :: 0 <= i < j < |elements| ==> notAfter(elements[i], elements[j])
  }

  lemma {:induction false} InsertRearranges<T>(notAfter: Comparison<T>, e: T, sorted: seq<T>)
    ensures multiset(Insert(notAfter, e, sorted)) == multiset([e]) + multiset(sorted)
  {
    if sorted != [] && notAfter(sorted[0], e) {
      InsertRearranges(notAfter, e, sorted[1..]);
      assert sorted == [sorted[0]] + sorted[1..];
    }
  }

  lemma {:induction false} RanksThree<T(!new)>(notAfter: Comparison<T>, a: T, b: T, c: T)
    requires Ranks(notAfter)
    ensures notAfter(a, b) || notAfter(b, a)
    ensures notAfter(a, b) && notAfter(b, c) ==> notAfter(a, c)
  {
  }

  lemma {:induction false} InsertSorts<T(!new)>(notAfter: Comparison<T>, e: T, sorted: seq<T>)
    requires Ranks(notAfter) && Sorted(notAfter, sorted)
    ensures Sorted(notAfter, Insert(notAfter, e, sorted))
  {
    hide Ranks;
    if sorted == [] {
    } else if notAfter(sorted[0], e) {
      var tail := Insert(notAfter, e, sorted[1..]);
      InsertSorts(notAfter, e, sorted[1..]);
      InsertRearranges(notAfter, e, sorted[1..]);
      forall j | 0 <= j < |tail|
        ensures notAfter(sorted[0], tail[j])
      {
        assert tail[j] in multiset(tail);
        assert tail[j] == e || tail[j] in sorted[1..];
      }
    } else {
      forall j | 0 <= j < |sorted|
        ensures notAfter(e, sorted[j])
      {
        RanksThree(notAfter, e, sorted[0], sorted[j]);
      }
    }
  }

  /** The result is a rearrangement, and in order. */
  lemma {:induction false} SortSorts<T(!new)>(notAfter: Comparison<T>, elements: seq<T>)
    requires Ranks(notAfter)
    ensures Sorted(notAfter, Sort(notAfter, elements))
    ensures multiset(Sort(notAfter, elements)) == multiset(elements)
    ensures |Sort(notAfter, elements)| == |elements|
  {
    hide Ranks, Insert;
    if elements != [] {
      var last := |elements| - 1;
      assert elements == elements[..last] + [elements[last]];
      SortSorts(notAfter, elements[..last]);
      InsertSorts(notAfter, elements[last], Sort(notAfter, elements[..last]));
      InsertRearranges(notAfter, elements[last], Sort(notAfter, elements[..last]));
      assert |multiset(Sort(notAfter, elements))| == |multiset(elements)|;
    }
  }

  /** Nothing in the first part comes after anything in the second. */
  ghost predicate Precede<T>(notAfter: Comparison<T>, first: seq<T>, second: seq<T>) {
    forall i, j :: 0 <= i < |first| && 0 <= j < |second| ==> notAfter(first[i], second[j])
  }

  lemma {:induction false} SortedCut<T>(notAfter: Comparison<T>, sorted: seq<T>, n: nat)
    requires Sorted(notAfter, sorted) && n <= |sorted|
    ensures Sorted(notAfter, sorted[..n]) && Sorted(notAfter, sorted[n..])
    ensures Precede(notAfter, sorted[..n], sorted[n..])
    ensures multiset(sorted[..n]) + multiset(sorted[n..]) == multiset(sorted)
  {
    assert sorted == sorted[..n] + sorted[n..];
    forall i, j | 0 <= i < n && 0 <= j < |sorted| - n
      ensures notAfter(sorted[..n][i], sorted[n..][j])
    {
      assert sorted[n..][j] == sorted[n + j];
    }
  }

  /** The comparison tells the elements apart. */
  ghost predicate Distinguishes<T(!new)>(notAfter: Comparison<T>, elements: seq<T>) {
    forall a, b :: a in elements && b in elements && notAfter(a, b) && notAfter(b, a) ==> a == b
  }

  lemma {:induction false} SameFirst<T(!new)>(notAfter: Comparison<T>, a: seq<T>, b: seq<T>)
    requires Sorted(notAfter, a) && Sorted(notAfter, b) && multiset(a) == multiset(b) && a != []
    requires Distinguishes(notAfter, a)
    ensures b != [] && a[0] == b[0]
  {
    assert a[0] in multiset(b);
    var j :| 0 <= j < |b| && b[j] == a[0];
    assert b[0] in multiset(a);
    var i :| 0 <= i < |a| && a[i] == b[0];
    assert i > 0 ==> notAfter(a[0], a[i]);
    assert j > 0 ==> notAfter(b[0], b[j]);
  }

  /** Where the elements are told apart there is only one order for them. */
  lemma {:induction false} OrderIsForced<T(!new)>(notAfter: Comparison<T>, a: seq<T>, b: seq<T>)
    requires Sorted(notAfter, a) && Sorted(notAfter, b) && multiset(a) == multiset(b)
    requires Distinguishes(notAfter, a)
    ensures a == b
  {
    if a == [] {
      assert |b| == |multiset(b)|;
    } else {
      SameFirst(notAfter, a, b);
      RestSorted(notAfter, a);
      RestSorted(notAfter, b);
      assert a == [a[0]] + a[1..] && b == [b[0]] + b[1..];
      assert multiset(a[1..]) == multiset(a) - multiset{a[0]};
      assert multiset(b[1..]) == multiset(b) - multiset{b[0]};
      OrderIsForced(notAfter, a[1..], b[1..]);
    }
  }

  lemma {:induction false} SameSorted<T(!new)>(notAfter: Comparison<T>, a: seq<T>, b: seq<T>)
    requires Ranks(notAfter) && multiset(a) == multiset(b) && Distinguishes(notAfter, a)
    ensures Sort(notAfter, a) == Sort(notAfter, b)
  {
    hide Ranks, Sort, Sorted;
    var sorted := Sort(notAfter, a);
    SortSorts(notAfter, a);
    SortSorts(notAfter, b);
    forall e | e in sorted
      ensures e in a
    {
      assert e in multiset(sorted);
    }
    OrderIsForced(notAfter, sorted, Sort(notAfter, b));
  }

  lemma {:induction false} RestSorted<T(!new)>(notAfter: Comparison<T>, a: seq<T>)
    requires a != [] && Sorted(notAfter, a)
    ensures Sorted(notAfter, a[1..])
    ensures Distinguishes(notAfter, a) ==> Distinguishes(notAfter, a[1..])
  {
    forall e | e in a[1..]
      ensures e in a
    {
    }
  }
}
