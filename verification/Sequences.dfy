/** Sequences joined and rearranged. */
module Sequences {

  function CommaJoined(texts: seq<string>): string {
    if texts == [] then "" else if |texts| == 1 then texts[0] else texts[0] + "," + CommaJoined(texts[1..])
  }

  predicate Distinct<T(==)>(elements: seq<T>) {
    forall i, j :: 0 <= i < j < |elements| ==> elements[i] != elements[j]
  }

  /** Taking the same element out of two rearrangements of one another leaves rearrangements. */
  lemma RestRearranged<T>(a: seq<T>, b: seq<T>, i: nat)
    requires multiset(a) == multiset(b) && a != [] && i < |b| && b[i] == a[0]
    ensures multiset(a[1..]) == multiset(b[..i] + b[i + 1..])
  {
    var x := a[0];
    assert a == [x] + a[1..];
    assert b == b[..i] + ([x] + b[i + 1..]);
    assert multiset(a) == multiset{x} + multiset(a[1..]);
    assert multiset(b) == multiset{x} + (multiset(b[..i]) + multiset(b[i + 1..]));
    assert multiset(a[1..]) == multiset(a) - multiset{x};
    assert multiset(b[..i]) + multiset(b[i + 1..]) == multiset(b) - multiset{x};
  }
}
