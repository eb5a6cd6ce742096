/** Text as UTF-16 code units, which is how lengths are counted and text is compared. */
module Utf16 {

  /** The code units of a text of Unicode scalar values. */
  function Units(s: string): seq<nat> {
    if s == "" then []
    else
      var n := s[0] as nat;
      (if n < 0x1_0000 then [n] else [0xD800 + (n - 0x1_0000) / 0x400, 0xDC00 + (n - 0x1_0000) % 0x400]) + Units(s[1..])
  }

  predicate UnitsNotAfter(a: seq<nat>, b: seq<nat>) {
    if a == [] then true
    else if b == [] then false
    else if a[0] != b[0] then a[0] < b[0]
    else UnitsNotAfter(a[1..], b[1..])
  }

  predicate TextNotAfter(a: string, b: string) {
    UnitsNotAfter(Units(a), Units(b))
  }

  lemma {:induction false} UnitsRank(a: seq<nat>, b: seq<nat>, c: seq<nat>)
    ensures UnitsNotAfter(a, b) || UnitsNotAfter(b, a)
    ensures UnitsNotAfter(a, b) && UnitsNotAfter(b, c) ==> UnitsNotAfter(a, c)
    ensures UnitsNotAfter(a, b) && UnitsNotAfter(b, a) ==> a == b
    decreases |a|
  {
    if a != [] && b != [] && a[0] == b[0] {
      assert a == [a[0]] + a[1..] && b == [b[0]] + b[1..];
      UnitsRank(a[1..], b[1..], if c == [] then [] else c[1..]);
    }
  }

  lemma {:induction false} AsciiUnits(s: string)
    requires forall i :: 0 <= i < |s| ==> s[i] < '\U{80}'
    ensures |Units(s)| == |s|
  {
    if s != "" { AsciiUnits(s[1..]); }
  }

  /** The order of code units, without recursion: at the first difference the smaller unit, or the end. */
  predicate UnitsPrecede(a: seq<nat>, b: seq<nat>) {
    exists k :: 0 <= k <= |a| && PrecedesAt(a, b, k)
  }

  predicate PrecedesAt(a: seq<nat>, b: seq<nat>, k: nat)
    requires k <= |a|
  {
    k <= |b| && a[..k] == b[..k] && (k == |a| || (k < |b| && a[k] < b[k]))
  }

  lemma {:induction false} NotAfterExactly(a: seq<nat>, b: seq<nat>)
    ensures UnitsNotAfter(a, b) <==> UnitsPrecede(a, b)
    decreases |a|
  {
    if a == [] {
      assert PrecedesAt(a, b, 0);
    } else if b == [] {
    } else if a[0] != b[0] {
      assert a[0] < b[0] ==> PrecedesAt(a, b, 0);
      assert forall k :: 0 < k <= |a| && k <= |b| ==> a[..k][0] != b[..k][0];
    } else {
      NotAfterExactly(a[1..], b[1..]);
      if UnitsPrecede(a[1..], b[1..]) {
        var k :| 0 <= k <= |a[1..]| && PrecedesAt(a[1..], b[1..], k);
        assert a[..k + 1] == [a[0]] + a[1..][..k] && b[..k + 1] == [b[0]] + b[1..][..k];
        assert PrecedesAt(a, b, k + 1);
      }
      if UnitsPrecede(a, b) {
        var k :| 0 <= k <= |a| && PrecedesAt(a, b, k);
        if k > 0 {
          assert a[1..][..k - 1] == a[..k][1..] && b[1..][..k - 1] == b[..k][1..];
          assert PrecedesAt(a[1..], b[1..], k - 1);
        }
      }
    }
  }

  lemma {:induction false} UnitsConcat(a: string, b: string)
    ensures Units(a + b) == Units(a) + Units(b)
  {
    if a == "" {
      assert a + b == b;
    } else {
      assert (a + b)[1..] == a[1..] + b;
      UnitsConcat(a[1..], b);
    }
  }

  /** The code units of one character: itself, or a surrogate pair that stands for it. */
  lemma UnitsOfOne(c: char)
    ensures
      var n := c as nat;
      if n < 0x1_0000 then Units([c]) == [n]
      else exists high, low ::
        && 0xD800 <= high < 0xDC00 <= low < 0xE000
        && n == 0x1_0000 + (high - 0xD800) * 0x400 + (low - 0xDC00)
        && Units([c]) == [high, low]
  {
    var n := c as nat;
    assert [c][1..] == [];
    if n >= 0x1_0000 {
      var high, low := 0xD800 + (n - 0x1_0000) / 0x400, 0xDC00 + (n - 0x1_0000) % 0x400;
      assert Units([c]) == [high, low];
    }
  }
}
