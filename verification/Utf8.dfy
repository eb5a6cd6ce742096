/** Byte lengths and truncation of UTF-8 text, over Unicode scalar values. */
module Utf8 {

  function CharBytes(c: char): (n: nat)
    ensures 1 <= n <= 4
  {
    if c < '\U{80}' then 1 else if c < '\U{800}' then 2 else if c < '\U{10000}' then 3 else 4
  }

  function ByteLength(s: string): (n: nat)
    ensures |s| <= n
  {
    if s == "" then 0 else CharBytes(s[0]) + ByteLength(s[1..])
  }

  lemma {:induction false} ByteLengthConcat(a: string, b: string)
    ensures ByteLength(a + b) == ByteLength(a) + ByteLength(b)
  {
    if a == "" {
      assert a + b == b;
    } else {
      assert (a + b)[1..] == a[1..] + b;
      ByteLengthConcat(a[1..], b);
    }
  }

  lemma {:induction false} ByteLengthAscii(s: string)
    requires forall i :: 0 <= i < |s| ==> s[i] < '\U{80}'
    ensures ByteLength(s) == |s|
  {
    if s != "" { ByteLengthAscii(s[1..]); }
  }

  lemma {:induction false} ByteLengthBound(s: string)
    ensures ByteLength(s) <= 4 * |s|
  {
    if s != "" { ByteLengthBound(s[1..]); }
  }

  predicate IsLongestPrefix(s: string, budget: nat, kept: string) {
    && kept <= s && ByteLength(kept) <= budget
    && (kept != s ==> budget < ByteLength(kept) + CharBytes(s[|kept|]))
  }

  /** The text itself if it fits; otherwise as much of it as fits in front of the whole marker, or, if
      the marker does not fit, as much of it as fits. */
  ghost predicate IsTruncated(s: string, budget: nat, marker: string, r: string) {
    if ByteLength(s) <= budget then r == s
    else if budget < ByteLength(marker) then IsLongestPrefix(s, budget, r)
    else exists kept :: r == kept + marker && IsLongestPrefix(s, budget - ByteLength(marker), kept)
  }

  /** The longest leading substring of at most `budget` bytes. */
  function Prefix(s: string, budget: nat): (r: string)
    ensures IsLongestPrefix(s, budget, r)
  {
    if s == "" || budget < CharBytes(s[0]) then "" else
      [s[0]] + Prefix(s[1..], budget - CharBytes(s[0]))
  }

  /** Truncates to `budget` bytes and ends in the marker when it fits. */
  function Truncate(s: string, budget: nat, marker: string): (r: string)
    ensures ByteLength(r) <= budget
    ensures IsTruncated(s, budget, marker, r)
  {
    if ByteLength(s) <= budget then s
    else if budget == 0 then
      assert marker == "" ==> "" == "" + marker && IsLongestPrefix(s, 0, "");
      ""
    else if budget < ByteLength(marker) then Prefix(s, budget)
    else
      ByteLengthConcat(Prefix(s, budget - ByteLength(marker)), marker);
      assert IsLongestPrefix(s, budget - ByteLength(marker), Prefix(s, budget - ByteLength(marker)));
      Prefix(s, budget - ByteLength(marker)) + marker
  }
}
