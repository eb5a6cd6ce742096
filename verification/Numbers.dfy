/** Numbers, and numbers in text. */
module Numbers {
  import opened Wrappers

  /** `Number.MAX_SAFE_INTEGER` */
  const MAX_SAFE_INTEGER: nat := 0x1f_ffff_ffff_ffff

  function Min(a: int, b: int): (r: int)
    ensures r <= a && r <= b && (r == a || r == b)
  {
    if a < b then a else b
  }

  function Max(a: int, b: int): (r: int)
    ensures a <= r && b <= r && (r == a || r == b)
  {
    if a < b then b else a
  }

  function Digit(n: nat): char
    requires n < 10
  {
    "0123456789"[n]
  }

  function HexDigit(n: nat, upper: bool): char
    requires n < 16
  {
    if upper then "0123456789ABCDEF"[n] else "0123456789abcdef"[n]
  }

  function HexValue(c: char): Option<nat> {
    if '0' <= c <= '9' then Some(c as int - '0' as int)
    else if 'A' <= c <= 'F' then Some(c as int - 'A' as int + 10)
    else if 'a' <= c <= 'f' then Some(c as int - 'a' as int + 10)
    else None
  }

  /** A number in a template string. */
  function Decimal(n: nat): (s: string)
    ensures |s| >= 1
    ensures forall i :: 0 <= i < |s| ==> s[i] < '\U{80}'
  {
    if n < 10 then [Digit(n)] else Decimal(n / 10) + [Digit(n % 10)]
  }

  /** Counting down by one loses at most one digit and never gains one. */
  lemma {:induction false} DecimalWidth(n: nat)
    ensures |Decimal(n)| <= |Decimal(n + 1)| <= |Decimal(n)| + 1
  {
    if n >= 10 {
      DecimalWidth(n / 10);
      assert (n + 1) / 10 == n / 10 || (n + 1) / 10 == n / 10 + 1;
    }
  }

  predicate Digits(s: string) {
    forall i :: 0 <= i < |s| ==> '0' <= s[i] <= '9'
  }

  function Number(s: string): nat
    requires Digits(s)
  {
    if s == "" then 0 else 10 * Number(s[..|s| - 1]) + (s[|s| - 1] as int - '0' as int)
  }

  /** The digits of a number, without leading zeros. */
  predicate Spells(s: string, n: nat) {
    s != "" && Digits(s) && Number(s) == n && (s[0] == '0' ==> s == "0")
  }

  lemma OneDigitMore(s: string, c: char)
    requires Digits(s) && '0' <= c <= '9'
    ensures Digits(s + [c]) && Number(s + [c]) == 10 * Number(s) + (c as int - '0' as int)
  {
    assert (s + [c])[..|s|] == s;
  }

  lemma DigitReads(n: nat)
    requires n < 10
    ensures '0' <= Digit(n) <= '9' && Digit(n) as int - '0' as int == n
  {
  }

  lemma {:induction false} DecimalReads(n: nat)
    ensures Spells(Decimal(n), n)
    ensures n > 0 ==> Decimal(n)[0] != '0'
  {
    hide Digit;
    var rest, last := if n < 10 then "" else Decimal(n / 10), Digit(n % 10);
    assert Decimal(n) == rest + [last];
    DigitReads(n % 10);
    if n >= 10 {
      DecimalReads(n / 10);
    }
    OneDigitMore(rest, last);
  }

  /** Different numbers are written differently. */
  lemma DecimalInjective(m: nat, n: nat)
    ensures Decimal(m) == Decimal(n) ==> m == n
  {
    DecimalReads(m);
    DecimalReads(n);
  }

  function Power10(k: nat): nat {
    if k == 0 then 1 else 10 * Power10(k - 1)
  }

  /** A number below the k-th power of ten has at most k digits. */
  lemma {:induction false} DecimalLength(n: nat, k: nat)
    requires k >= 1 && n < Power10(k)
    ensures |Decimal(n)| <= k
  {
    if n >= 10 {
      assert k >= 2 && n / 10 < Power10(k - 1);
      DecimalLength(n / 10, k - 1);
    }
  }

  /** A safe integer, even with some hundreds added, has at most sixteen digits. */
  lemma SafeIntegerLength(n: nat)
    requires n <= MAX_SAFE_INTEGER + 1024
    ensures |Decimal(n)| <= 16
  {
    assert Power10(4) == 1_0000;
    assert Power10(8) == 1_0000 * 1_0000;
    assert Power10(12) == 1_0000 * 1_0000 * 1_0000;
    assert Power10(16) == 1_0000 * 1_0000 * 1_0000 * 1_0000;
    DecimalLength(n, 16);
  }
}
