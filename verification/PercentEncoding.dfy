/** Percent encoding of one path component as UTF-8 bytes, and its decoding (section 2.1 of RFC 3986;
    section 19.2.6 of ECMA-262), over Unicode scalar values. */
module PercentEncoding {
  import opened Numbers
  import opened Utf8
  import opened Wrappers

  type Byte = n: nat | n < 256

  /** The bytes are the UTF-8 form of the character (section 3 of RFC 3629): the shortest that holds it. */
  predicate IsUtf8(c: char, bytes: seq<Byte>) {
    var n := c as int;
    || (|bytes| == 1 && n == bytes[0] < 0x80)
    || (|bytes| == 2 && 0xC0 <= bytes[0] < 0xE0 && Continues(bytes[1]) && 0x80 <= n
        && n == (bytes[0] as int - 0xC0) * 0x40 + (bytes[1] as int - 0x80))
    || (|bytes| == 3 && 0xE0 <= bytes[0] < 0xF0 && Continues(bytes[1]) && Continues(bytes[2]) && 0x800 <= n
        && n == (bytes[0] as int - 0xE0) * 0x1000 + (bytes[1] as int - 0x80) * 0x40 + (bytes[2] as int - 0x80))
    || (|bytes| == 4 && 0xF0 <= bytes[0] < 0xF8 && Continues(bytes[1]) && Continues(bytes[2]) && Continues(bytes[3])
        && 0x1_0000 <= n
        && n == (bytes[0] as int - 0xF0) * 0x4_0000 + (bytes[1] as int - 0x80) * 0x1000
                + (bytes[2] as int - 0x80) * 0x40 + (bytes[3] as int - 0x80))
  }

  predicate Continues(b: Byte) {
    0x80 <= b < 0xC0
  }

  function Utf8Bytes(c: char): (bytes: seq<Byte>)
    ensures |bytes| == CharBytes(c)
  {
    var n := c as int;
    if n < 0x80 then [n]
    else if n < 0x800 then [0xC0 + n / 64, 0x80 + n % 64]
    else if n < 0x1_0000 then [0xE0 + n / 4096, 0x80 + n / 64 % 64, 0x80 + n % 64]
    else [0xF0 + n / 26_2144, 0x80 + n / 4096 % 64, 0x80 + n / 64 % 64, 0x80 + n % 64]
  }

  function Escape(bytes: seq<Byte>): (s: string)
    ensures |s| == 3 * |bytes|
  {
    if bytes == [] then ""
    else ['%', HexDigit(bytes[0] / 16, true), HexDigit(bytes[0] % 16, true)] + Escape(bytes[1..])
  }

  /** The characters a component keeps as they are. */
  predicate Unreserved(c: char) {
    || 'A' <= c <= 'Z' || 'a' <= c <= 'z' || '0' <= c <= '9'
    || c == '-' || c == '_' || c == '.' || c == '!' || c == '~' || c == '*' || c == '\'' || c == '(' || c == ')'
  }

  function EncodeChar(c: char): string {
    if Unreserved(c) then [c] else Escape(Utf8Bytes(c))
  }

  /** `encodeURIComponent` */
  function Encode(s: string): string {
    if s == "" then "" else EncodeChar(s[0]) + Encode(s[1..])
  }

  datatype DecodeError = Malformed

  /** The byte written at the start of a text, when one is. */
  function EscapedByte(s: string): Option<Byte> {
    if |s| >= 3 && s[0] == '%' && HexValue(s[1]).Some? && HexValue(s[2]).Some?
    then
      assert HexValue(s[1]).value < 16 && HexValue(s[2]).value < 16;
      Some(16 * HexValue(s[1]).value + HexValue(s[2]).value)
    else None
  }

  /** How many bytes a lead byte announces. */
  function Announced(b: Byte): Option<nat> {
    if b < 0x80 then Some(1)
    else if b < 0xC0 then None
    else if b < 0xE0 then Some(2)
    else if b < 0xF0 then Some(3)
    else if b < 0xF8 then Some(4)
    else None
  }

  /** The six bits of the continuation byte at the start of a text. */
  function Continuation(s: string): Option<nat> {
    var b := EscapedByte(s);
    if b.Some? && 0x80 <= b.value < 0xC0 then Some(b.value - 0x80) else None
  }

  function Scalar(n: nat, least: nat): Option<char> {
    if least <= n < 0xD800 || (least <= n && 0xE000 <= n < 0x11_0000) then Some(n as char) else None
  }

  datatype Taken = Taken(c: char, length: nat)

  function Take(scalar: Option<char>, bytes: nat): Option<Taken> {
    if scalar.Some? then Some(Taken(scalar.value, 3 * bytes)) else None
  }

  /** Reads one escaped character: no overlong form, no surrogate, nothing past the last code point. */
  function TakeEscaped(s: string): (r: Option<Taken>)
    ensures r.Some? ==> 0 < r.value.length <= |s|
  {
    var lead := EscapedByte(s);
    if lead.None? then None
    else
      var count := Announced(lead.value);
      if count.None? || |s| < 3 * count.value then None
      else if count.value == 1 then Take(Scalar(lead.value, 0), 1)
      else
        var second := Continuation(s[3..]);
        if second.None? then None
        else if count.value == 2 then Take(Scalar((lead.value - 0xC0) * 64 + second.value, 0x80), 2)
        else
          var third := Continuation(s[6..]);
          if third.None? then None
          else if count.value == 3 then
            Take(Scalar((lead.value - 0xE0) * 4096 + second.value * 64 + third.value, 0x800), 3)
          else
            var fourth := Continuation(s[9..]);
            if fourth.None? then None
            else
              var scalar := (lead.value - 0xF0) * 26_2144 + second.value * 4096 + third.value * 64 + fourth.value;
              Take(Scalar(scalar, 0x1_0000), 4)
  }

  function Prepend(c: char, rest: Result<string, DecodeError>): Result<string, DecodeError> {
    if rest.Ok? then Ok([c] + rest.value) else rest
  }

  /** `decodeURIComponent` */
  function Decode(s: string): Result<string, DecodeError> {
    if s == "" then Ok("")
    else if s[0] != '%' then Prepend(s[0], Decode(s[1..]))
    else
      var taken := TakeEscaped(s);
      if taken.None? then Err(Malformed) else Prepend(taken.value.c, Decode(s[taken.value.length..]))
  }

  lemma EscapedByteReads(b: Byte, bytes: seq<Byte>, rest: string)
    ensures EscapedByte(Escape([b] + bytes) + rest) == Some(b)
    ensures (Escape([b] + bytes) + rest)[3..] == Escape(bytes) + rest
  {
    assert ([b] + bytes)[1..] == bytes;
    HexReads(b / 16);
    HexReads(b % 16);
  }

  lemma HexReads(n: nat)
    requires n < 16
    ensures HexValue(HexDigit(n, true)) == Some(n) && HexDigit(n, true) != '%'
  {
  }

  /** The bits of a code point, in the pieces its bytes carry. */
  lemma Bits(n: nat)
    ensures n == n / 64 * 64 + n % 64
    ensures n / 64 == n / 4096 * 64 + n / 64 % 64
    ensures n / 4096 == n / 26_2144 * 64 + n / 4096 % 64
  {
    assert n / 64 / 64 == n / 4096;
    assert n / 4096 / 64 == n / 26_2144;
  }

  lemma EscapedTwice(a: Byte, b: Byte, bytes: seq<Byte>, rest: string)
    ensures
      var s := Escape([a, b] + bytes) + rest;
      EscapedByte(s) == Some(a) && EscapedByte(s[3..]) == Some(b) && s[6..] == Escape(bytes) + rest
  {
    var s := Escape([a, b] + bytes) + rest;
    assert [a, b] + bytes == [a] + ([b] + bytes);
    EscapedByteReads(a, [b] + bytes, rest);
    EscapedByteReads(b, bytes, rest);
    assert s[6..] == s[3..][3..];
  }

  lemma EscapedIsTaken(c: char, rest: string)
    ensures TakeEscaped(Escape(Utf8Bytes(c)) + rest) == Some(Taken(c, 3 * |Utf8Bytes(c)|))
  {
    hide Escape, EscapedByte;
    var n, bytes := c as int, Utf8Bytes(c);
    var s := Escape(bytes) + rest;
    Bits(n);
    if n < 0x80 {
      assert bytes == [n] + [];
      EscapedByteReads(n, [], rest);
    } else if n < 0x800 {
      assert bytes == [bytes[0], bytes[1]] + [];
      EscapedTwice(bytes[0], bytes[1], [], rest);
    } else if n < 0x1_0000 {
      assert bytes == [bytes[0], bytes[1]] + [bytes[2]];
      EscapedTwice(bytes[0], bytes[1], [bytes[2]], rest);
      assert [bytes[2]] == [bytes[2]] + [];
      EscapedByteReads(bytes[2], [], rest);
    } else {
      assert bytes == [bytes[0], bytes[1]] + [bytes[2], bytes[3]];
      EscapedTwice(bytes[0], bytes[1], [bytes[2], bytes[3]], rest);
      assert [bytes[2], bytes[3]] == [bytes[2], bytes[3]] + [];
      EscapedTwice(bytes[2], bytes[3], [], rest);
      assert s[9..] == s[6..][3..];
    }
  }

  lemma DecodeUndoesEncodeChar(c: char, rest: string)
    ensures Decode(EncodeChar(c) + rest) == Prepend(c, Decode(rest))
  {
    hide TakeEscaped, Utf8Bytes;
    var s := EncodeChar(c) + rest;
    if Unreserved(c) {
      assert s[1..] == rest;
    } else {
      EscapedIsTaken(c, rest);
      assert s[0] == '%';
      assert s[|EncodeChar(c)|..] == rest;
    }
  }

  function Ahead(s: string, rest: Result<string, DecodeError>): Result<string, DecodeError> {
    if rest.Ok? then Ok(s + rest.value) else rest
  }

  lemma PrependAhead(s: string, rest: Result<string, DecodeError>)
    requires s != ""
    ensures Prepend(s[0], Ahead(s[1..], rest)) == Ahead(s, rest)
  {
    assert s == [s[0]] + s[1..];
    assert rest.Ok? ==> [s[0]] + (s[1..] + rest.value) == s + rest.value;
  }

  /** Decoding undoes encoding, whatever text comes after. */
  lemma {:induction false} DecodeUndoesEncode(s: string, rest: string)
    ensures Decode(Encode(s) + rest) == Ahead(s, Decode(rest))
  {
    if s == "" {
      assert Encode(s) + rest == rest;
      assert Decode(rest).Ok? ==> s + Decode(rest).value == Decode(rest).value;
    } else {
      hide Decode, EncodeChar, Ahead, Prepend;
      DecodeUndoesEncode(s[1..], rest);
      DecodeUndoesEncodeChar(s[0], Encode(s[1..]) + rest);
      PrependAhead(s, Decode(rest));
      assert Encode(s) + rest == EncodeChar(s[0]) + (Encode(s[1..]) + rest);
    }
  }

  lemma RoundTrip(s: string)
    ensures Decode(Encode(s)) == Ok(s)
  {
    DecodeUndoesEncode(s, "");
    assert Encode(s) + "" == Encode(s) && s + "" == s;
  }

  predicate Plain(c: char) {
    Unreserved(c) || c == '%'
  }

  predicate AllPlain(s: string) {
    forall i :: 0 <= i < |s| ==> Plain(s[i])
  }

  lemma {:induction false} EscapeIsPlain(bytes: seq<Byte>)
    ensures AllPlain(Escape(bytes))
  {
    if bytes != [] {
      EscapeIsPlain(bytes[1..]);
    }
  }

  lemma EncodeCharIsPlain(c: char)
    ensures AllPlain(EncodeChar(c)) && EncodeChar(c) != ""
  {
    EscapeIsPlain(Utf8Bytes(c));
  }

  /** An encoded component has no separator and no line end in it, and is empty only for the empty
      text. */
  lemma {:induction false} EncodeIsPlain(s: string)
    ensures AllPlain(Encode(s))
    ensures Encode(s) == "" <==> s == ""
  {
    hide Plain, EncodeChar;
    if s != "" {
      EncodeIsPlain(s[1..]);
      EncodeCharIsPlain(s[0]);
    }
  }

  /* What encoding writes, and what decoding reads, in so many words */

  lemma {:induction false} EncodeConcat(a: string, b: string)
    ensures Encode(a + b) == Encode(a) + Encode(b)
  {
    if a == "" {
      assert a + b == b;
    } else {
      hide EncodeChar;
      assert (a + b)[1..] == a[1..] + b;
      EncodeConcat(a[1..], b);
    }
  }

  lemma Utf8Exactly(c: char)
    ensures IsUtf8(c, Utf8Bytes(c))
  {
    Bits(c as int);
  }

  /** Each byte is a percent sign and two upper-case hexadecimal digits. */
  ghost predicate WritesBytes(s: string, bytes: seq<Byte>) {
    && |s| == 3 * |bytes|
    && forall k :: 0 <= k < |bytes| ==>
         s[3 * k..3 * k + 3] == ['%', "0123456789ABCDEF"[bytes[k] / 16], "0123456789ABCDEF"[bytes[k] % 16]]
  }

  lemma {:induction false} EscapeExactly(bytes: seq<Byte>)
    ensures WritesBytes(Escape(bytes), bytes)
  {
    if bytes != [] {
      EscapeExactly(bytes[1..]);
      var s, rest := Escape(bytes), Escape(bytes[1..]);
      assert s[3..] == rest;
      forall k | 0 <= k < |bytes|
        ensures s[3 * k..3 * k + 3] == ['%', "0123456789ABCDEF"[bytes[k] / 16], "0123456789ABCDEF"[bytes[k] % 16]]
      {
        if k > 0 {
          assert s[3 * k..3 * k + 3] == rest[3 * (k - 1)..3 * (k - 1) + 3];
        }
      }
    }
  }

  /** A character is kept as it is, or written as its UTF-8 bytes, each escaped. */
  lemma EncodeExactly(c: char)
    ensures
      if 'A' <= c <= 'Z' || 'a' <= c <= 'z' || '0' <= c <= '9' || c in {'-', '_', '.', '!', '~', '*', '\'', '(', ')'}
      then Encode([c]) == [c]
      else exists bytes: seq<Byte> :: IsUtf8(c, bytes) && WritesBytes(Encode([c]), bytes)
  {
    assert [c][1..] == "" && Encode([c]) == EncodeChar(c) + "" == EncodeChar(c);
    Utf8Exactly(c);
    EscapeExactly(Utf8Bytes(c));
  }

  /** A hexadecimal digit of either case. */
  predicate IsHex(c: char, v: nat) {
    v < 16 && (c == "0123456789ABCDEF"[v] || c == "0123456789abcdef"[v])
  }

  lemma HexExactly(c: char, v: nat)
    ensures HexValue(c) == Some(v) <==> IsHex(c, v)
  {
  }

  predicate IsEscaped(s: string, b: Byte) {
    |s| >= 3 && s[0] == '%' && IsHex(s[1], b / 16) && IsHex(s[2], b % 16)
  }

  lemma EscapedExactly(s: string, b: Byte)
    ensures EscapedByte(s) == Some(b) <==> IsEscaped(s, b)
  {
    hide HexValue, IsHex;
    if |s| >= 3 {
      HexExactly(s[1], b / 16);
      HexExactly(s[2], b % 16);
      HexBelow(s[1]);
      HexBelow(s[2]);
    }
  }

  lemma HexBelow(c: char)
    ensures HexValue(c).Some? ==> HexValue(c).value < 16
  {
  }

  /** The text starts with these bytes, each escaped. */
  predicate StartsWith(s: string, bytes: seq<Byte>) {
    3 * |bytes| <= |s| && forall k :: 0 <= k < |bytes| ==> IsEscaped(s[3 * k..], bytes[k])
  }

  predicate IsTaken(s: string, taken: Taken, bytes: seq<Byte>) {
    IsUtf8(taken.c, bytes) && taken.length == 3 * |bytes| && StartsWith(s, bytes)
  }

  lemma TakenHasBytes(s: string) returns (bytes: seq<Byte>)
    requires TakeEscaped(s).Some?
    ensures IsTaken(s, TakeEscaped(s).value, bytes)
  {
    hide EscapedByte, IsEscaped;
    var lead := EscapedByte(s).value;
    EscapedExactly(s, lead);
    assert s[0..] == s;
    var count := Announced(lead).value;
    bytes := [lead];
    if count > 1 {
      EscapedExactly(s[3..], EscapedByte(s[3..]).value);
      bytes := bytes + [EscapedByte(s[3..]).value];
    }
    if count > 2 {
      EscapedExactly(s[6..], EscapedByte(s[6..]).value);
      bytes := bytes + [EscapedByte(s[6..]).value];
    }
    if count > 3 {
      EscapedExactly(s[9..], EscapedByte(s[9..]).value);
      bytes := bytes + [EscapedByte(s[9..]).value];
    }
  }

  lemma BytesAreTaken(s: string, taken: Taken, bytes: seq<Byte>)
    requires IsTaken(s, taken, bytes)
    ensures TakeEscaped(s) == Some(taken)
  {
    hide EscapedByte, IsEscaped;
    assert s[3 * 0..] == s;
    EscapedExactly(s, bytes[0]);
    if |bytes| > 1 {
      assert s[3 * 1..] == s[3..];
      EscapedExactly(s[3..], bytes[1]);
    }
    if |bytes| > 2 {
      assert s[3 * 2..] == s[6..];
      EscapedExactly(s[6..], bytes[2]);
    }
    if |bytes| > 3 {
      assert s[3 * 3..] == s[9..];
      EscapedExactly(s[9..], bytes[3]);
    }
  }

  /** Character by character: anything but a percent sign stands for itself, and a percent sign starts
      the escaped UTF-8 bytes of one character, in hexadecimal digits of either case. */
  ghost predicate DecodesTo(s: string, t: string)
    decreases |s|
  {
    if s == "" then t == ""
    else
      && t != ""
      && if s[0] != '%' then t[0] == s[0] && DecodesTo(s[1..], t[1..])
         else exists bytes: seq<Byte> ::
           && IsUtf8(t[0], bytes) && StartsWith(s, bytes) && bytes != []
           && DecodesTo(s[3 * |bytes|..], t[1..])
  }

  lemma {:induction false} DecodeExactly(s: string, t: string)
    ensures Decode(s) == Ok(t) <==> DecodesTo(s, t)
    decreases |s|
  {
    hide IsUtf8, StartsWith, TakeEscaped;
    if s == "" {
    } else if s[0] != '%' {
      if t != "" {
        DecodeExactly(s[1..], t[1..]);
        assert t == [t[0]] + t[1..];
      }
    } else if t != "" {
      assert t == [t[0]] + t[1..];
      var taken := TakeEscaped(s);
      if taken.Some? {
        var bytes := TakenHasBytes(s);
        BytesNotEmpty(taken.value.c, bytes);
        DecodeExactly(s[taken.value.length..], t[1..]);
      }
      forall bytes: seq<Byte> | IsUtf8(t[0], bytes) && StartsWith(s, bytes) && bytes != []
        ensures taken == Some(Taken(t[0], 3 * |bytes|))
      {
        BytesAreTaken(s, Taken(t[0], 3 * |bytes|), bytes);
      }
    }
  }

  lemma BytesNotEmpty(c: char, bytes: seq<Byte>)
    ensures IsUtf8(c, bytes) ==> bytes != []
  {
  }

  /** The UTF-8 bytes of a whole text. */
  function Utf8Of(s: string): seq<Byte> {
    if s == "" then [] else Utf8Bytes(s[0]) + Utf8Of(s[1..])
  }

  /** Lengths are counted in UTF-8 bytes. */
  lemma {:induction false} ByteLengthExactly(s: string)
    ensures ByteLength(s) == |Utf8Of(s)|
  {
    if s != "" {
      ByteLengthExactly(s[1..]);
    }
  }
}
