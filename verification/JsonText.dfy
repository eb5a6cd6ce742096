/** A reader of JSON text as section 9 of ECMA-404 defines it, without insignificant whitespace. */
module JsonText {
  import opened Numbers
  import opened Wrappers

  /** A number is kept as its text. */
  datatype Json =
    | Null | Bool(b: bool) | Number(text: string) | Str(s: string)
    | Items(items: seq<Json>) | Fields(fields: seq<Field>)

  datatype Field = Field(key: string, value: Json)

  datatype Read<+T> = Read(value: T, rest: string)

  predicate InNumber(c: char) {
    '0' <= c <= '9' || c == '-' || c == '+' || c == '.' || c == 'e' || c == 'E'
  }

  /** How many characters of a number a text starts with. */
  function NumberLength(t: string): (n: nat)
    ensures n <= |t|
  {
    if t == "" || !InNumber(t[0]) then 0 else 1 + NumberLength(t[1..])
  }

  /** The character a backslash and what follows it stand for, and what comes after them. */
  function ReadEscape(t: string): (r: Option<Read<char>>)
    ensures r.Some? ==> |r.value.rest| < |t|
  {
    if t == "" then None
    else if t[0] == 'b' then Some(Read('\U{8}', t[1..]))
    else if t[0] == 'f' then Some(Read('\U{c}', t[1..]))
    else if t[0] == 'n' then Some(Read('\n', t[1..]))
    else if t[0] == 'r' then Some(Read('\r', t[1..]))
    else if t[0] == 't' then Some(Read('\t', t[1..]))
    else if t[0] == '"' || t[0] == '\\' || t[0] == '/' then Some(Read(t[0], t[1..]))
    else if |t| < 5 || t[0] != 'u' then None
    else
      var a, b, c, d := HexValue(t[1]), HexValue(t[2]), HexValue(t[3]), HexValue(t[4]);
      if a.None? || b.None? || c.None? || d.None? then None
      else
        var n := 0x1000 * a.value + 0x100 * b.value + 0x10 * c.value + d.value;
        if n < 0xD800 || 0xE000 <= n < 0x1_0000 then Some(Read(n as char, t[5..])) else None
  }

  /** A string up to its closing quote, behind the opening one. */
  function ReadString(t: string): (r: Option<Read<string>>)
    ensures r.Some? ==> |r.value.rest| < |t|
    decreases |t|
  {
    if t == "" then None
    else if t[0] == '"' then Some(Read("", t[1..]))
    else if t[0] < ' ' then None
    else
      var first := if t[0] == '\\' then ReadEscape(t[1..]) else Some(Read(t[0], t[1..]));
      if first.None? then None
      else
        var more := ReadString(first.value.rest);
        if more.None? then None else Some(Read([first.value.value] + more.value.value, more.value.rest))
  }

  function ReadValue(t: string): (r: Option<Read<Json>>)
    ensures r.Some? ==> |r.value.rest| < |t|
    decreases |t|, 0
  {
    if "null" <= t then Some(Read(Null, t[4..]))
    else if "true" <= t then Some(Read(Bool(true), t[4..]))
    else if "false" <= t then Some(Read(Bool(false), t[5..]))
    else if "[]" <= t then Some(Read(Items([]), t[2..]))
    else if "{}" <= t then Some(Read(Fields([]), t[2..]))
    else if t == "" then None
    else if t[0] == '"' then
      var s := ReadString(t[1..]);
      if s.None? then None else Some(Read(Str(s.value.value), s.value.rest))
    else if t[0] == '[' then
      var items := ReadItems(t[1..]);
      if items.None? then None else Some(Read(Items(items.value.value), items.value.rest))
    else if t[0] == '{' then
      var fields := ReadFields(t[1..]);
      if fields.None? then None else Some(Read(Fields(fields.value.value), fields.value.rest))
    else
      var n := NumberLength(t);
      if n == 0 then None else Some(Read(Number(t[..n]), t[n..]))
  }

  /** At least one value, and a closing bracket. */
  function ReadItems(t: string): (r: Option<Read<seq<Json>>>)
    ensures r.Some? ==> |r.value.rest| < |t|
    decreases |t|, 1
  {
    var first := ReadValue(t);
    if first.None? || first.value.rest == "" then None
    else
      var rest := first.value.rest;
      if rest[0] == ']' then Some(Read([first.value.value], rest[1..]))
      else if rest[0] != ',' then None
      else
        var more := ReadItems(rest[1..]);
        if more.None? then None else Some(Read([first.value.value] + more.value.value, more.value.rest))
  }

  /** At least one key with its value, and a closing brace. */
  function ReadFields(t: string): (r: Option<Read<seq<Field>>>)
    ensures r.Some? ==> |r.value.rest| < |t|
    decreases |t|, 1
  {
    var first := ReadField(t);
    if first.None? || first.value.rest == "" then None
    else
      var rest := first.value.rest;
      if rest[0] == '}' then Some(Read([first.value.value], rest[1..]))
      else if rest[0] != ',' then None
      else
        var more := ReadFields(rest[1..]);
        if more.None? then None else Some(Read([first.value.value] + more.value.value, more.value.rest))
  }

  function ReadField(t: string): (r: Option<Read<Field>>)
    ensures r.Some? ==> |r.value.rest| < |t|
    decreases |t|, 0
  {
    if t == "" || t[0] != '"' then None
    else
      var key := ReadString(t[1..]);
      if key.None? || key.value.rest == "" || key.value.rest[0] != ':' then None
      else
        var value := ReadValue(key.value.rest[1..]);
        if value.None? then None else Some(Read(Field(key.value.value, value.value.value), value.value.rest))
  }
}
