/** Serializing provider content that may be cyclic, by `JSON.stringify` with a replacer that keeps
    the ancestors of the current value on a mutable stack.

    The walk is the one of section 25.5.2 of ECMA-262: SerializeJSONProperty calls the replacer with
    the holder as `this`, and throws on a BigInt or on an object already on its own stack. */
module ProviderJson {
  import opened Numbers
  import opened Sequences
  import opened Wrappers
  import JsonText

  const CIRCULAR := "[Circular]"
  const UNSERIALIZABLE := "[Unserializable]"

  /** The JSON text of a number; one that is not finite is written `null`. */
  type NumberText = text: string | text == "null" || IsNumeral(text) witness "0"

  predicate IsNumeral(text: string) {
    && text != "" && ('0' <= text[0] <= '9' || text[0] == '-')
    && forall i :: 0 <= i < |text| ==> JsonText.InNumber(text[i])
  }

  /** Objects are identities into a heap. */
  datatype Value =
    | Undefined | Null | Bool(b: bool) | Number(text: NumberText) | Str(s: string)
    | BigInt(n: int) | Function | Symbol | Obj(id: nat)

  /** One property in enumeration order; an array's keys are its indices. */
  datatype Member = Member(key: string, value: Value)

  datatype Node = Node(isArray: bool, members: seq<Member>)

  type Heap = map<nat, Node>

  /** No property refers to an object outside the heap. */
  ghost predicate Closed(heap: Heap) {
    forall id, i :: id in heap && 0 <= i < |heap[id].members| ==> InHeap(heap, heap[id].members[i].value)
  }

  predicate InHeap(heap: Heap, value: Value) {
    value.Obj? ==> value.id in heap
  }

  datatype Outcome = Text(text: string) | Omitted | Throws

  /** QuoteJSONString, section 25.5.2.3 of ECMA-262. */
  function Escaped(c: char): string {
    if c == '\U{8}' then "\\b" else if c == '\t' then "\\t" else if c == '\n' then "\\n"
    else if c == '\U{c}' then "\\f" else if c == '\r' then "\\r" else if c == '"' then "\\\""
    else if c == '\\' then "\\\\"
    else if c < ' ' then "\\u00" + [HexDigit(c as int / 16, false), HexDigit(c as int % 16, false)]
    else [c]
  }

  function EscapedAll(s: string): string {
    if s == "" then "" else Escaped(s[0]) + EscapedAll(s[1..])
  }

  function Quoted(s: string): string {
    "\"" + EscapedAll(s) + "\""
  }

  predicate IsBigInt(n: int, digits: string, text: string) {
    Spells(digits, if n < 0 then -n else n) && text == (if n < 0 then "-" else "") + digits + "n"
  }

  function BigIntText(n: int): (r: string)
    ensures exists digits :: IsBigInt(n, digits, r)
  {
    DecimalReads(if n < 0 then -n else n);
    var digits := Decimal(if n < 0 then -n else n);
    assert "" + digits == digits;
    assert IsBigInt(n, digits, (if n < 0 then "-" else "") + digits + "n");
    (if n < 0 then "-" + Decimal(-n) else Decimal(n)) + "n"
  }

  function Bracketed(node: Node, parts: seq<string>): string {
    if node.isArray then "[" + CommaJoined(parts) + "]" else "{" + CommaJoined(parts) + "}"
  }

  /** What a property adds to its holder's text: an omitted array element is `null`. */
  function Part(isArray: bool, key: string, outcome: Outcome): seq<string>
    requires !outcome.Throws?
  {
    if outcome.Omitted? then (if isArray then ["null"] else [])
    else if isArray then [outcome.text] else [Quoted(key) + ":" + outcome.text]
  }

  function Primitive(value: Value): Outcome
    requires !value.Obj?
  {
    match value
    case Null => Text("null")
    case Bool(b) => Text(if b then "true" else "false")
    case Number(text) => Text(text)
    case Str(s) => Text(Quoted(s))
    case BigInt(_) => Throws
    case _ => Omitted
  }

  function Elements(path: seq<nat>): set<nat> {
    set id | id in path
  }

  /** How many objects can still be entered below `path`. */
  function Unvisited(heap: Heap, path: seq<nat>): nat {
    |heap.Keys - Elements(path)|
  }

  lemma EnteringVisits(heap: Heap, path: seq<nat>, id: nat)
    requires id in heap && id !in path
    ensures Unvisited(heap, path + [id]) < Unvisited(heap, path)
  {
    assert heap.Keys - Elements(path + [id]) == (heap.Keys - Elements(path)) - {id};
    assert id in heap.Keys - Elements(path);
  }

  /** The reference: serialization below a path of ancestors. Replacing substitutes a marker for
      an ancestor and a string for a BigInt; without it both throw, as plain `JSON.stringify` does. */
  function Serialized(heap: Heap, path: seq<nat>, value: Value, replacing: bool): Outcome
    decreases Unvisited(heap, path), 0
  {
    if value.BigInt? && replacing then Text(Quoted(BigIntText(value.n)))
    else if !value.Obj? then Primitive(value)
    else if value.id in path then (if replacing then Text(Quoted(CIRCULAR)) else Throws)
    else if value.id !in heap then Omitted
    else
      EnteringVisits(heap, path, value.id);
      var node := heap[value.id];
      var (parts, threw) := Parts(heap, path + [value.id], node.isArray, node.members, replacing);
      if threw then Throws else Text(Bracketed(node, parts))
  }

  function Parts(heap: Heap, path: seq<nat>, isArray: bool, members: seq<Member>, replacing: bool): (seq<string>, bool)
    decreases Unvisited(heap, path), 1 + |members|
  {
    if members == [] then ([], false) else
      var first := Serialized(heap, path, members[0].value, replacing);
      if first.Throws? then ([], true) else
        var (rest, threw) := Parts(heap, path, isArray, members[1..], replacing);
        (Part(isArray, members[0].key, first) + rest, threw)
  }

  lemma {:induction false} ReplacingNeverThrows(heap: Heap, path: seq<nat>, value: Value)
    ensures !Serialized(heap, path, value, true).Throws?
    decreases Unvisited(heap, path), 0
  {
    if value.Obj? && value.id !in path && value.id in heap {
      EnteringVisits(heap, path, value.id);
      var node := heap[value.id];
      ReplacingNeverThrowsIn(heap, path + [value.id], node.isArray, node.members);
    }
  }

  lemma {:induction false} ReplacingNeverThrowsIn(heap: Heap, path: seq<nat>, isArray: bool, members: seq<Member>)
    ensures !Parts(heap, path, isArray, members, true).1
    decreases Unvisited(heap, path), 1 + |members|
  {
    if members != [] {
      ReplacingNeverThrows(heap, path, members[0].value);
      ReplacingNeverThrowsIn(heap, path, isArray, members[1..]);
    }
  }

  /** Where plain `JSON.stringify` succeeds, replacing changes nothing. */
  lemma {:induction false} ReplacingIsTransparent(heap: Heap, path: seq<nat>, value: Value)
    requires !Serialized(heap, path, value, false).Throws?
    ensures Serialized(heap, path, value, true) == Serialized(heap, path, value, false)
    decreases Unvisited(heap, path), 0
  {
    if value.Obj? && value.id !in path && value.id in heap {
      EnteringVisits(heap, path, value.id);
      var node := heap[value.id];
      ReplacingIsTransparentIn(heap, path + [value.id], node.isArray, node.members);
    }
  }

  lemma {:induction false} ReplacingIsTransparentIn(heap: Heap, path: seq<nat>, isArray: bool, members: seq<Member>)
    requires !Parts(heap, path, isArray, members, false).1
    ensures Parts(heap, path, isArray, members, true) == Parts(heap, path, isArray, members, false)
    decreases Unvisited(heap, path), 1 + |members|
  {
    if members != [] {
      ReplacingIsTransparent(heap, path, members[0].value);
      ReplacingIsTransparentIn(heap, path, isArray, members[1..]);
    }
  }

  /** A way down from a value: each entry is a property of the object before it. */
  ghost predicate Descends(heap: Heap, chain: seq<Value>) {
    && chain != []
    && forall i :: 0 <= i < |chain| - 1 ==> IsChild(heap, chain[i], chain[i + 1])
  }

  ghost predicate IsChild(heap: Heap, parent: Value, child: Value) {
    && parent.Obj? && parent.id in heap
    && exists i :: 0 <= i < |heap[parent.id].members| && heap[parent.id].members[i].value == child
  }

  /** The way down ends in a BigInt, or in an object it passed before. */
  ghost predicate Offends(path: seq<nat>, chain: seq<Value>)
    requires chain != []
  {
    var last := chain[|chain| - 1];
    || last.BigInt?
    || (last.Obj? && (last.id in path || last in chain[..|chain| - 1]))
  }

  lemma {:induction false} OffenceFound(heap: Heap, path: seq<nat>, value: Value) returns (chain: seq<Value>)
    requires Serialized(heap, path, value, false).Throws?
    ensures Descends(heap, chain) && chain[0] == value && Offends(path, chain)
    decreases Unvisited(heap, path), 0
  {
    if value.Obj? && value.id !in path {
      EnteringVisits(heap, path, value.id);
      var node := heap[value.id];
      var below := OffenceFoundIn(heap, path + [value.id], node.isArray, node.members);
      assert IsChild(heap, value, below[0]);
      chain := [value] + below;
      assert chain[|chain| - 1] == below[|below| - 1];
      assert chain[..|chain| - 1] == [value] + below[..|below| - 1];
    } else {
      chain := [value];
    }
  }

  lemma {:induction false} OffenceFoundIn(heap: Heap, path: seq<nat>, isArray: bool, members: seq<Member>)
      returns (chain: seq<Value>)
    requires Parts(heap, path, isArray, members, false).1
    ensures Descends(heap, chain) && Offends(path, chain)
    ensures exists i :: 0 <= i < |members| && members[i].value == chain[0]
    decreases Unvisited(heap, path), 1 + |members|
  {
    if Serialized(heap, path, members[0].value, false).Throws? {
      chain := OffenceFound(heap, path, members[0].value);
    } else {
      chain := OffenceFoundIn(heap, path, isArray, members[1..]);
      var i :| 0 <= i < |members[1..]| && members[1..][i].value == chain[0];
      assert members[i + 1].value == chain[0];
    }
  }

  lemma {:induction false} OffenceThrows(heap: Heap, path: seq<nat>, chain: seq<Value>)
    requires Descends(heap, chain) && Offends(path, chain)
    ensures Serialized(heap, path, chain[0], false).Throws?
    decreases |chain|
  {
    var value := chain[0];
    if |chain| > 1 {
      assert IsChild(heap, value, chain[1]);
    }
    if |chain| > 1 && value.id !in path {
      var node := heap[value.id];
      var i :| 0 <= i < |node.members| && node.members[i].value == chain[1];
      var below := chain[1..];
      forall k | 0 <= k < |below| - 1
        ensures IsChild(heap, below[k], below[k + 1])
      {
        assert IsChild(heap, chain[k + 1], chain[k + 2]);
      }
      assert chain[..|chain| - 1] == [value] + below[..|below| - 1];
      OffenceThrows(heap, path + [value.id], below);
      ChildThrows(heap, path + [value.id], node.isArray, node.members, i);
    }
  }

  lemma {:induction false} ChildThrows(heap: Heap, path: seq<nat>, isArray: bool, members: seq<Member>, i: nat)
    requires i < |members| && Serialized(heap, path, members[i].value, false).Throws?
    ensures Parts(heap, path, isArray, members, false).1
  {
    if i > 0 {
      ChildThrows(heap, path, isArray, members[1..], i - 1);
    }
  }

  /** Plain `JSON.stringify` throws exactly when a BigInt or a cycle can be reached. */
  lemma PlainThrowsExactly(heap: Heap, value: Value)
    ensures Serialized(heap, [], value, false).Throws?
        <==> exists chain :: Descends(heap, chain) && chain[0] == value && Offends([], chain)
  {
    if Serialized(heap, [], value, false).Throws? {
      var chain := OffenceFound(heap, [], value);
    }
    forall chain | Descends(heap, chain) && chain[0] == value && Offends([], chain)
      ensures Serialized(heap, [], value, false).Throws?
    {
      OffenceThrows(heap, [], chain);
    }
  }

  /** The replacer with the array it closes over. */
  class Serializer {
    var ancestors: seq<nat>

    constructor ()
      ensures ancestors == []
    {
      ancestors := [];
    }

    /** The stack holds the path to the current holder, and above it what earlier siblings left. */
    predicate Below(path: seq<nat>)
      reads this
    {
      path <= ancestors && Distinct(ancestors)
    }

    /** The replacer; the holder is the last object of the path, or the wrapper around the root. */
    method Replace(ghost path: seq<nat>, holder: Value, value: Value) returns (replaced: Value)
      requires Below(path)
      requires holder == if path == [] then Undefined else Obj(path[|path| - 1])
      modifies this
      ensures Below(path)
      ensures value.BigInt? ==> replaced == Str(BigIntText(value.n))
      ensures !value.BigInt? && !value.Obj? ==> replaced == value
      ensures value.Obj? ==> replaced == if value.id in path then Str(CIRCULAR) else value
      ensures replaced.Obj? ==> ancestors == path + [replaced.id]
    {
      if value.BigInt? {
        return Str(BigIntText(value.n));
      }
      if !value.Obj? {
        return value;
      }
      while ancestors != [] && Obj(ancestors[|ancestors| - 1]) != holder
        invariant Below(path)
      {
        ancestors := ancestors[..|ancestors| - 1];
      }
      assert ancestors == path;
      if value.id in ancestors {
        return Str(CIRCULAR);
      }
      ancestors := ancestors + [value.id];
      replaced := value;
    }

    /** SerializeJSONProperty: the stack of `JSON.stringify` itself is the path. */
    method Property(heap: Heap, path: seq<nat>, holder: Value, value: Value) returns (outcome: Outcome)
      requires Closed(heap) && InHeap(heap, value) && Below(path)
      requires holder == if path == [] then Undefined else Obj(path[|path| - 1])
      modifies this
      ensures Below(path)
      ensures outcome == Serialized(heap, path, value, true)
      decreases Unvisited(heap, path), 0
    {
      var replaced := Replace(path, holder, value);
      if !replaced.Obj? {
        return Primitive(replaced);
      }
      if replaced.id in path {
        return Throws;
      }
      EnteringVisits(heap, path, replaced.id);
      var node := heap[replaced.id];
      var parts, threw := Members(heap, path + [replaced.id], replaced, node.isArray, node.members);
      outcome := if threw then Throws else Text(Bracketed(node, parts));
    }

    /** SerializeJSONObject and SerializeJSONArray. */
    method Members(heap: Heap, path: seq<nat>, holder: Value, isArray: bool, members: seq<Member>)
        returns (parts: seq<string>, threw: bool)
      requires Closed(heap) && Below(path) && path != [] && holder == Obj(path[|path| - 1])
      requires forall i :: 0 <= i < |members| ==> InHeap(heap, members[i].value)
      modifies this
      ensures Below(path)
      ensures (parts, threw) == Parts(heap, path, isArray, members, true)
      decreases Unvisited(heap, path), 1 + |members|
    {
      if members == [] {
        return [], false;
      }
      ReplacingNeverThrows(heap, path, members[0].value);
      var first := Property(heap, path, holder, members[0].value);
      var rest, restThrew := Members(heap, path, holder, isArray, members[1..]);
      parts, threw := Part(isArray, members[0].key, first) + rest, restThrew;
    }
  }

  /* What the text says */

  /** The data below a path of ancestors, as a tree; nothing for what JSON leaves out. */
  function Data(heap: Heap, path: seq<nat>, value: Value): Option<JsonText.Json>
    decreases Unvisited(heap, path), 0
  {
    match value
    case Null => Some(JsonText.Null)
    case Bool(b) => Some(JsonText.Bool(b))
    case Number(text) => Some(if text == "null" then JsonText.Null else JsonText.Number(text))
    case Str(s) => Some(JsonText.Str(s))
    case BigInt(n) => Some(JsonText.Str(BigIntText(n)))
    case Obj(id) =>
      if id in path then Some(JsonText.Str("[Circular]"))
      else if id !in heap then None
      else
        EnteringVisits(heap, path, id);
        Some(if heap[id].isArray then JsonText.Items(DataItems(heap, path + [id], heap[id].members))
             else JsonText.Fields(DataFields(heap, path + [id], heap[id].members)))
    case _ => None
  }

  /** Every element in order; one that is left out counts as null. */
  function DataItems(heap: Heap, path: seq<nat>, members: seq<Member>): (items: seq<JsonText.Json>)
    decreases Unvisited(heap, path), 1 + |members|
  {
    if members == [] then [] else
      var first := Data(heap, path, members[0].value);
      [if first.Some? then first.value else JsonText.Null] + DataItems(heap, path, members[1..])
  }

  /** The members in order, without those that are left out. */
  function DataFields(heap: Heap, path: seq<nat>, members: seq<Member>): (fields: seq<JsonText.Field>)
    decreases Unvisited(heap, path), 1 + |members|
  {
    if members == [] then [] else
      var first := Data(heap, path, members[0].value);
      (if first.Some? then [JsonText.Field(members[0].key, first.value)] else []) + DataFields(heap, path, members[1..])
  }

  /** What may follow a value: the end of the text, or what ends a number. */
  predicate Ends(rest: string) {
    rest == "" || !JsonText.InNumber(rest[0])
  }

  lemma HexReads(n: nat)
    requires n < 16
    ensures HexValue(HexDigit(n, false)) == Some(n)
  {
  }

  lemma EscapeReads(c: char, rest: string)
    ensures Escaped(c) != "" && Escaped(c)[0] != '"' && Escaped(c)[0] >= ' '
    ensures if Escaped(c)[0] == '\\' then JsonText.ReadEscape(Escaped(c)[1..] + rest) == Some(JsonText.Read(c, rest))
            else Escaped(c) == [c]
  {
    hide HexDigit, HexValue;
    if c < ' ' && Escaped(c)[1] == 'u' {
      var high, low := c as int / 16, c as int % 16;
      HexReads(0);
      HexReads(high);
      HexReads(low);
      ZeroDigit();
      var text := Escaped(c)[1..] + rest;
      assert text[..5] == "u00" + [HexDigit(high, false), HexDigit(low, false)] && text[5..] == rest;
    } else if Escaped(c)[0] == '\\' {
      assert Escaped(c)[1..] + rest == [Escaped(c)[1]] + rest;
    }
  }

  lemma ZeroDigit()
    ensures HexDigit(0, false) == '0'
  {
  }

  lemma CharReads(c: char, more: string)
    ensures JsonText.ReadString(Escaped(c) + more) ==
      var rest := JsonText.ReadString(more);
      if rest.None? then None else Some(JsonText.Read([c] + rest.value.value, rest.value.rest))
  {
    hide Escaped, JsonText.ReadEscape;
    EscapeReads(c, more);
    assert (Escaped(c) + more)[1..] == Escaped(c)[1..] + more;
  }

  lemma EscapedStep(s: string, rest: string)
    requires s != ""
    ensures EscapedAll(s) + rest == Escaped(s[0]) + (EscapedAll(s[1..]) + rest)
  {
  }

  lemma {:induction false} StringReads(s: string, rest: string)
    ensures JsonText.ReadString(EscapedAll(s) + ("\"" + rest)) == Some(JsonText.Read(s, rest))
  {
    if s == "" {
      assert EscapedAll(s) + ("\"" + rest) == "\"" + rest;
    } else {
      hide EscapedAll, Escaped, JsonText.ReadString;
      StringReads(s[1..], rest);
      CharReads(s[0], EscapedAll(s[1..]) + ("\"" + rest));
      EscapedStep(s, "\"" + rest);
      assert s == [s[0]] + s[1..];
    }
  }

  lemma QuotedReads(s: string, rest: string)
    ensures Quoted(s) + rest != "" && (Quoted(s) + rest)[0] == '"'
    ensures JsonText.ReadString((Quoted(s) + rest)[1..]) == Some(JsonText.Read(s, rest))
  {
    hide EscapedAll, JsonText.ReadString;
    StringReads(s, rest);
    assert (Quoted(s) + rest)[1..] == EscapedAll(s) + ("\"" + rest);
  }

  lemma StrReads(s: string, rest: string)
    ensures JsonText.ReadValue(Quoted(s) + rest) == Some(JsonText.Read(JsonText.Str(s), rest))
  {
    hide Quoted, JsonText.ReadString;
    QuotedReads(s, rest);
    NoWord(Quoted(s) + rest);
  }

  lemma NoWord(t: string)
    requires t != "" && t[0] !in {'n', 't', 'f'}
    ensures !("null" <= t) && !("true" <= t) && !("false" <= t)
    ensures t[0] != '[' ==> !("[]" <= t)
    ensures t[0] != '{' ==> !("{}" <= t)
  {
    assert "null"[0] == 'n' && "true"[0] == 't' && "false"[0] == 'f' && "[]"[0] == '[' && "{}"[0] == '{';
  }

  lemma {:induction false} NumberLengthIs(text: string, rest: string)
    requires (forall i :: 0 <= i < |text| ==> JsonText.InNumber(text[i])) && Ends(rest)
    ensures JsonText.NumberLength(text + rest) == |text|
  {
    if text == "" {
      assert text + rest == rest;
    } else {
      assert (text + rest)[1..] == text[1..] + rest;
      NumberLengthIs(text[1..], rest);
    }
  }

  lemma NumeralReads(text: string, rest: string)
    requires IsNumeral(text) && Ends(rest)
    ensures JsonText.ReadValue(text + rest) == Some(JsonText.Read(JsonText.Number(text), rest))
  {
    hide JsonText.NumberLength;
    NumberLengthIs(text, rest);
    assert (text + rest)[0] == text[0];
    assert (text + rest)[..|text|] == text && (text + rest)[|text|..] == rest;
  }

  lemma WordsRead(rest: string)
    ensures JsonText.ReadValue("null" + rest) == Some(JsonText.Read(JsonText.Null, rest))
    ensures JsonText.ReadValue("true" + rest) == Some(JsonText.Read(JsonText.Bool(true), rest))
    ensures JsonText.ReadValue("false" + rest) == Some(JsonText.Read(JsonText.Bool(false), rest))
  {
    assert ("null" + rest)[4..] == rest && ("null" + rest)[..4] == "null";
    assert ("true" + rest)[4..] == rest && ("true" + rest)[..4] == "true" && ("true" + rest)[0] == 't';
    assert ("false" + rest)[5..] == rest && ("false" + rest)[..5] == "false" && ("false" + rest)[0] == 'f';
  }

  /** A value that is no object reads back as what it is. */
  lemma PrimitiveReads(value: Value, rest: string)
    requires !value.Obj? && !value.BigInt? && Primitive(value).Text? && Ends(rest)
    ensures
      var data := match value
        case Null => JsonText.Null
        case Bool(b) => JsonText.Bool(b)
        case Number(text) => if text == "null" then JsonText.Null else JsonText.Number(text)
        case Str(s) => JsonText.Str(s)
        case _ => JsonText.Null;
      JsonText.ReadValue(Primitive(value).text + rest) == Some(JsonText.Read(data, rest))
  {
    hide JsonText.ReadValue, Quoted;
    WordsRead(rest);
    match value
    case Number(text) => if text != "null" { NumeralReads(text, rest); }
    case Str(s) => StrReads(s, rest);
    case _ =>
  }

  lemma ItemsStep(text: string, first: JsonText.Json, tail: string)
    requires JsonText.ReadValue(text) == Some(JsonText.Read(first, tail)) && tail != ""
    ensures tail[0] == ']' ==> JsonText.ReadItems(text) == Some(JsonText.Read([first], tail[1..]))
    ensures tail[0] == ',' && JsonText.ReadItems(tail[1..]).Some? ==>
      var more := JsonText.ReadItems(tail[1..]).value;
      JsonText.ReadItems(text) == Some(JsonText.Read([first] + more.value, more.rest))
  {
    hide JsonText.ReadValue;
  }

  lemma FieldsStep(text: string, first: JsonText.Field, tail: string)
    requires JsonText.ReadField(text) == Some(JsonText.Read(first, tail)) && tail != ""
    ensures tail[0] == '}' ==> JsonText.ReadFields(text) == Some(JsonText.Read([first], tail[1..]))
    ensures tail[0] == ',' && JsonText.ReadFields(tail[1..]).Some? ==>
      var more := JsonText.ReadFields(tail[1..]).value;
      JsonText.ReadFields(text) == Some(JsonText.Read([first] + more.value, more.rest))
  {
    hide JsonText.ReadField;
  }

  lemma FieldReads(key: string, text: string, value: JsonText.Json, tail: string)
    requires JsonText.ReadValue(text + tail) == Some(JsonText.Read(value, tail))
    ensures JsonText.ReadField(Quoted(key) + ":" + text + tail) == Some(JsonText.Read(JsonText.Field(key, value), tail))
  {
    hide Quoted, JsonText.ReadString, JsonText.ReadValue;
    var rest := ":" + (text + tail);
    QuotedReads(key, rest);
    assert Quoted(key) + ":" + text + tail == Quoted(key) + rest;
    assert rest[1..] == text + tail;
  }

  lemma FieldPartReads(key: string, text: string, value: JsonText.Json, tail: string)
    requires JsonText.ReadValue(text + tail) == Some(JsonText.Read(value, tail))
    ensures
      var part := Quoted(key) + ":" + text;
      && part != "" && part[0] == '"'
      && JsonText.ReadField(part + tail) == Some(JsonText.Read(JsonText.Field(key, value), tail))
  {
    hide Quoted, JsonText.ReadValue, JsonText.ReadField;
    FieldReads(key, text, value, tail);
    QuotedReads(key, ":" + text);
    assert Quoted(key) + ":" + text == Quoted(key) + (":" + text);
  }

  /** The separator or closing bracket, and all that follows the first of some parts. */
  function Tail(parts: seq<string>, close: char, rest: string): string
    requires parts != []
  {
    if |parts| == 1 then [close] + rest else "," + (CommaJoined(parts[1..]) + ([close] + rest))
  }

  lemma JoinedTail(parts: seq<string>, close: char, rest: string)
    requires parts != []
    ensures CommaJoined(parts) + ([close] + rest) == parts[0] + Tail(parts, close, rest)
    ensures close in {']', '}'} ==> Ends(Tail(parts, close, rest))
  {
  }

  lemma BracketsRead(isArray: bool, joined: string, rest: string)
    ensures
      var text := (if isArray then "[" + joined + "]" else "{" + joined + "}") + rest;
      var inside := joined + ((if isArray then "]" else "}") + rest);
      && text != "" && text[0] == (if isArray then '[' else '{') && text[1..] == inside
      && (joined == "" ==>
            JsonText.ReadValue(text)
              == Some(JsonText.Read(if isArray then JsonText.Items([]) else JsonText.Fields([]), rest)))
  {
    var text := (if isArray then "[" + joined + "]" else "{" + joined + "}") + rest;
    NoWord(text);
    if joined == "" {
      assert text[..2] == (if isArray then "[]" else "{}") && text[2..] == rest;
    }
  }

  /** An object or array in brackets reads back as what is read inside. */
  lemma NodeReads(isArray: bool, joined: string, rest: string)
    requires joined != "" && joined[0] != ']' && joined[0] != '}'
    ensures
      var text := (if isArray then "[" + joined + "]" else "{" + joined + "}") + rest;
      var inside := joined + ((if isArray then "]" else "}") + rest);
      JsonText.ReadValue(text) ==
        if isArray then
          var items := JsonText.ReadItems(inside);
          if items.None? then None else Some(JsonText.Read(JsonText.Items(items.value.value), items.value.rest))
        else
          var fields := JsonText.ReadFields(inside);
          if fields.None? then None else Some(JsonText.Read(JsonText.Fields(fields.value.value), fields.value.rest))
  {
    hide JsonText.ReadItems, JsonText.ReadFields;
    var text := (if isArray then "[" + joined + "]" else "{" + joined + "}") + rest;
    BracketsRead(isArray, joined, rest);
    NoWord(text);
    assert text[1] == joined[0];
    assert "[]"[1] == ']' && "{}"[1] == '}';
  }

  /** Each text of a value starts with a character that closes nothing. */
  lemma FirstCharacter(heap: Heap, path: seq<nat>, value: Value)
    requires Serialized(heap, path, value, true).Text?
    ensures
      var text := Serialized(heap, path, value, true).text;
      text != "" && text[0] != ']' && text[0] != '}'
  {
    hide Parts, EscapedAll, BigIntText, CommaJoined;
  }

  lemma {:induction false} ValueReads(heap: Heap, path: seq<nat>, value: Value, rest: string)
    requires Ends(rest)
    ensures
      var outcome, data := Serialized(heap, path, value, true), Data(heap, path, value);
      && (outcome.Text? <==> data.Some?)
      && (outcome.Text? ==> JsonText.ReadValue(outcome.text + rest) == Some(JsonText.Read(data.value, rest)))
    decreases Unvisited(heap, path), 0
  {
    hide JsonText.ReadValue, Quoted, CommaJoined;
    ReplacingNeverThrows(heap, path, value);
    if value.BigInt? {
      StrReads(BigIntText(value.n), rest);
    } else if !value.Obj? {
      if Primitive(value).Text? {
        PrimitiveReads(value, rest);
      }
    } else if value.id in path {
      StrReads("[Circular]", rest);
    } else if value.id in heap {
      EnteringVisits(heap, path, value.id);
      ObjectReads(heap, path, value.id, rest);
    }
  }

  lemma {:induction false} ObjectReads(heap: Heap, path: seq<nat>, id: nat, rest: string)
    requires id in heap && id !in path && Ends(rest)
    ensures
      var outcome, data := Serialized(heap, path, Obj(id), true), Data(heap, path, Obj(id));
      && outcome.Text? && data.Some?
      && JsonText.ReadValue(outcome.text + rest) == Some(JsonText.Read(data.value, rest))
    decreases Unvisited(heap, path + [id]), 2 + |heap[id].members|
  {
    hide JsonText.ReadValue, JsonText.ReadItems, JsonText.ReadFields;
    var node := heap[id];
    ReplacingNeverThrowsIn(heap, path + [id], node.isArray, node.members);
    var parts := Parts(heap, path + [id], node.isArray, node.members, true).0;
    if node.isArray {
      ItemsRead(heap, path + [id], node.members, rest);
    } else {
      FieldsRead(heap, path + [id], node.members, rest);
    }
    BracketsRead(node.isArray, CommaJoined(parts), rest);
    if parts != [] {
      NodeReads(node.isArray, CommaJoined(parts), rest);
    }
  }

  lemma ItemsJoin(parts: seq<string>, item: JsonText.Json, items: seq<JsonText.Json>, rest: string)
    requires parts != [] && parts[0] != ""
    requires JsonText.ReadValue(parts[0] + Tail(parts, ']', rest)) == Some(JsonText.Read(item, Tail(parts, ']', rest)))
    requires if |parts| == 1 then items == [] else
      JsonText.ReadItems(CommaJoined(parts[1..]) + ("]" + rest)) == Some(JsonText.Read(items, rest))
    ensures CommaJoined(parts) != "" && CommaJoined(parts)[0] == parts[0][0]
    ensures JsonText.ReadItems(CommaJoined(parts) + ("]" + rest)) == Some(JsonText.Read([item] + items, rest))
  {
    hide JsonText.ReadValue, JsonText.ReadItems;
    var tail := Tail(parts, ']', rest);
    JoinedTail(parts, ']', rest);
    ItemsStep(parts[0] + tail, item, tail);
    assert tail[1..] == if |parts| == 1 then rest else CommaJoined(parts[1..]) + ("]" + rest);
    assert [item] + [] == [item];
  }

  lemma FieldsJoin(parts: seq<string>, field: JsonText.Field, fields: seq<JsonText.Field>, rest: string)
    requires parts != [] && parts[0] != ""
    requires JsonText.ReadField(parts[0] + Tail(parts, '}', rest)) == Some(JsonText.Read(field, Tail(parts, '}', rest)))
    requires if |parts| == 1 then fields == [] else
      JsonText.ReadFields(CommaJoined(parts[1..]) + ("}" + rest)) == Some(JsonText.Read(fields, rest))
    ensures CommaJoined(parts) != "" && CommaJoined(parts)[0] == parts[0][0]
    ensures JsonText.ReadFields(CommaJoined(parts) + ("}" + rest)) == Some(JsonText.Read([field] + fields, rest))
  {
    hide JsonText.ReadField, JsonText.ReadFields;
    var tail := Tail(parts, '}', rest);
    JoinedTail(parts, '}', rest);
    FieldsStep(parts[0] + tail, field, tail);
    assert tail[1..] == if |parts| == 1 then rest else CommaJoined(parts[1..]) + ("}" + rest);
    assert [field] + [] == [field];
  }

  lemma PartsStep(heap: Heap, path: seq<nat>, isArray: bool, members: seq<Member>)
    requires members != []
    ensures
      var first := Serialized(heap, path, members[0].value, true);
      && !first.Throws?
      && Parts(heap, path, isArray, members, true).0
           == Part(isArray, members[0].key, first) + Parts(heap, path, isArray, members[1..], true).0
  {
    hide Serialized;
    ReplacingNeverThrowsIn(heap, path, isArray, members);
    ReplacingNeverThrows(heap, path, members[0].value);
  }

  lemma DataStep(heap: Heap, path: seq<nat>, members: seq<Member>)
    requires members != []
    ensures
      var first := Data(heap, path, members[0].value);
      && DataItems(heap, path, members)
           == [if first.Some? then first.value else JsonText.Null] + DataItems(heap, path, members[1..])
      && DataFields(heap, path, members)
           == (if first.Some? then [JsonText.Field(members[0].key, first.value)] else [])
              + DataFields(heap, path, members[1..])
  {
    hide Data;
  }

  lemma {:induction false} ItemsRead(heap: Heap, path: seq<nat>, members: seq<Member>, rest: string)
    ensures
      var parts, items := Parts(heap, path, true, members, true).0, DataItems(heap, path, members);
      var joined := CommaJoined(parts);
      && |parts| == |members| == |items|
      && (parts != [] ==>
            && joined != "" && joined[0] != ']' && joined[0] != '}'
            && JsonText.ReadItems(joined + ("]" + rest)) == Some(JsonText.Read(items, rest)))
    decreases Unvisited(heap, path), 1 + |members|
  {
    if members != [] {
      hide JsonText.ReadValue, JsonText.ReadItems, Parts, DataItems, DataFields, Serialized, Data, Tail, CommaJoined;
      PartsStep(heap, path, true, members);
      DataStep(heap, path, members);
      ItemsRead(heap, path, members[1..], rest);
      var parts := Parts(heap, path, true, members, true).0;
      var tail := Tail(parts, ']', rest);
      JoinedTail(parts, ']', rest);
      ValueReads(heap, path, members[0].value, tail);
      WordsRead(tail);
      if Serialized(heap, path, members[0].value, true).Text? {
        FirstCharacter(heap, path, members[0].value);
      }
      assert parts[1..] == Parts(heap, path, true, members[1..], true).0;
      ItemsJoin(parts, DataItems(heap, path, members)[0], DataItems(heap, path, members[1..]), rest);
    }
  }

  lemma FieldStep(heap: Heap, path: seq<nat>, members: seq<Member>)
    requires members != []
    requires Serialized(heap, path, members[0].value, true).Text? <==> Data(heap, path, members[0].value).Some?
    ensures
      var first, key := Serialized(heap, path, members[0].value, true), members[0].key;
      var parts, fields := Parts(heap, path, false, members, true).0, DataFields(heap, path, members);
      var restParts := Parts(heap, path, false, members[1..], true).0;
      if first.Text? then
        && parts != [] && parts[0] == Quoted(key) + ":" + first.text && parts[1..] == restParts
        && fields
             == [JsonText.Field(key, Data(heap, path, members[0].value).value)] + DataFields(heap, path, members[1..])
      else parts == restParts && fields == DataFields(heap, path, members[1..])
  {
    hide Serialized, Data, Parts, DataFields, Quoted;
    PartsStep(heap, path, false, members);
    DataStep(heap, path, members);
  }

  ghost predicate FieldsReadBack(parts: seq<string>, fields: seq<JsonText.Field>, rest: string) {
    && |parts| == |fields|
    && (parts != [] ==>
          && CommaJoined(parts) != "" && CommaJoined(parts)[0] == '"'
          && JsonText.ReadFields(CommaJoined(parts) + ("}" + rest)) == Some(JsonText.Read(fields, rest)))
  }

  lemma FieldsMore(
    parts: seq<string>, key: string, text: string, value: JsonText.Json, fields: seq<JsonText.Field>, rest: string)
    requires parts != [] && parts[0] == Quoted(key) + ":" + text
    requires JsonText.ReadValue(text + Tail(parts, '}', rest)) == Some(JsonText.Read(value, Tail(parts, '}', rest)))
    requires FieldsReadBack(parts[1..], fields, rest)
    ensures FieldsReadBack(parts, [JsonText.Field(key, value)] + fields, rest)
  {
    hide Quoted, JsonText.ReadValue, JsonText.ReadField, JsonText.ReadFields, CommaJoined, Tail;
    FieldPartReads(key, text, value, Tail(parts, '}', rest));
    FieldsJoin(parts, JsonText.Field(key, value), fields, rest);
  }

  lemma {:induction false} FieldsRead(heap: Heap, path: seq<nat>, members: seq<Member>, rest: string)
    ensures FieldsReadBack(Parts(heap, path, false, members, true).0, DataFields(heap, path, members), rest)
    decreases Unvisited(heap, path), 1 + |members|
  {
    if members != [] {
      hide Serialized, Data, Parts, DataFields, Quoted, Tail, JsonText.ReadValue, FieldsReadBack;
      FieldsRead(heap, path, members[1..], rest);
      ValueReads(heap, path, members[0].value, "");
      FieldStep(heap, path, members);
      var first := Serialized(heap, path, members[0].value, true);
      if first.Text? {
        var parts := Parts(heap, path, false, members, true).0;
        JoinedTail(parts, '}', rest);
        ValueReads(heap, path, members[0].value, Tail(parts, '}', rest));
        FieldsMore(parts, members[0].key, first.text, Data(heap, path, members[0].value).value,
                   DataFields(heap, path, members[1..]), rest);
      }
    }
  }

  /** The text of provider content; nothing makes it fail. */
  method ProviderJsonContent(heap: Heap, value: Value) returns (content: string)
    requires Closed(heap) && InHeap(heap, value)
    ensures content == Content(heap, value)
    // read as JSON, the content is the data
    ensures
      match value
      case Str(s) => content == s
      case Undefined => content == "undefined"
      case Function => content == "[Function]"
      case Symbol => content == "[Symbol]"
      case _ =>
        var data := Data(heap, [], value);
        data.Some? && JsonText.ReadValue(content) == Some(JsonText.Read(data.value, ""))
  {
    hide Parts, Data, JsonText.ReadValue;
    if !value.Str? && !value.Undefined? && !value.Function? && !value.Symbol? {
      ContentReads(heap, value);
    }
    if value.Str? {
      return value.s;
    }
    var serializer := new Serializer();
    var outcome := serializer.Property(heap, [], Undefined, value);
    if outcome.Text? {
      return outcome.text;
    }
    if outcome.Throws? {
      return UNSERIALIZABLE;
    }
    content := if value.Undefined? then "undefined" else if value.Function? then "[Function]"
               else if value.Symbol? then "[Symbol]" else UNSERIALIZABLE;
  }

  lemma ContentReads(heap: Heap, value: Value)
    requires InHeap(heap, value)
    requires !value.Str? && !value.Undefined? && !value.Function? && !value.Symbol?
    ensures
      var outcome, data := Serialized(heap, [], value, true), Data(heap, [], value);
      outcome.Text? && data.Some? && JsonText.ReadValue(outcome.text) == Some(JsonText.Read(data.value, ""))
  {
    hide JsonText.ReadValue;
    ReplacingNeverThrows(heap, [], value);
    ValueReads(heap, [], value, "");
    var outcome := Serialized(heap, [], value, true);
    assert outcome.Text? && outcome.text + "" == outcome.text;
  }

  function Content(heap: Heap, value: Value): string {
    match value
    case Str(s) => s
    case Undefined => "undefined"
    case Function => "[Function]"
    case Symbol => "[Symbol]"
    case _ =>
      match Serialized(heap, [], value, true)
      case Text(text) => text
      case _ => UNSERIALIZABLE
  }

  /** The fallback text is never used for data, and data that `JSON.stringify` accepts keeps its text. */
  lemma ContentOfData(heap: Heap, value: Value)
    requires InHeap(heap, value)
    requires !value.Str? && !value.Undefined? && !value.Function? && !value.Symbol?
    ensures Serialized(heap, [], value, true) == Text(Content(heap, value))
    ensures (forall chain :: Descends(heap, chain) && chain[0] == value ==> !Offends([], chain))
        <==> Serialized(heap, [], value, false) == Text(Content(heap, value))
  {
    ReplacingNeverThrows(heap, [], value);
    PlainThrowsExactly(heap, value);
    if !Serialized(heap, [], value, false).Throws? {
      ReplacingIsTransparent(heap, [], value);
    }
  }
}
