/** Splitting a text at its newlines and joining lines with them. */
module TextLines {

  /** `text.split("\n")` */
  function SplitLines(t: string): (lines: seq<string>)
    ensures lines != []
  {
    if t == "" then [""] else
      var rest := SplitLines(t[1..]);
      if t[0] == '\n' then [""] + rest else Prepended(t[0], rest)
  }

  function Prepended(c: char, lines: seq<string>): (r: seq<string>)
    requires lines != []
    ensures |r| == |lines|
  {
    [[c] + lines[0]] + lines[1..]
  }

  /** `lines.join("\n")` */
  function JoinLines(lines: seq<string>): string {
    if lines == [] then "" else if |lines| == 1 then lines[0] else lines[0] + "\n" + JoinLines(lines[1..])
  }

  lemma PrependedConcat(c: char, a: seq<string>, b: seq<string>)
    requires a != []
    ensures Prepended(c, a + b) == Prepended(c, a) + b
  {
    assert (a + b)[1..] == a[1..] + b;
  }

  lemma {:induction false} SplitLinesConcat(a: string, b: string)
    ensures SplitLines(a + "\n" + b) == SplitLines(a) + SplitLines(b)
  {
    var t := a + "\n" + b;
    if a == "" {
      assert t[1..] == b;
    } else {
      SplitLinesConcat(a[1..], b);
      assert t[1..] == a[1..] + "\n" + b;
      if a[0] == '\n' {
        assert [""] + (SplitLines(a[1..]) + SplitLines(b)) == [""] + SplitLines(a[1..]) + SplitLines(b);
      } else {
        hide Prepended;
        PrependedConcat(a[0], SplitLines(a[1..]), SplitLines(b));
      }
    }
  }

  lemma {:induction false} JoinSplitLines(t: string)
    ensures JoinLines(SplitLines(t)) == t
  {
    if t != "" {
      JoinSplitLines(t[1..]);
      var rest := SplitLines(t[1..]);
      assert ([""] + rest)[1..] == rest;
      assert Prepended(t[0], rest)[1..] == rest[1..];
      assert t == [t[0]] + t[1..];
    }
  }

  lemma {:induction false} JoinLinesConcat(a: seq<string>, b: seq<string>)
    requires a != [] && b != []
    ensures JoinLines(a + b) == JoinLines(a) + "\n" + JoinLines(b)
  {
    if |a| == 1 {
      assert (a + b)[1..] == b;
    } else {
      JoinLinesConcat(a[1..], b);
      assert (a + b)[1..] == a[1..] + b;
    }
  }

  lemma {:induction false} NoNewlineInLines(t: string)
    ensures forall line :: line in SplitLines(t) ==> '\n' !in line
  {
    if t != "" {
      NoNewlineInLines(t[1..]);
    }
  }

  function LinesOfEach(texts: seq<string>): (r: seq<seq<string>>)
    ensures |r| == |texts|
  {
    if texts == [] then [] else [SplitLines(texts[0])] + LinesOfEach(texts[1..])
  }

  lemma LinesOfEachAt(texts: seq<string>, k: nat)
    requires k < |texts|
    ensures LinesOfEach(texts)[k] == SplitLines(texts[k])
  {
    if k > 0 { LinesOfEachAt(texts[1..], k - 1); }
  }

  function Flatten(groups: seq<seq<string>>): seq<string> {
    if groups == [] then [] else groups[0] + Flatten(groups[1..])
  }

  lemma {:induction false} FlattenConcat(a: seq<seq<string>>, b: seq<seq<string>>)
    ensures Flatten(a + b) == Flatten(a) + Flatten(b)
  {
    if a == [] {
      assert a + b == b;
    } else {
      assert (a + b)[1..] == a[1..] + b;
      FlattenConcat(a[1..], b);
    }
  }

  /** Joined texts read back as the lines of each, in order. */
  lemma {:induction false} JoinedReadsBack(texts: seq<string>)
    requires texts != []
    ensures SplitLines(JoinLines(texts)) == Flatten(LinesOfEach(texts))
  {
    hide SplitLines;
    if |texts| == 1 {
      assert texts == [texts[0]];
      assert Flatten(LinesOfEach(texts)) == SplitLines(texts[0]) + [];
    } else {
      JoinedReadsBack(texts[1..]);
      SplitLinesConcat(texts[0], JoinLines(texts[1..]));
    }
  }

  lemma {:induction false} PlainLine(text: string)
    requires '\n' !in text
    ensures SplitLines(text) == [text]
  {
    if text != "" {
      PlainLine(text[1..]);
      assert [text[0]] + text[1..] == text;
    }
  }

  /** The lines of a text are those of the given texts, in this order. */
  ghost predicate ReadsAs(text: string, texts: seq<string>) {
    SplitLines(text) == Flatten(LinesOfEach(texts))
  }

  /** In particular, texts without newlines come back as they are. */
  lemma {:induction false} LinesReadBack(texts: seq<string>)
    requires forall text :: text in texts ==> '\n' !in text
    ensures Flatten(LinesOfEach(texts)) == texts
  {
    hide SplitLines;
    if texts != [] {
      PlainLine(texts[0]);
      LinesReadBack(texts[1..]);
      assert texts == [texts[0]] + texts[1..];
    }
  }
}
