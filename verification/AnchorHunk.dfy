/** The excerpt of the anchor hunk in a review-thread prompt: a window around the anchor line,
    widened line by line, first upwards and then downwards, as long as it fits a byte budget. */
module AnchorHunk {
  import opened Numbers
  import opened TextLines
  import opened Utf8

  const MAX_HEADER_BYTES: nat := 1024

  /** The excerpt chosen beforehand; `identity` is the rendered first line naming file and hunk. */
  datatype Hunk = Hunk(
    identity: string,
    header: string,
    lines: seq<string>,
    anchorLineIndex: nat,
    omittedBefore: nat,
    omittedAfter: nat)
  {
    predicate Valid() {
      anchorLineIndex < |lines|
    }
  }

  /** Text cut to a budget, ending in a marker that names the original size. */
  ghost predicate IsCut(value: string, maxBytes: nat, marker: string, r: string) {
    exists size :: Spells(size, ByteLength(value))
      && IsTruncated(value, maxBytes, "\n[" + marker + " originalBytes=" + size + "]", r)
  }

  function TruncatePromptText(value: string, maxBytes: nat, marker: string): (r: string)
    ensures ByteLength(r) <= maxBytes
    ensures ByteLength(value) <= maxBytes ==> r == value
    ensures IsCut(value, maxBytes, marker, r)
  {
    var size := Decimal(ByteLength(value));
    DecimalReads(ByteLength(value));
    if ByteLength(value) <= maxBytes then
      assert IsTruncated(value, maxBytes, "\n[" + marker + " originalBytes=" + size + "]", value);
      value
    else Truncate(value, maxBytes, "\n[" + marker + " originalBytes=" + size + "]")
  }

  function Full(hunk: Hunk): string {
    JoinLines([hunk.identity, hunk.header] + hunk.lines)
  }

  /** Nothing was omitted before, and the hunk fits with its whole header. */
  predicate FitsWhole(hunk: Hunk, maxBytes: int) {
    hunk.omittedBefore == hunk.omittedAfter == 0 && ByteLength(Full(hunk)) <= maxBytes
  }

  function Marker(hunk: Hunk, start: nat, end: nat): string
    requires end <= |hunk.lines|
  {
    "[DIFFDASH_HUNK_SLICE anchorCentered=true omittedBefore=" + Decimal(hunk.omittedBefore + start)
    + " omittedAfter=" + Decimal(hunk.omittedAfter + |hunk.lines| - end) + "]"
  }

  function RenderSlice(hunk: Hunk, start: nat, end: nat, lines: seq<string>): string
    requires end <= |hunk.lines|
  {
    JoinLines([hunk.identity,
            TruncatePromptText(hunk.header, MAX_HEADER_BYTES, "DIFFDASH_HUNK_HEADER_TRUNCATED"),
            Marker(hunk, start, end)] + lines)
  }

  predicate IsWindow(hunk: Hunk, start: nat, end: nat) {
    start <= hunk.anchorLineIndex < end <= |hunk.lines|
  }

  /** The slice of a window whose anchor line is shown as `anchorText`. */
  function WindowText(hunk: Hunk, anchorText: string, start: nat, end: nat): string
    requires IsWindow(hunk, start, end)
  {
    RenderSlice(hunk, start, end, hunk.lines[hunk.anchorLineIndex := anchorText][start..end])
  }

  predicate Fits(hunk: Hunk, anchorText: string, start: nat, end: nat, maxBytes: nat)
    requires IsWindow(hunk, start, end)
  {
    ByteLength(WindowText(hunk, anchorText, start, end)) <= maxBytes
  }

  /** The anchor line as shown when the slice with the whole line does not fit. */
  function AnchorText(hunk: Hunk, maxBytes: nat): string
    requires hunk.Valid()
  {
    var line := hunk.lines[hunk.anchorLineIndex];
    var start, end := hunk.anchorLineIndex, hunk.anchorLineIndex + 1;
    if ByteLength(RenderSlice(hunk, start, end, [line])) <= maxBytes then line else
      var empty := ByteLength(RenderSlice(hunk, start, end, [""]));
      TruncatePromptText(line, if maxBytes < empty then 0 else maxBytes - empty,
                         "DIFFDASH_ANCHOR_PATCH_LINE_TRUNCATED")
  }

  function TotalBytes(lines: seq<string>): nat {
    if lines == [] then 0 else ByteLength(lines[0]) + 1 + TotalBytes(lines[1..])
  }

  lemma {:induction false} TotalBytesConcat(a: seq<string>, b: seq<string>)
    ensures TotalBytes(a + b) == TotalBytes(a) + TotalBytes(b)
  {
    if a == [] {
      assert a + b == b;
    } else {
      assert (a + b)[1..] == a[1..] + b;
      TotalBytesConcat(a[1..], b);
    }
  }

  lemma {:induction false} JoinedBytes(lines: seq<string>)
    requires lines != []
    ensures ByteLength(JoinLines(lines)) + 1 == TotalBytes(lines)
  {
    if |lines| > 1 {
      JoinedBytes(lines[1..]);
      ByteLengthConcat(lines[0], "\n");
      ByteLengthConcat(lines[0] + "\n", JoinLines(lines[1..]));
    } else {
      assert TotalBytes(lines[1..]) == 0;
    }
  }

  /** A marker that counts the lines omitted above and below. */
  ghost predicate MarkerReads(marker: string, above: nat, below: nat) {
    exists before, after ::
      && Spells(before, above) && Spells(after, below)
      && marker == "[DIFFDASH_HUNK_SLICE anchorCentered=true omittedBefore=" + before + " omittedAfter=" + after + "]"
  }

  /** The two counters of a slice and the lines between them account for every line there is. */
  lemma CountersAddUp(hunk: Hunk, start: nat, end: nat)
    requires start <= end <= |hunk.lines|
    ensures exists above: nat, below: nat ::
      && MarkerReads(Marker(hunk, start, end), above, below)
      && above == hunk.omittedBefore + start
      && above + (end - start) + below == hunk.omittedBefore + |hunk.lines| + hunk.omittedAfter
  {
    MarkerIsRead(hunk, start, end);
  }

  lemma MarkerIsRead(hunk: Hunk, start: nat, end: nat)
    requires end <= |hunk.lines|
    ensures MarkerReads(
      Marker(hunk, start, end), hunk.omittedBefore + start, hunk.omittedAfter + |hunk.lines| - end)
  {
    hide Decimal, Digits, Number;
    DecimalReads(hunk.omittedBefore + start);
    DecimalReads(hunk.omittedAfter + |hunk.lines| - end);
  }

  /** Digits of the two counters in the marker. */
  function CounterWidth(hunk: Hunk, start: nat, end: nat): nat
    requires end <= |hunk.lines|
  {
    |Decimal(hunk.omittedBefore + start)| + |Decimal(hunk.omittedAfter + |hunk.lines| - end)|
  }

  /** The part of a slice's size that does not depend on the window. */
  function FixedBytes(hunk: Hunk): nat {
    ByteLength(hunk.identity) + 1
    + ByteLength(TruncatePromptText(hunk.header, MAX_HEADER_BYTES, "DIFFDASH_HUNK_HEADER_TRUNCATED")) + 1
    + ByteLength("[DIFFDASH_HUNK_SLICE anchorCentered=true omittedBefore=")
    + ByteLength(" omittedAfter=") + ByteLength("]")
  }

  lemma MarkerBytes(hunk: Hunk, start: nat, end: nat)
    requires end <= |hunk.lines|
    ensures ByteLength(Marker(hunk, start, end))
         == ByteLength("[DIFFDASH_HUNK_SLICE anchorCentered=true omittedBefore=")
          + ByteLength(" omittedAfter=") + ByteLength("]") + CounterWidth(hunk, start, end)
  {
    hide ByteLength;
    var a, b := "[DIFFDASH_HUNK_SLICE anchorCentered=true omittedBefore=", Decimal(hunk.omittedBefore + start);
    var c, d := " omittedAfter=", Decimal(hunk.omittedAfter + |hunk.lines| - end);
    ByteLengthConcat(a, b);
    ByteLengthConcat(a + b, c);
    ByteLengthConcat(a + b + c, d);
    ByteLengthConcat(a + b + c + d, "]");
    ByteLengthAscii(b);
    ByteLengthAscii(d);
  }

  lemma SliceBytes(hunk: Hunk, start: nat, end: nat, lines: seq<string>)
    requires end <= |hunk.lines|
    ensures ByteLength(RenderSlice(hunk, start, end, lines))
         == FixedBytes(hunk) + CounterWidth(hunk, start, end) + TotalBytes(lines)
  {
    hide ByteLength, Marker, TruncatePromptText, CounterWidth;
    var header := TruncatePromptText(hunk.header, MAX_HEADER_BYTES, "DIFFDASH_HUNK_HEADER_TRUNCATED");
    var first := [hunk.identity, header, Marker(hunk, start, end)];
    MarkerBytes(hunk, start, end);
    JoinedBytes(first + lines);
    TotalBytesConcat(first, lines);
    ThreeLines(hunk.identity, header, Marker(hunk, start, end));
  }

  lemma ThreeLines(a: string, b: string, c: string)
    ensures TotalBytes([a, b, c]) == ByteLength(a) + ByteLength(b) + ByteLength(c) + 3
  {
    hide ByteLength;
    TotalBytesConcat([a], [b, c]);
    TotalBytesConcat([b], [c]);
    assert [a] + [b, c] == [a, b, c] && [b] + [c] == [b, c];
  }

  lemma OneLineMore(shown: seq<string>, start: nat, end: nat)
    requires start <= end < |shown|
    ensures TotalBytes(shown[start..end]) < TotalBytes(shown[start..end + 1])
  {
    hide ByteLength;
    assert shown[start..end + 1] == shown[start..end] + [shown[end]];
    TotalBytesConcat(shown[start..end], [shown[end]]);
  }

  /** Adding a line above costs its bytes and a newline, and may save one digit: never less in all. */
  lemma WidenUp(hunk: Hunk, anchorText: string, start: nat, end: nat)
    requires IsWindow(hunk, start, end) && start > 0
    ensures ByteLength(WindowText(hunk, anchorText, start, end))
         <= ByteLength(WindowText(hunk, anchorText, start - 1, end))
  {
    hide ByteLength, RenderSlice, FixedBytes, Decimal;
    var shown := hunk.lines[hunk.anchorLineIndex := anchorText];
    SliceBytes(hunk, start, end, shown[start..end]);
    SliceBytes(hunk, start - 1, end, shown[start - 1..end]);
    assert shown[start - 1..end][1..] == shown[start..end];
    DecimalWidth(hunk.omittedBefore + start - 1);
  }

  lemma WidenDown(hunk: Hunk, anchorText: string, start: nat, end: nat)
    requires IsWindow(hunk, start, end) && end < |hunk.lines|
    ensures ByteLength(WindowText(hunk, anchorText, start, end))
         <= ByteLength(WindowText(hunk, anchorText, start, end + 1))
  {
    hide ByteLength, RenderSlice, FixedBytes, Decimal, TotalBytes;
    var shown := hunk.lines[hunk.anchorLineIndex := anchorText];
    SliceBytes(hunk, start, end, shown[start..end]);
    SliceBytes(hunk, start, end + 1, shown[start..end + 1]);
    OneLineMore(shown, start, end);
    DecimalWidth(hunk.omittedAfter + |hunk.lines| - end - 1);
  }

  /** A wider window is never smaller. */
  lemma {:induction false} Widen(hunk: Hunk, anchorText: string, start: nat, end: nat, start': nat, end': nat)
    requires IsWindow(hunk, start, end) && IsWindow(hunk, start', end')
    requires start' <= start && end <= end'
    ensures ByteLength(WindowText(hunk, anchorText, start, end))
         <= ByteLength(WindowText(hunk, anchorText, start', end'))
    decreases start - start' + end' - end
  {
    hide ByteLength, WindowText;
    if start' < start {
      WidenUp(hunk, anchorText, start, end);
      Widen(hunk, anchorText, start - 1, end, start', end');
    } else if end < end' {
      WidenDown(hunk, anchorText, start, end);
      Widen(hunk, anchorText, start, end + 1, start', end');
    }
  }

  ghost predicate Maximal(hunk: Hunk, anchorText: string, start: nat, end: nat, maxBytes: nat)
    requires IsWindow(hunk, start, end)
  {
    && (start > 0 ==> !Fits(hunk, anchorText, start - 1, end, maxBytes))
    && (end < |hunk.lines| ==> !Fits(hunk, anchorText, start, end + 1, maxBytes))
  }

  /** Fewer lines above than below only if one more line above, with as many below as there are
      above, is impossible; fewer below than above only if one more on both sides is impossible. */
  ghost predicate Centered(hunk: Hunk, anchorText: string, start: nat, end: nat, maxBytes: nat)
    requires IsWindow(hunk, start, end)
  {
    var anchor := hunk.anchorLineIndex;
    var up, down := anchor - start, end - 1 - anchor;
    && (up < down && start > 0 ==> !Fits(hunk, anchorText, start - 1, anchor + 1 + up, maxBytes))
    && (down < up && end < |hunk.lines| ==> !Fits(hunk, anchorText, anchor - down - 1, end + 1, maxBytes))
  }

  /** No strictly wider window fits. */
  lemma MaximalMeansWidest(hunk: Hunk, anchorText: string, start: nat, end: nat, maxBytes: nat, start': nat, end': nat)
    requires IsWindow(hunk, start, end) && IsWindow(hunk, start', end')
    requires Maximal(hunk, anchorText, start, end, maxBytes)
    requires start' <= start && end <= end' && (start', end') != (start, end)
    ensures !Fits(hunk, anchorText, start', end', maxBytes)
  {
    hide ByteLength, WindowText;
    if start' < start {
      Widen(hunk, anchorText, start - 1, end, start', end');
    } else {
      Widen(hunk, anchorText, start, end + 1, start', end');
    }
  }

  /** The window that is shown: it fits, no wider one does, and it is centred on the anchor. */
  ghost predicate Shown(hunk: Hunk, anchorText: string, start: nat, end: nat, maxBytes: nat) {
    && IsWindow(hunk, start, end)
    && Fits(hunk, anchorText, start, end, maxBytes)
    && Maximal(hunk, anchorText, start, end, maxBytes)
    && Centered(hunk, anchorText, start, end, maxBytes)
  }

  /** These three conditions leave one window only. */
  lemma ShownIsUnique(hunk: Hunk, anchorText: string, maxBytes: nat, s1: nat, e1: nat, s2: nat, e2: nat)
    requires Shown(hunk, anchorText, s1, e1, maxBytes)
    requires Shown(hunk, anchorText, s2, e2, maxBytes)
    ensures s1 == s2 && e1 == e2
  {
    hide Fits;
    if s2 <= s1 && e1 <= e2 {
      if (s1, e1) != (s2, e2) { MaximalMeansWidest(hunk, anchorText, s1, e1, maxBytes, s2, e2); }
    } else if s1 <= s2 && e2 <= e1 {
      MaximalMeansWidest(hunk, anchorText, s2, e2, maxBytes, s1, e1);
    } else if s2 < s1 {
      CrossedWindows(hunk, anchorText, maxBytes, s1, e1, s2, e2);
    } else {
      CrossedWindows(hunk, anchorText, maxBytes, s2, e2, s1, e1);
    }
  }

  lemma FitsInside(hunk: Hunk, anchorText: string, maxBytes: nat, start: nat, end: nat, start': nat, end': nat)
    requires IsWindow(hunk, start, end) && IsWindow(hunk, start', end')
    requires start' <= start && end <= end' && Fits(hunk, anchorText, start', end', maxBytes)
    ensures Fits(hunk, anchorText, start, end, maxBytes)
  {
    Widen(hunk, anchorText, start, end, start', end');
  }

  lemma CrossedWindows(hunk: Hunk, anchorText: string, maxBytes: nat, s1: nat, e1: nat, s2: nat, e2: nat)
    requires Shown(hunk, anchorText, s1, e1, maxBytes)
    requires Shown(hunk, anchorText, s2, e2, maxBytes)
    ensures !(s2 < s1 && e2 < e1)
  {
    hide Fits;
    var anchor := hunk.anchorLineIndex;
    var up1, down2 := anchor - s1, e2 - 1 - anchor;
    if s2 < s1 && e2 < e1 {
      if up1 <= down2 {
        FitsInside(hunk, anchorText, maxBytes, s1 - 1, anchor + 1 + up1, s2, e2);
      } else {
        FitsInside(hunk, anchorText, maxBytes, anchor - down2 - 1, e2 + 1, s1, e1);
      }
    }
  }

  /** The slice fits exactly if it fits without the anchor's text. */
  lemma AnchorTextFits(hunk: Hunk, maxBytes: nat)
    requires hunk.Valid()
    ensures var anchor := hunk.anchorLineIndex;
            Fits(hunk, AnchorText(hunk, maxBytes), anchor, anchor + 1, maxBytes)
            <==> ByteLength(RenderSlice(hunk, anchor, anchor + 1, [""])) <= maxBytes
  {
    hide ByteLength, RenderSlice, FixedBytes, CounterWidth;
    var start, end := hunk.anchorLineIndex, hunk.anchorLineIndex + 1;
    var text := AnchorText(hunk, maxBytes);
    var line := hunk.lines[start];
    assert hunk.lines[start := text][start..end] == [text];
    SliceBytes(hunk, start, end, [text]);
    SliceBytes(hunk, start, end, [line]);
    SliceBytes(hunk, start, end, [""]);
    OneLineBytes(text);
    OneLineBytes(line);
    OneLineBytes("");
  }

  lemma OneLineBytes(line: string)
    ensures TotalBytes([line]) == ByteLength(line) + 1
    ensures line == "" ==> ByteLength(line) == 0
  {
  }

  /** The slice of a window, rendered from the lines selected for it. */
  method RenderWindow(hunk: Hunk, ghost anchorText: string, start: nat, end: nat, lines: seq<string>)
      returns (text: string)
    requires IsWindow(hunk, start, end)
    requires lines == hunk.lines[hunk.anchorLineIndex := anchorText][start..end]
    ensures text == WindowText(hunk, anchorText, start, end)
  {
    text := RenderSlice(hunk, start, end, lines);
  }

  /** The anchor line alone, cut if need be. */
  method RenderAnchorLine(hunk: Hunk, maxBytes: nat) returns (lines: seq<string>, text: string)
    requires hunk.Valid()
    ensures lines == [AnchorText(hunk, maxBytes)]
    ensures text == WindowText(hunk, lines[0], hunk.anchorLineIndex, hunk.anchorLineIndex + 1)
    ensures SomeSliceFits(hunk, maxBytes) <==> ByteLength(text) <= maxBytes
  {
    hide ByteLength, RenderSlice, IsCut;
    var start, end := hunk.anchorLineIndex, hunk.anchorLineIndex + 1;
    lines := [hunk.lines[hunk.anchorLineIndex]];
    text := RenderSlice(hunk, start, end, lines);
    if maxBytes < ByteLength(text) {
      var emptyAnchor := ByteLength(RenderSlice(hunk, start, end, [""]));
      var lineBudget := if maxBytes < emptyAnchor then 0 else maxBytes - emptyAnchor;
      lines := [TruncatePromptText(lines[0], lineBudget, "DIFFDASH_ANCHOR_PATCH_LINE_TRUNCATED")];
      text := RenderSlice(hunk, start, end, lines);
    }
    assert lines == hunk.lines[hunk.anchorLineIndex := lines[0]][start..end];
    AnchorTextFits(hunk, maxBytes);
  }

  method RenderAnchorHunk(hunk: Hunk, maxBytes: nat)
      returns (text: string, sliced: bool, ghost start: nat, ghost end: nat)
    requires hunk.Valid()
    ensures !sliced <==> FitsWhole(hunk, maxBytes)
    ensures !sliced ==> text == Full(hunk) && ReadsAs(text, [hunk.identity, hunk.header] + hunk.lines)
    ensures sliced ==>
      && IsWindow(hunk, start, end)
      && text == WindowText(hunk, AnchorText(hunk, maxBytes), start, end)
      && WindowReads(hunk, text, start, end, AnchorText(hunk, maxBytes))
      && AnchorReads(hunk, maxBytes, AnchorText(hunk, maxBytes))
    // the window is the only one that fits, cannot be widened and is centred, if any slice fits
    ensures sliced && SomeSliceFits(hunk, maxBytes) ==>
      Shown(hunk, AnchorText(hunk, maxBytes), start, end, maxBytes)
    ensures sliced && !SomeSliceFits(hunk, maxBytes) ==>
      start == hunk.anchorLineIndex && end == start + 1 && maxBytes < ByteLength(text)
  {
    hide ByteLength, RenderSlice, Full, WindowText, AnchorText, SomeSliceFits, ReadsAs;
    hide WindowReads, AnchorReads;
    var full := Full(hunk);
    if hunk.omittedBefore == 0 && hunk.omittedAfter == 0 && ByteLength(full) <= maxBytes {
      FullReads(hunk);
      return full, false, 0, 0;
    }
    sliced := true;
    text, start, end := ExpandWindow(hunk, maxBytes);
    WindowIsRead(hunk, AnchorText(hunk, maxBytes), start, end);
    AnchorIsRead(hunk, maxBytes);
  }

  /** One line more above, if there is one and it fits. */
  method WidenedUp(
    hunk: Hunk, ghost anchorText: string, maxBytes: nat, start: nat, end: nat, lines: seq<string>, text: string)
      returns (start': nat, lines': seq<string>, text': string, expanded: bool)
    requires IsWindow(hunk, start, end) && text == WindowText(hunk, anchorText, start, end)
    requires lines == hunk.lines[hunk.anchorLineIndex := anchorText][start..end]
    requires Centered(hunk, anchorText, start, end, maxBytes)
    ensures expanded == (start > 0 && Fits(hunk, anchorText, start - 1, end, maxBytes))
    ensures start' == if expanded then start - 1 else start
    ensures lines' == hunk.lines[hunk.anchorLineIndex := anchorText][start'..end]
    ensures text' == WindowText(hunk, anchorText, start', end)
    ensures expanded ==> Fits(hunk, anchorText, start, end, maxBytes)
    ensures CenteredAfterUp(hunk, anchorText, start', end, maxBytes)
  {
    hide ByteLength, WindowText, Centered, CenteredAfterUp;
    start', lines', text', expanded := start, lines, text, false;
    if start > 0 {
      var candidateLines := [hunk.lines[start - 1]] + lines;
      var candidate := RenderWindow(hunk, anchorText, start - 1, end, candidateLines);
      WidenUp(hunk, anchorText, start, end);
      if ByteLength(candidate) <= maxBytes {
        start', lines', text', expanded := start - 1, candidateLines, candidate, true;
      }
    }
    AfterUp(hunk, anchorText, maxBytes, start, end, start');
  }

  /** One line more below, if there is one and it fits. */
  method WidenedDown(
    hunk: Hunk, ghost anchorText: string, maxBytes: nat, start: nat, end: nat, lines: seq<string>, text: string)
      returns (end': nat, lines': seq<string>, text': string, expanded: bool)
    requires IsWindow(hunk, start, end) && text == WindowText(hunk, anchorText, start, end)
    requires lines == hunk.lines[hunk.anchorLineIndex := anchorText][start..end]
    requires CenteredAfterUp(hunk, anchorText, start, end, maxBytes)
    ensures expanded == (end < |hunk.lines| && Fits(hunk, anchorText, start, end + 1, maxBytes))
    ensures end' == if expanded then end + 1 else end
    ensures lines' == hunk.lines[hunk.anchorLineIndex := anchorText][start..end']
    ensures text' == WindowText(hunk, anchorText, start, end')
    ensures expanded ==> Fits(hunk, anchorText, start, end, maxBytes)
    ensures Centered(hunk, anchorText, start, end', maxBytes)
  {
    hide ByteLength, WindowText, Centered, CenteredAfterUp;
    end', lines', text', expanded := end, lines, text, false;
    if end < |hunk.lines| {
      var candidateLines := lines + [hunk.lines[end]];
      var candidate := RenderWindow(hunk, anchorText, start, end + 1, candidateLines);
      WidenDown(hunk, anchorText, start, end);
      if ByteLength(candidate) <= maxBytes {
        end', lines', text', expanded := end + 1, candidateLines, candidate, true;
      }
    }
    AfterDown(hunk, anchorText, maxBytes, start, end, end');
  }

  lemma CenteredAtFirst(hunk: Hunk, anchorText: string, maxBytes: nat)
    requires hunk.Valid()
    ensures Centered(hunk, anchorText, hunk.anchorLineIndex, hunk.anchorLineIndex + 1, maxBytes)
  {
  }

  method ExpandWindow(hunk: Hunk, maxBytes: nat) returns (text: string, start: nat, end: nat)
    requires hunk.Valid()
    ensures IsWindow(hunk, start, end)
    ensures text == WindowText(hunk, AnchorText(hunk, maxBytes), start, end)
    ensures SomeSliceFits(hunk, maxBytes) ==> Shown(hunk, AnchorText(hunk, maxBytes), start, end, maxBytes)
    ensures !SomeSliceFits(hunk, maxBytes) ==>
      start == hunk.anchorLineIndex && end == start + 1 && maxBytes < ByteLength(text)
  {
    hide ByteLength, RenderSlice, WindowText, AnchorText, SomeSliceFits, CenteredAfterUp, Centered;
    ghost var anchorText := AnchorText(hunk, maxBytes);
    ghost var shown := hunk.lines[hunk.anchorLineIndex := anchorText];
    var first: nat, last: nat := hunk.anchorLineIndex, hunk.anchorLineIndex + 1;
    var selectedLines;
    selectedLines, text := RenderAnchorLine(hunk, maxBytes);
    CenteredAtFirst(hunk, anchorText, maxBytes);
    var expanded := true;
    while expanded
      invariant IsWindow(hunk, first, last) && selectedLines == shown[first..last]
      invariant text == WindowText(hunk, anchorText, first, last)
      invariant SomeSliceFits(hunk, maxBytes) <==> Fits(hunk, anchorText, first, last, maxBytes)
      invariant !SomeSliceFits(hunk, maxBytes) ==> first == hunk.anchorLineIndex && last == first + 1
      invariant Centered(hunk, anchorText, first, last, maxBytes)
      invariant !expanded ==> Maximal(hunk, anchorText, first, last, maxBytes)
      decreases |hunk.lines| - (last - first), expanded
    {
      var up, down;
      first, selectedLines, text, up := WidenedUp(hunk, anchorText, maxBytes, first, last, selectedLines, text);
      last, selectedLines, text, down := WidenedDown(hunk, anchorText, maxBytes, first, last, selectedLines, text);
      expanded := up || down;
    }
    start, end := first, last;
  }

  ghost predicate SomeSliceFits(hunk: Hunk, maxBytes: nat)
    requires hunk.Valid()
  {
    ByteLength(RenderSlice(hunk, hunk.anchorLineIndex, hunk.anchorLineIndex + 1, [""])) <= maxBytes
  }

  /** One line was added above if it fitted, but not yet one below. */
  ghost predicate CenteredAfterUp(hunk: Hunk, anchorText: string, start: nat, end: nat, maxBytes: nat)
    requires IsWindow(hunk, start, end)
  {
    var anchor := hunk.anchorLineIndex;
    var up, down := anchor - start, end - 1 - anchor;
    && (up <= down && start > 0 ==> !Fits(hunk, anchorText, start - 1, anchor + 1 + up, maxBytes))
    && (down + 1 < up && end < |hunk.lines| ==> !Fits(hunk, anchorText, anchor - down - 1, end + 1, maxBytes))
  }

  lemma AfterUp(hunk: Hunk, anchorText: string, maxBytes: nat, start: nat, end: nat, start': nat)
    requires IsWindow(hunk, start, end) && Centered(hunk, anchorText, start, end, maxBytes)
    requires start' == if start > 0 && Fits(hunk, anchorText, start - 1, end, maxBytes) then start - 1 else start
    ensures CenteredAfterUp(hunk, anchorText, start', end, maxBytes)
  {
    hide Fits;
    var anchor := hunk.anchorLineIndex;
    var up, down := anchor - start, end - 1 - anchor;
    if start > 0 && up < down && Fits(hunk, anchorText, start - 1, end, maxBytes) {
      FitsInside(hunk, anchorText, maxBytes, start - 1, anchor + 1 + up, start - 1, end);
    }
  }

  lemma AfterDown(hunk: Hunk, anchorText: string, maxBytes: nat, start: nat, end: nat, end': nat)
    requires IsWindow(hunk, start, end) && CenteredAfterUp(hunk, anchorText, start, end, maxBytes)
    requires end' == if end < |hunk.lines| && Fits(hunk, anchorText, start, end + 1, maxBytes) then end + 1 else end
    ensures Centered(hunk, anchorText, start, end', maxBytes)
  {
    hide Fits;
    var anchor := hunk.anchorLineIndex;
    var up, down := anchor - start, end - 1 - anchor;
    if end < |hunk.lines| && down + 1 < up && Fits(hunk, anchorText, start, end + 1, maxBytes) {
      FitsInside(hunk, anchorText, maxBytes, anchor - down - 1, end + 1, start, end + 1);
    }
  }

  const SHORT_IDENTITY_BYTES: nat := 30 * 1024

  lemma FixedBytesBound(hunk: Hunk)
    ensures FixedBytes(hunk) <= ByteLength(hunk.identity) + MAX_HEADER_BYTES + 300
  {
    hide ByteLength, TruncatePromptText;
    ByteLengthBound("[DIFFDASH_HUNK_SLICE anchorCentered=true omittedBefore=");
    ByteLengthBound(" omittedAfter=");
    ByteLengthBound("]");
  }

  /** With an identity line of at most 30 KiB, a slice of the hunk always fits into 32 KiB. */
  lemma ShortIdentityFits(hunk: Hunk, maxBytes: nat)
    requires hunk.Valid() && ByteLength(hunk.identity) <= SHORT_IDENTITY_BYTES && 32 * 1024 <= maxBytes
    requires hunk.omittedBefore <= MAX_SAFE_INTEGER && hunk.omittedAfter <= MAX_SAFE_INTEGER && |hunk.lines| <= 1024
    ensures SomeSliceFits(hunk, maxBytes)
  {
    hide ByteLength, RenderSlice, FixedBytes, Decimal;
    var start, end := hunk.anchorLineIndex, hunk.anchorLineIndex + 1;
    SliceBytes(hunk, start, end, [""]);
    OneLineBytes("");
    FixedBytesBound(hunk);
    SafeIntegerLength(hunk.omittedBefore + start);
    SafeIntegerLength(hunk.omittedAfter + |hunk.lines| - end);
  }

  /** A slice shows every line there is, and all of the anchor line, exactly when all of them fit
      beside the cut header and the marker. */
  lemma AllLinesShownExactly(hunk: Hunk, maxBytes: nat, start: nat, end: nat)
    requires hunk.Valid() && Shown(hunk, AnchorText(hunk, maxBytes), start, end, maxBytes)
    ensures
      var anchorLine := hunk.lines[hunk.anchorLineIndex];
      start == 0 && end == |hunk.lines| && AnchorText(hunk, maxBytes) == anchorLine <==>
      Fits(hunk, anchorLine, 0, |hunk.lines|, maxBytes)
  {
    hide ByteLength, RenderSlice, Maximal, Centered;
    var anchor, anchorLine := hunk.anchorLineIndex, hunk.lines[hunk.anchorLineIndex];
    if Fits(hunk, anchorLine, 0, |hunk.lines|, maxBytes) {
      FitsInside(hunk, anchorLine, maxBytes, anchor, anchor + 1, 0, |hunk.lines|);
      assert hunk.lines[anchor := anchorLine][anchor..anchor + 1] == [anchorLine];
      assert AnchorText(hunk, maxBytes) == anchorLine;
      if (start, end) != (0, |hunk.lines|) {
        MaximalMeansWidest(hunk, anchorLine, start, end, maxBytes, 0, |hunk.lines|);
      }
    }
  }

  function Repeated(n: nat): (s: string)
    ensures |s| == n
  {
    seq(n, _ => '@')
  }

  /** A hunk of one line with a header as long as the whole budget. */
  function LongHeader(maxBytes: nat): Hunk {
    Hunk("", Repeated(maxBytes), [" "], 0, 0, 0)
  }

  /** It is sliced although nothing was omitted and its one line is shown: only the header was cut. */
  lemma SlicedWithAllLines(maxBytes: nat)
    requires 2 * 1024 <= maxBytes
    ensures
      var hunk := LongHeader(maxBytes);
      hunk.Valid() && !FitsWhole(hunk, maxBytes) && Shown(hunk, hunk.lines[0], 0, |hunk.lines|, maxBytes)
  {
    hide ByteLength, RenderSlice, FixedBytes, Decimal;
    var hunk := LongHeader(maxBytes);
    SliceBytes(hunk, 0, 1, [" "]);
    LongHeaderBytes(maxBytes);
    FixedBytesBound(hunk);
    SafeIntegerLength(0);
    assert hunk.lines[0 := " "][0..1] == [" "];
  }

  lemma LongHeaderBytes(maxBytes: nat)
    ensures TotalBytes([" "]) == 2 && ByteLength("") == 0
    ensures maxBytes < ByteLength(Full(LongHeader(maxBytes)))
  {
    var hunk := LongHeader(maxBytes);
    assert [hunk.identity, hunk.header] + hunk.lines == [hunk.identity, hunk.header, " "];
    JoinedBytes([hunk.identity, hunk.header, " "]);
    ThreeLines(hunk.identity, hunk.header, " ");
  }

  /* What a hunk looks like in the prompt, line by line */

  /** How the lines of a window are shown. */
  ghost predicate WindowReads(hunk: Hunk, text: string, start: nat, end: nat, anchorText: string) {
    && start <= hunk.anchorLineIndex < end <= |hunk.lines|
    && exists header, marker ::
         && IsCut(hunk.header, 1024, "DIFFDASH_HUNK_HEADER_TRUNCATED", header)
         && MarkerReads(marker, hunk.omittedBefore + start, hunk.omittedAfter + |hunk.lines| - end)
         && ReadsAs(text, [hunk.identity, header, marker]
                          + hunk.lines[start..hunk.anchorLineIndex] + [anchorText]
                          + hunk.lines[hunk.anchorLineIndex + 1..end])
  }

  lemma FullReads(hunk: Hunk)
    ensures ReadsAs(Full(hunk), [hunk.identity, hunk.header] + hunk.lines)
  {
    JoinedReadsBack([hunk.identity, hunk.header] + hunk.lines);
  }

  /** Every window, shown or not, consists of the line naming file and hunk, the cut header, the
      marker, and then exactly its lines. */
  lemma WindowIsRead(hunk: Hunk, anchorText: string, start: nat, end: nat)
    requires IsWindow(hunk, start, end)
    ensures WindowReads(hunk, WindowText(hunk, anchorText, start, end), start, end, anchorText)
  {
    hide IsCut, MarkerReads, Marker, TruncatePromptText, SplitLines;
    var anchor := hunk.anchorLineIndex;
    var header := TruncatePromptText(hunk.header, MAX_HEADER_BYTES, "DIFFDASH_HUNK_HEADER_TRUNCATED");
    var marker, lines := Marker(hunk, start, end), hunk.lines[anchor := anchorText][start..end];
    MarkerIsRead(hunk, start, end);
    assert lines == hunk.lines[start..anchor] + [anchorText] + hunk.lines[anchor + 1..end];
    assert [hunk.identity, header, marker] + lines
        == [hunk.identity, header, marker] + hunk.lines[start..anchor] + [anchorText] + hunk.lines[anchor + 1..end];
    JoinedReadsBack([hunk.identity, header, marker] + lines);
  }

  /** The anchor line is cut to what the other lines of a window with nothing else leave for it. */
  ghost predicate AnchorReads(hunk: Hunk, maxBytes: nat, anchorText: string)
    requires hunk.Valid()
  {
    var anchor := hunk.anchorLineIndex;
    exists header, marker ::
      && IsCut(hunk.header, 1024, "DIFFDASH_HUNK_HEADER_TRUNCATED", header)
      && MarkerReads(marker, hunk.omittedBefore + anchor, hunk.omittedAfter + |hunk.lines| - anchor - 1)
      && var used := ByteLength(hunk.identity) + 1 + ByteLength(header) + 1 + ByteLength(marker) + 1;
         IsCut(hunk.lines[anchor], if used <= maxBytes then maxBytes - used else 0,
               "DIFFDASH_ANCHOR_PATCH_LINE_TRUNCATED", anchorText)
  }

  lemma OneLineSlice(hunk: Hunk, start: nat, line: string)
    requires start < |hunk.lines|
    ensures
      var header := TruncatePromptText(hunk.header, MAX_HEADER_BYTES, "DIFFDASH_HUNK_HEADER_TRUNCATED");
      ByteLength(RenderSlice(hunk, start, start + 1, [line]))
        == ByteLength(hunk.identity) + 1 + ByteLength(header) + 1 + ByteLength(Marker(hunk, start, start + 1)) + 1
           + ByteLength(line)
  {
    hide ByteLength, IsCut, Marker, TruncatePromptText;
    var header := TruncatePromptText(hunk.header, MAX_HEADER_BYTES, "DIFFDASH_HUNK_HEADER_TRUNCATED");
    var first := [hunk.identity, header, Marker(hunk, start, start + 1)];
    JoinedBytes(first + [line]);
    TotalBytesConcat(first, [line]);
    ThreeLines(hunk.identity, header, Marker(hunk, start, start + 1));
    OneLineBytes(line);
  }

  lemma AnchorIsRead(hunk: Hunk, maxBytes: nat)
    requires hunk.Valid()
    ensures AnchorReads(hunk, maxBytes, AnchorText(hunk, maxBytes))
  {
    hide ByteLength, IsCut, Marker, MarkerReads, RenderSlice, TruncatePromptText;
    var anchor := hunk.anchorLineIndex;
    var header := TruncatePromptText(hunk.header, MAX_HEADER_BYTES, "DIFFDASH_HUNK_HEADER_TRUNCATED");
    var line, marker := hunk.lines[anchor], Marker(hunk, anchor, anchor + 1);
    var used := ByteLength(hunk.identity) + 1 + ByteLength(header) + 1 + ByteLength(marker) + 1;
    var room := if used <= maxBytes then maxBytes - used else 0;
    OneLineSlice(hunk, anchor, line);
    OneLineSlice(hunk, anchor, "");
    OneLineBytes("");
    MarkerIsRead(hunk, anchor, anchor + 1);
    assert AnchorText(hunk, maxBytes) == TruncatePromptText(line, room, "DIFFDASH_ANCHOR_PATCH_LINE_TRUNCATED");
  }
}
