/** The header pattern the diff worker searches for, read as a predicate on lines.

    The worker compiles `^diff --git a\/(.+) b\/(.+)$` with the flags `g` and `m`, so `^` and `$`
    hold at every line terminator of section 12.3 of ECMA-262 and `.` matches no terminator. */
module HeaderLines {
  import opened Wrappers

  type Text = string

  const HEADER_PREFIX: Text := "diff --git a/"
  const HEADER_MIDDLE: Text := " b/"

  predicate IsTerminator(c: char) {
    c == '\n' || c == '\r' || c == '\U{2028}' || c == '\U{2029}'
  }

  /** `^` with the `m` flag. */
  predicate AtLineStart(t: Text, i: nat)
    requires i <= |t|
  {
    i == 0 || IsTerminator(t[i - 1])
  }

  /** The index of the first terminator at or after `i`, or the length of the text: where `$` holds. */
  function LineEnd(t: Text, i: nat): (j: nat)
    requires i <= |t|
    ensures i <= j <= |t|
    ensures j < |t| ==> IsTerminator(t[j])
    ensures forall k :: i <= k < j ==> !IsTerminator(t[k])
    decreases |t| - i
  {
    if i == |t| || IsTerminator(t[i]) then i else LineEnd(t, i + 1)
  }

  /** Splitting a line into prefix, one or more characters, middle, one or more characters. */
  predicate HeaderSplitAt(line: Text, k: nat) {
    && |HEADER_PREFIX| < k
    && k + |HEADER_MIDDLE| < |line|
    && line[k..k + |HEADER_MIDDLE|] == HEADER_MIDDLE
  }

  predicate IsHeaderLine(line: Text) {
    && HEADER_PREFIX <= line
    && exists k: nat | k < |line| :: HeaderSplitAt(line, k)
  }

  predicate HeaderAt(t: Text, i: nat): (header: bool)
    ensures header ==> i + |HEADER_PREFIX| < |t| && AtLineStart(t, i)
  {
    && i <= |t|
    && AtLineStart(t, i)
    && IsHeaderLine(t[i..LineEnd(t, i)])
  }

  /** The first match at or after `from`, which is what `exec` reports for `lastIndex == from`. */
  predicate IsFirstHeader(t: Text, from: nat, i: nat) {
    && from <= i
    && HeaderAt(t, i)
    && forall k :: from <= k < i ==> !HeaderAt(t, k)
  }

  ghost predicate NoHeaderFrom(t: Text, from: nat) {
    forall k :: from <= k ==> !HeaderAt(t, k)
  }

  /** A header line stays a header line when text is appended to it. */
  lemma HeaderLineExtends(line: Text, more: Text)
    requires IsHeaderLine(line)
    ensures IsHeaderLine(line + more)
  {
    var k: nat :| k < |line| && HeaderSplitAt(line, k);
    assert (line + more)[k..k + |HEADER_MIDDLE|] == line[k..k + |HEADER_MIDDLE|];
    assert HeaderSplitAt(line + more, k);
  }

  /** Appending text moves the end of a line only when the line was still open. */
  lemma LineEndAppend(t: Text, i: nat, more: Text)
    requires i <= |t|
    ensures LineEnd(t, i) < |t| ==> LineEnd(t + more, i) == LineEnd(t, i)
    ensures LineEnd(t, i) == |t| ==> LineEnd(t + more, i) >= |t|
  {
    var whole := t + more;
    var j := LineEnd(t, i);
    assert forall k :: 0 <= k < |t| ==> whole[k] == t[k];
    var j' := LineEnd(whole, i);
    if j < |t| {
      assert IsTerminator(whole[j]);
    }
  }

  /** A header that is already visible, even on a line still open, stays one when text arrives. */
  lemma HeaderSurvivesAppend(t: Text, i: nat, more: Text)
    requires HeaderAt(t, i)
    ensures HeaderAt(t + more, i)
  {
    var whole := t + more;
    LineEndAppend(t, i, more);
    var j, j' := LineEnd(t, i), LineEnd(whole, i);
    assert j <= j';
    assert whole[i..j'] == t[i..j] + whole[j..j'];
    HeaderLineExtends(t[i..j], whole[j..j']);
  }

  /** A line that is already closed by a terminator never becomes a header later. */
  lemma ClosedLineDecided(t: Text, i: nat, more: Text)
    requires i <= |t| && LineEnd(t, i) < |t|
    ensures HeaderAt(t + more, i) == HeaderAt(t, i)
  {
    LineEndAppend(t, i, more);
    var whole := t + more;
    assert whole[i..LineEnd(t, i)] == t[i..LineEnd(t, i)];
    assert i > 0 ==> whole[i - 1] == t[i - 1];
  }

  /** A later line start closes every earlier line. */
  lemma EarlierLineClosed(t: Text, i: nat, p: nat)
    requires i < p <= |t| && AtLineStart(t, p)
    ensures LineEnd(t, i) < p
  {
  }

  lemma LineEndShift(t: Text, p: nat, i: nat)
    requires p + i <= |t|
    ensures LineEnd(t, p + i) == p + LineEnd(t[p..], i)
  {
    var s := t[p..];
    var j := LineEnd(s, i);
    assert j < |s| ==> IsTerminator(t[p + j]);
    forall k | p + i <= k < p + j
      ensures !IsTerminator(t[k])
    {
      assert !IsTerminator(s[k - p]);
    }
  }

  /** Dropping everything before a line start shifts the headers and changes none of them. */
  lemma HeaderShift(t: Text, p: nat, i: nat)
    requires p <= |t| && AtLineStart(t, p)
    ensures HeaderAt(t[p..], i) == HeaderAt(t, p + i)
  {
    var s := t[p..];
    if i <= |s| {
      assert i > 0 ==> s[i - 1] == t[p + i - 1];
      LineEndShift(t, p, i);
      assert s[i..LineEnd(s, i)] == t[p + i..LineEnd(t, p + i)];
    }
  }

  /** Cutting the text at a terminator keeps the headers before the cut. */
  lemma HeaderBeforeCut(t: Text, cut: nat, i: nat)
    requires i <= cut < |t| && IsTerminator(t[cut])
    ensures HeaderAt(t[..cut], i) == HeaderAt(t, i)
  {
    var s := t[..cut];
    assert t == s + t[cut..];
    LineEndAppend(s, i, t[cut..]);
    var j, j' := LineEnd(s, i), LineEnd(t, i);
    assert j' == j by {
      if j == |s| {
        assert IsTerminator(t[cut]);
      }
    }
    assert s[i..j] == t[i..j];
  }

  /** The regular expression search: the first header at or after `from`, if there is one. */
  function FirstHeader(t: Text, from: nat): (r: Option<nat>)
    ensures r.None? ==> NoHeaderFrom(t, from)
    ensures r.Some? ==> IsFirstHeader(t, from, r.value)
    decreases if from <= |t| then |t| - from + 1 else 0
  {
    if |t| < from then None
    else if HeaderAt(t, from) then Some(from)
    else FirstHeader(t, from + 1)
  }

  lemma FirstHeaderIs(t: Text, from: nat, i: nat)
    requires IsFirstHeader(t, from, i)
    ensures FirstHeader(t, from) == Some(i)
  {
    var r := FirstHeader(t, from);
    assert r.Some?;
  }

  /** What the search found in a prefix of the input is what it finds in the whole input. */
  lemma FirstHeaderStable(t: Text, from: nat, i: nat, more: Text)
    requires IsFirstHeader(t, from, i)
    ensures IsFirstHeader(t + more, from, i)
  {
    HeaderSurvivesAppend(t, i, more);
    forall k | from <= k < i
      ensures !HeaderAt(t + more, k)
    {
      EarlierLineClosed(t, k, i);
      ClosedLineDecided(t, k, more);
    }
  }

  /* What a header is, in so many characters */

  predicate EndsLine(c: char) {
    c in ['\n', '\r', '\U{2028}', '\U{2029}']
  }

  predicate OnOneLine(t: Text) {
    forall k :: 0 <= k < |t| ==> !EndsLine(t[k])
  }

  /** A header line with the names in it, of at least one character each. */
  predicate NamesFiles(line: Text, oldName: Text, newName: Text) {
    line == "diff --git a/" + oldName + " b/" + newName && oldName != "" && newName != "" && OnOneLine(line)
  }

  /** The text before and after a header line. */
  ghost predicate HeaderReads(t: Text, i: nat, before: Text, oldName: Text, newName: Text, after: Text) {
    && t == before + ("diff --git a/" + oldName + " b/" + newName) + after
    && |before| == i
    && NamesFiles("diff --git a/" + oldName + " b/" + newName, oldName, newName)
    && (before == "" || EndsLine(before[|before| - 1]))
    && (after == "" || EndsLine(after[0]))
  }

  /** A position of the text where a line with such a header starts. */
  ghost predicate IsGitHeader(t: Text, i: nat) {
    exists before, oldName, newName, after :: HeaderReads(t, i, before, oldName, newName, after)
  }

  lemma HeaderLineIsRead(line: Text) returns (oldName: Text, newName: Text)
    requires IsHeaderLine(line) && OnOneLine(line)
    ensures NamesFiles(line, oldName, newName)
  {
    var k: nat :| k < |line| && HeaderSplitAt(line, k);
    oldName, newName := line[|HEADER_PREFIX|..k], line[k + |HEADER_MIDDLE|..];
    assert line[..|HEADER_PREFIX|] == HEADER_PREFIX;
    assert line == HEADER_PREFIX + oldName + HEADER_MIDDLE + newName;
  }

  lemma ReadLineIsHeader(line: Text, oldName: Text, newName: Text)
    requires NamesFiles(line, oldName, newName)
    ensures IsHeaderLine(line)
  {
    var k := |HEADER_PREFIX| + |oldName|;
    assert line == HEADER_PREFIX + oldName + HEADER_MIDDLE + newName;
    assert line[k..k + |HEADER_MIDDLE|] == HEADER_MIDDLE;
    assert HeaderSplitAt(line, k);
  }

  lemma HeaderIsRead(t: Text, i: nat)
    requires HeaderAt(t, i)
    ensures IsGitHeader(t, i)
  {
    hide IsHeaderLine, NamesFiles;
    var end := LineEnd(t, i);
    var oldName, newName := HeaderLineIsRead(t[i..end]);
    LineIs(t[i..end], oldName, newName);
    assert t == t[..i] + t[i..end] + t[end..];
    assert HeaderReads(t, i, t[..i], oldName, newName, t[end..]);
  }

  lemma LineIs(line: Text, oldName: Text, newName: Text)
    requires NamesFiles(line, oldName, newName)
    ensures line == "diff --git a/" + oldName + " b/" + newName && OnOneLine(line)
  {
  }

  lemma ReadIsHeader(t: Text, i: nat, before: Text, oldName: Text, newName: Text, after: Text)
    requires HeaderReads(t, i, before, oldName, newName, after)
    ensures HeaderAt(t, i)
  {
    hide IsHeaderLine, NamesFiles;
    var line := "diff --git a/" + oldName + " b/" + newName;
    ReadLineIsHeader(line, oldName, newName);
    LineIs(line, oldName, newName);
    LineInside(t, before, line, after);
  }

  lemma LineInside(t: Text, before: Text, line: Text, after: Text)
    requires t == before + line + after && OnOneLine(line) && (after == "" || EndsLine(after[0]))
    ensures LineEnd(t, |before|) == |before| + |line| && t[|before|..|before| + |line|] == line
  {
    var end := |before| + |line|;
    assert t[|before|..end] == line;
    assert end < |t| ==> t[end] == after[0];
    assert forall k :: |before| <= k < end ==> t[k] == line[k - |before|];
  }

  /** The search finds exactly the lines `diff --git a/… b/…`. */
  lemma HeaderExactly(t: Text, i: nat)
    ensures HeaderAt(t, i) <==> IsGitHeader(t, i)
  {
    hide HeaderAt, HeaderReads;
    if HeaderAt(t, i) {
      HeaderIsRead(t, i);
    }
    if IsGitHeader(t, i) {
      var before, oldName, newName, after :| HeaderReads(t, i, before, oldName, newName, after);
      ReadIsHeader(t, i, before, oldName, newName, after);
    }
  }
}
