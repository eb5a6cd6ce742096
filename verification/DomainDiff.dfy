/** How the domain parser groups a diff into files, and when the streaming worker agrees with it.

    `parseUnifiedDiff` splits at newlines only and matches its header pattern without the `m` flag,
    so a header line is one that contains no other terminator either. */
module DomainDiff {
  import opened Wrappers
  import opened HeaderLines
  import opened DiffSplit
  import opened DiffStream
  import opened TextLines

  predicate IsDomainHeader(line: Text) {
    IsHeaderLine(line) && LineEnd(line, 0) == |line|
  }

  /** The lines before the first header, and the lines of each file from its header on. */
  function Grouped(lines: seq<Text>): (seq<Text>, seq<seq<Text>>) {
    if lines == [] then ([], []) else
      var (before, groups) := Grouped(lines[1..]);
      if IsDomainHeader(lines[0]) then ([], [[lines[0]] + before] + groups)
      else ([lines[0]] + before, groups)
  }

  function Groups(lines: seq<Text>): seq<seq<Text>> {
    Grouped(lines).1
  }

  /** Every header line is preceded and followed by a newline or an end of the text. */
  ghost predicate NewlineBounded(t: Text) {
    forall i | HeaderAt(t, i) :: NewlineBoundedAt(t, i)
  }

  predicate NewlineBoundedAt(t: Text, i: nat)
    requires i <= |t|
  {
    && (i > 0 ==> t[i - 1] == '\n')
    && (LineEnd(t, i) < |t| ==> t[LineEnd(t, i)] == '\n')
  }

  /** Where a line of the split text sits in the text. */
  ghost predicate LineAt(t: Text, offset: nat, line: Text) {
    && offset + |line| <= |t|
    && t[offset..offset + |line|] == line
    && (offset > 0 ==> t[offset - 1] == '\n')
    && (offset + |line| < |t| ==> t[offset + |line|] == '\n')
  }

  lemma {:induction false} LineHasOffset(t: Text, k: nat) returns (offset: nat)
    requires k < |SplitLines(t)|
    ensures LineAt(t, offset, SplitLines(t)[k])
    ensures k > 0 <==> offset > 0
  {
    offset := 0;
    if t != "" {
      var rest := t[1..];
      if t[0] == '\n' && k > 0 {
        var inner := LineHasOffset(rest, k - 1);
        offset := inner + 1;
        LineAtShift(t, inner, SplitLines(rest)[k - 1]);
      } else if t[0] != '\n' && k > 0 {
        var inner := LineHasOffset(rest, k);
        offset := inner + 1;
        LineAtShift(t, inner, SplitLines(rest)[k]);
      } else if t[0] != '\n' {
        var inner := LineHasOffset(rest, 0);
        var line := SplitLines(rest)[0];
        assert t[..|line| + 1] == [t[0]] + rest[..|line|];
      }
    }
  }

  lemma LineAtShift(t: Text, inner: nat, line: Text)
    requires t != "" && LineAt(t[1..], inner, line)
    requires inner > 0 || t[0] == '\n'
    ensures LineAt(t, inner + 1, line)
  {
    var rest := t[1..];
    assert t[inner + 1..inner + 1 + |line|] == rest[inner..inner + |line|];
    assert inner > 0 ==> t[inner] == rest[inner - 1];
  }

  /** A line the domain parser takes for a header is one the worker finds. */
  lemma DomainHeaderIsHeader(t: Text, offset: nat, line: Text)
    requires LineAt(t, offset, line) && IsDomainHeader(line)
    ensures HeaderAt(t, offset)
  {
    hide IsHeaderLine;
    var j := LineEnd(t, offset);
    assert forall k :: 0 <= k < |line| ==> t[offset + k] == line[k] && !IsTerminator(line[k]);
    assert j == offset + |line| by {
      assert forall k :: offset <= k < offset + |line| ==> t[k] == line[k - offset];
    }
  }

  /** A header the worker finds is a header line of the domain parser if newlines enclose it. */
  lemma BoundedHeaderIsDomainHeader(t: Text)
    requires HeaderAt(t, 0) && NewlineBoundedAt(t, 0)
    ensures IsDomainHeader(SplitLines(t)[0])
  {
    hide IsHeaderLine;
    var line := SplitLines(t)[0];
    var offset := LineHasOffset(t, 0);
    assert line == t[..|line|];
    assert forall k :: 0 <= k < |line| ==> line[k] == t[k];
    NoNewlineInLines(t);
    assert line in SplitLines(t) && '\n' !in line;
    assert |line| < |t| ==> IsTerminator(t[|line|]);
    assert LineEnd(t, 0) == |line|;
    assert LineEnd(line, 0) == |line|;
    assert t[0..|line|] == line;
  }

  /** The lines of one patch are one group. */
  lemma PatchIsOneGroup(patch: Text)
    requires SingleHeaderPatch(patch) && NewlineBoundedAt(patch, 0)
    ensures var lines := SplitLines(patch);
            IsDomainHeader(lines[0]) && forall k :: 1 <= k < |lines| ==> !IsDomainHeader(lines[k])
  {
    hide HeaderAt, IsHeaderLine;
    BoundedHeaderIsDomainHeader(patch);
    var lines := SplitLines(patch);
    forall k | 1 <= k < |lines|
      ensures !IsDomainHeader(lines[k])
    {
      var offset := LineHasOffset(patch, k);
      if IsDomainHeader(lines[k]) {
        DomainHeaderIsHeader(patch, offset, lines[k]);
      }
    }
  }

  lemma {:induction false} GroupsSkip(lines: seq<Text>, rest: seq<Text>)
    requires forall k :: 0 <= k < |lines| ==> !IsDomainHeader(lines[k])
    requires rest != [] ==> IsDomainHeader(rest[0])
    ensures Grouped(lines + rest) == (lines, Groups(rest))
  {
    hide IsDomainHeader;
    if lines == [] {
      assert lines + rest == rest;
    } else {
      assert (lines + rest)[1..] == lines[1..] + rest;
      GroupsSkip(lines[1..], rest);
      assert [lines[0]] + lines[1..] == lines;
    }
  }

  lemma GroupThenRest(lines: seq<Text>, rest: seq<Text>)
    requires lines != [] && IsDomainHeader(lines[0])
    requires forall k :: 1 <= k < |lines| ==> !IsDomainHeader(lines[k])
    requires rest != [] ==> IsDomainHeader(rest[0])
    ensures Groups(lines + rest) == [lines] + Groups(rest)
  {
    hide IsDomainHeader;
    assert (lines + rest)[1..] == lines[1..] + rest;
    GroupsSkip(lines[1..], rest);
    assert [lines[0]] + lines[1..] == lines;
  }

  lemma NewlineBoundedShift(t: Text, p: nat)
    requires NewlineBounded(t) && HeaderAt(t, p)
    ensures NewlineBounded(t[p..])
  {
    hide IsHeaderLine;
    forall i: nat | HeaderAt(t[p..], i)
      ensures NewlineBoundedAt(t[p..], i)
    {
      HeaderShift(t, p, i);
      assert NewlineBoundedAt(t, p + i);
      LineEndShift(t, p, i);
    }
  }

  /** Under the condition, the text of one patch is closed by a newline and is one group. */
  lemma {:induction false} PatchesAreGroups(t: Text)
    requires HeaderAt(t, 0) && NewlineBounded(t)
    ensures IsDomainHeader(SplitLines(t)[0])
    ensures Groups(SplitLines(t)) == LinesOfEach(Patches(t))
    decreases |t|
  {
    hide HeaderAt, IsDomainHeader;
    match FirstHeader(t, 1)
    case None =>
      assert NewlineBoundedAt(t, 0);
      PatchIsOneGroup(t);
      GroupThenRest(SplitLines(t), []);
      assert SplitLines(t) + [] == SplitLines(t);
    case Some(next) =>
      HeaderShift(t, next, 0);
      NewlineBoundedShift(t, next);
      PatchesAreGroups(t[next..]);
      CutPatchIsSingle(t, next);
      var patch, rest := t[..next - 1], t[next..];
      assert NewlineBoundedAt(t, next) && NewlineBoundedAt(t, 0);
      LineEndCut(t, next - 1);
      PatchIsOneGroup(patch);
      SplitLinesConcat(patch, rest);
      assert t == patch + "\n" + rest;
      GroupThenRest(SplitLines(patch), SplitLines(rest));
  }

  lemma LineEndCut(t: Text, cut: nat)
    requires cut < |t| && IsTerminator(t[cut]) && NewlineBoundedAt(t, 0)
    ensures NewlineBoundedAt(t[..cut], 0)
  {
    assert forall k :: 0 <= k < cut ==> t[..cut][k] == t[k];
  }

  lemma NoDomainHeaders(preamble: Text)
    requires NoHeaderFrom(preamble, 0)
    ensures forall k :: 0 <= k < |SplitLines(preamble)| ==> !IsDomainHeader(SplitLines(preamble)[k])
  {
    hide HeaderAt, IsDomainHeader;
    var lines := SplitLines(preamble);
    forall k | 0 <= k < |lines|
      ensures !IsDomainHeader(lines[k])
    {
      var offset := LineHasOffset(preamble, k);
      if IsDomainHeader(lines[k]) {
        DomainHeaderIsHeader(preamble, offset, lines[k]);
      }
    }
  }

  /** Under the condition, the worker cuts the text exactly where the domain parser does. */
  lemma BoundedGroups(t: Text)
    requires NewlineBounded(t)
    ensures Groups(SplitLines(t)) == LinesOfEach(OneShot(t))
  {
    hide HeaderAt, IsDomainHeader;
    match FirstHeader(t, 0)
    case None =>
      NoDomainHeaders(t);
      GroupsSkip(SplitLines(t), []);
      assert SplitLines(t) + [] == SplitLines(t);
    case Some(first) =>
      HeaderShift(t, first, 0);
      BoundedGroupsFrom(t, first);
  }

  lemma BoundedGroupsFrom(t: Text, first: nat)
    requires NewlineBounded(t) && IsFirstHeader(t, 0, first) && HeaderAt(t[first..], 0)
    ensures Groups(SplitLines(t)) == LinesOfEach(Patches(t[first..]))
  {
    hide HeaderAt, IsDomainHeader;
    NewlineBoundedShift(t, first);
    PatchesAreGroups(t[first..]);
    assert NewlineBoundedAt(t, first);
    if first == 0 {
      assert t[first..] == t;
    } else {
      NoHeaderBeforeNext(t, 0, first);
      PreambleDropped(t[..first - 1], t[first..]);
      assert t == t[..first - 1] + "\n" + t[first..];
    }
  }

  lemma PreambleDropped(preamble: Text, rest: Text)
    requires NoHeaderFrom(preamble, 0) && IsDomainHeader(SplitLines(rest)[0])
    ensures Groups(SplitLines(preamble + "\n" + rest)) == Groups(SplitLines(rest))
  {
    hide HeaderAt, IsDomainHeader;
    NoDomainHeaders(preamble);
    SplitLinesConcat(preamble, rest);
    GroupsSkip(SplitLines(preamble), SplitLines(rest));
  }

  ghost predicate IsGitHeaderLine(line: Text) {
    exists oldName, newName :: NamesFiles(line, oldName, newName)
  }

  /** The domain parser looks for the same lines. */
  lemma DomainHeaderExactly(line: Text)
    ensures IsDomainHeader(line) <==> IsGitHeaderLine(line)
  {
    hide IsHeaderLine, NamesFiles;
    if IsDomainHeader(line) {
      var oldName, newName := HeaderLineIsRead(line);
    }
    if IsGitHeaderLine(line) {
      var oldName, newName :| NamesFiles(line, oldName, newName);
      ReadLineIsHeader(line, oldName, newName);
      LineIs(line, oldName, newName);
    }
  }

  /** A file is its header line and all lines up to the next header line or the end. */
  ghost predicate IsGroup(group: seq<Text>) {
    && group != [] && IsDomainHeader(group[0])
    && forall k :: 1 <= k < |group| ==> !IsDomainHeader(group[k])
  }

  /** The groups, put together, are the lines from the first header line on. */
  lemma {:induction false} GroupsKeepLines(lines: seq<Text>)
    ensures Grouped(lines).0 + Flatten(Groups(lines)) == lines
    ensures forall group :: group in Groups(lines) ==> IsGroup(group)
    ensures forall line :: line in Grouped(lines).0 ==> !IsDomainHeader(line)
  {
    hide IsDomainHeader;
    if lines != [] {
      GroupsKeepLines(lines[1..]);
      var (before, groups) := Grouped(lines[1..]);
      assert lines == [lines[0]] + lines[1..];
      if IsDomainHeader(lines[0]) {
        assert ([[lines[0]] + before] + groups)[1..] == groups;
        assert IsGroup([lines[0]] + before);
      }
    }
  }

  function Newlines(n: nat): seq<char> {
    if n == 0 then [] else ['\n'] + Newlines(n - 1)
  }

  lemma {:induction false} FlattenRejoins(patches: seq<Text>)
    requires patches != []
    ensures |Newlines(|patches| - 1)| == |patches| - 1
    ensures Flatten(LinesOfEach(patches)) != []
    ensures JoinLines(Flatten(LinesOfEach(patches))) == Rejoined(patches, Newlines(|patches| - 1))
  {
    var lines := LinesOfEach(patches);
    JoinSplitLines(patches[0]);
    if |patches| == 1 {
      assert Flatten(lines) == lines[0] + [] == lines[0];
    } else {
      FlattenRejoins(patches[1..]);
      JoinLinesConcat(lines[0], Flatten(lines[1..]));
      assert Newlines(|patches| - 1)[1..] == Newlines(|patches| - 2);
    }
  }

  lemma {:induction false} RejoinedInjective(patches: seq<Text>, r1: seq<char>, r2: seq<char>)
    requires patches != [] && |r1| == |r2| == |patches| - 1
    ensures |Rejoined(patches, r1)| == |Rejoined(patches, r2)|
    ensures Rejoined(patches, r1) == Rejoined(patches, r2) ==> r1 == r2
  {
    if r1 != [] {
      RejoinedInjective(patches[1..], r1[1..], r2[1..]);
      var t1, t2 := Rejoined(patches, r1), Rejoined(patches, r2);
      var n := |patches[0]|;
      assert t1[n] == r1[0] && t2[n] == r2[0];
      assert t1[n + 1..] == Rejoined(patches[1..], r1[1..]);
      assert t2[n + 1..] == Rejoined(patches[1..], r2[1..]);
      assert r1 == [r1[0]] + r1[1..] && r2 == [r2[0]] + r2[1..];
    }
  }

  /** If newlines alone separate the patches and every patch opens with a line of its own, every
      header is bounded by newlines. */
  lemma {:induction false} SeparatedByNewlines(t: Text)
    requires HeaderAt(t, 0)
    requires forall c :: c in Removed(t) ==> c == '\n'
    requires forall patch :: patch in Patches(t) ==> IsDomainHeader(SplitLines(patch)[0])
    ensures NewlineBounded(t)
    decreases |t|
  {
    hide HeaderAt, IsDomainHeader;
    match FirstHeader(t, 1)
    case None =>
      FirstLineBounded(t, t);
      assert t[..|t|] == t;
    case Some(next) =>
      HeaderShift(t, next, 0);
      var patch, rest := t[..next - 1], t[next..];
      assert Removed(t) == [t[next - 1]] + Removed(rest);
      assert Patches(t) == [patch] + Patches(rest);
      forall c | c in Removed(rest)
        ensures c == '\n'
      {
        assert c in Removed(t);
      }
      SeparatedByNewlines(rest);
      assert patch in Patches(t) && t[next - 1] in Removed(t);
      FirstLineBounded(t, patch);
      BoundedFrom(t, next);
  }

  lemma BoundedFrom(t: Text, p: nat)
    requires HeaderAt(t, p) && NewlineBounded(t[p..])
    requires p > 0 ==> t[p - 1] == '\n'
    ensures forall i: nat | p <= i && HeaderAt(t, i) :: NewlineBoundedAt(t, i)
  {
    hide IsHeaderLine;
    forall i: nat | p <= i && HeaderAt(t, i)
      ensures NewlineBoundedAt(t, i)
    {
      HeaderShift(t, p, i - p);
      LineEndShift(t, p, i - p);
      assert NewlineBoundedAt(t[p..], i - p);
    }
  }

  lemma FirstLineBounded(t: Text, patch: Text)
    requires |patch| <= |t| && t[..|patch|] == patch
    requires |patch| < |t| ==> t[|patch|] == '\n'
    requires IsDomainHeader(SplitLines(patch)[0])
    ensures NewlineBoundedAt(t, 0)
  {
    hide IsHeaderLine;
    var line := SplitLines(patch)[0];
    var offset := LineHasOffset(patch, 0);
    assert line == patch[..|line|];
    assert forall k :: 0 <= k < |line| ==> t[k] == line[k] && !IsTerminator(line[k]);
    assert LineEnd(t, 0) >= |line|;
    assert |line| < |t| ==> t[|line|] == '\n';
    assert LineEnd(t, 0) == |line|;
  }

  /** The text of the last lines sits at the end, behind a newline unless it is everything. */
  lemma JoinedTail(t: Text, before: seq<Text>, lines: seq<Text>, first: nat)
    requires lines != [] && SplitLines(t) == before + lines
    requires |JoinLines(lines)| + first == |t|
    ensures t[first..] == JoinLines(lines)
    ensures first > 0 ==> t[first - 1] == '\n'
  {
    JoinSplitLines(t);
    if before == [] {
      assert before + lines == lines;
    } else {
      JoinLinesConcat(before, lines);
      assert t == JoinLines(before) + "\n" + JoinLines(lines);
    }
  }

  /** Only then: if the groups agree, every header is bounded by newlines. */
  lemma AgreementNeedsNewlines(t: Text)
    requires Groups(SplitLines(t)) == LinesOfEach(OneShot(t))
    ensures NewlineBounded(t)
  {
    hide HeaderAt, IsDomainHeader, Groups, LinesOfEach, SplitLines;
    match FirstHeader(t, 0)
    case None =>
    case Some(first) =>
      HeaderShift(t, first, 0);
      AgreementFrom(t, first);
  }

  lemma AgreementFrom(t: Text, first: nat)
    requires IsFirstHeader(t, 0, first) && HeaderAt(t[first..], 0)
    requires Groups(SplitLines(t)) == LinesOfEach(Patches(t[first..]))
    ensures NewlineBounded(t)
  {
    hide HeaderAt, IsDomainHeader, Groups, LinesOfEach, SplitLines;
    AgreementSeparators(t, first);
    AgreementHeaders(t, Patches(t[first..]));
    SeparatedByNewlines(t[first..]);
    BoundedFrom(t, first);
  }

  lemma AgreementSeparators(t: Text, first: nat)
    requires first <= |t| && HeaderAt(t[first..], 0)
    requires Groups(SplitLines(t)) == LinesOfEach(Patches(t[first..]))
    ensures first > 0 ==> t[first - 1] == '\n'
    ensures forall c :: c in Removed(t[first..]) ==> c == '\n'
  {
    hide HeaderAt, IsDomainHeader;
    var rest := t[first..];
    var patches := Patches(rest);
    GroupsKeepLines(SplitLines(t));
    FlattenRejoins(patches);
    PatchesRejoin(rest);
    RejoinedInjective(patches, Removed(rest), Newlines(|patches| - 1));
    JoinedTail(t, Grouped(SplitLines(t)).0, Flatten(Groups(SplitLines(t))), first);
    AllNewlines(|patches| - 1);
  }

  lemma AgreementHeaders(t: Text, patches: seq<Text>)
    requires Groups(SplitLines(t)) == LinesOfEach(patches)
    ensures forall patch :: patch in patches ==> IsDomainHeader(SplitLines(patch)[0])
  {
    hide IsDomainHeader;
    GroupsKeepLines(SplitLines(t));
    forall patch | patch in patches
      ensures IsDomainHeader(SplitLines(patch)[0])
    {
      var k: nat :| k < |patches| && patches[k] == patch;
      LinesOfEachAt(patches, k);
      assert SplitLines(patch) in Groups(SplitLines(t));
    }
  }

  lemma AllNewlines(n: nat)
    ensures forall c :: c in Newlines(n) ==> c == '\n'
  {
  }

  /** The worker cuts a text into the files of the domain parser if and only if newlines bound
      every header line: another terminator beside a header makes the two disagree. */
  lemma WorkerAgreesWithDomainParser(t: Text)
    ensures LinesOfEach(OneShot(t)) == Groups(SplitLines(t)) <==> NewlineBounded(t)
  {
    hide HeaderAt, IsDomainHeader;
    if NewlineBounded(t) {
      BoundedGroups(t);
    }
    if LinesOfEach(OneShot(t)) == Groups(SplitLines(t)) {
      AgreementNeedsNewlines(t);
    }
  }

  /** The files of the domain parser; a group whose paths are not acceptable gives none. */
  function DomainFiles<F>(groups: seq<seq<Text>>, toFile: seq<Text> -> Option<F>): seq<F> {
    if groups == [] then [] else
      (match toFile(groups[0]) case None => [] case Some(file) => [file])
      + DomainFiles(groups[1..], toFile)
  }

  /** `parseUnifiedDiff(patch).files[0]` */
  function FirstFile<F>(patch: Text, toFile: seq<Text> -> Option<F>): Option<F> {
    var files := DomainFiles(Groups(SplitLines(patch)), toFile);
    if files == [] then None else Some(files[0])
  }

  /** A patch whose header line another terminator closes has no file: the stream fails there. */
  lemma {:induction false} OtherTerminatorFails<F>(patch: Text, toFile: seq<Text> -> Option<F>)
    requires SingleHeaderPatch(patch) && !NewlineBoundedAt(patch, 0)
    ensures FirstFile(patch, toFile).None?
  {
    hide HeaderAt, IsHeaderLine;
    var lines := SplitLines(patch);
    forall k | 0 <= k < |lines|
      ensures !IsDomainHeader(lines[k])
    {
      var offset := LineHasOffset(patch, k);
      assert forall i :: 0 <= i < |lines[k]| ==> patch[offset + i] == lines[k][i];
      if IsDomainHeader(lines[k]) {
        DomainHeaderIsHeader(patch, offset, lines[k]);
      }
    }
    GroupsSkip(lines, []);
    assert lines + [] == lines;
  }

  lemma {:induction false} PatchFile<F>(patch: Text, toFile: seq<Text> -> Option<F>)
    requires SingleHeaderPatch(patch) && NewlineBoundedAt(patch, 0)
    ensures FirstFile(patch, toFile) == toFile(SplitLines(patch))
  {
    hide HeaderAt, IsDomainHeader;
    PatchIsOneGroup(patch);
    GroupThenRest(SplitLines(patch), []);
    assert SplitLines(patch) + [] == SplitLines(patch);
    assert DomainFiles<F>([], toFile) == [];
  }

  /** What the stream makes of one patch: the file of its lines, if a newline or the end of the patch
      closes its header line, and nothing if another terminator does. */
  lemma {:induction false} FirstFileExactly<F>(patch: Text, toFile: seq<Text> -> Option<F>)
    requires SingleHeaderPatch(patch)
    ensures FirstFile(patch, toFile) == if NewlineBoundedAt(patch, 0) then toFile(SplitLines(patch)) else None
  {
    hide HeaderAt, FirstFile;
    if NewlineBoundedAt(patch, 0) {
      PatchFile(patch, toFile);
    } else {
      OtherTerminatorFails(patch, toFile);
    }
  }

  /** The stream completes if and only if a newline or the end of its patch closes every header line
      and every patch gives a file; a terminator before a header does not matter to it. */
  lemma {:induction false} StreamCompletesExactly<F>(t: Text, toFile: seq<Text> -> Option<F>)
    ensures
      |ParsedPrefix(OneShot(t), patch => FirstFile(patch, toFile))| == |OneShot(t)| <==>
      forall patch :: patch in OneShot(t) ==> NewlineBoundedAt(patch, 0) && toFile(SplitLines(patch)).Some?
  {
    hide HeaderAt, FirstFile, OneShot;
    SplitExists(t);
    var patches := OneShot(t);
    var parse := patch => FirstFile(patch, toFile);
    forall patch | patch in patches
      ensures FirstFile(patch, toFile).Some? <==> NewlineBoundedAt(patch, 0) && toFile(SplitLines(patch)).Some?
    {
      assert SingleHeaderPatch(patch);
      FirstFileExactly(patch, toFile);
    }
    var files := ParsedPrefix(patches, parse);
    if |files| < |patches| {
      assert parse(patches[|files|]).None? && patches[|files|] in patches;
    }
  }

  /** Patches each of which the parser takes for one group. */
  ghost predicate OneGroupEach<F>(patches: seq<Text>, toFile: seq<Text> -> Option<F>) {
    forall patch :: patch in patches ==> FirstFile(patch, toFile) == toFile(SplitLines(patch))
  }

  lemma {:induction false} AllStreamed<F>(patches: seq<Text>, toFile: seq<Text> -> Option<F>)
    requires OneGroupEach(patches, toFile)
    ensures |ParsedPrefix(patches, patch => FirstFile(patch, toFile))| == |patches| <==>
            forall group :: group in LinesOfEach(patches) ==> toFile(group).Some?
  {
    hide FirstFile;
    if patches != [] {
      AllStreamed(patches[1..], toFile);
      var groups := LinesOfEach(patches);
      assert groups == [groups[0]] + groups[1..];
      assert FirstFile(patches[0], toFile) == toFile(groups[0]);
    }
  }

  lemma {:induction false} FirstOfEach<F>(patches: seq<Text>, toFile: seq<Text> -> Option<F>)
    requires OneGroupEach(patches, toFile) && patches != []
    ensures OneGroupEach(patches[1..], toFile)
    ensures
      var file, rest := FirstFile(patches[0], toFile), DomainFiles(LinesOfEach(patches[1..]), toFile);
      DomainFiles(LinesOfEach(patches), toFile) == if file.None? then rest else [file.value] + rest
  {
    hide FirstFile, SplitLines;
    var groups := LinesOfEach(patches);
    assert groups[1..] == LinesOfEach(patches[1..]);
    assert FirstFile(patches[0], toFile) == toFile(groups[0]);
  }

  lemma {:induction false} StreamedFiles<F>(patches: seq<Text>, toFile: seq<Text> -> Option<F>)
    requires OneGroupEach(patches, toFile)
    ensures var streamed := ParsedPrefix(patches, patch => FirstFile(patch, toFile));
            var files := DomainFiles(LinesOfEach(patches), toFile);
            && streamed <= files
            && (|streamed| == |patches| ==> streamed == files)
  {
    hide FirstFile, SplitLines, OneGroupEach;
    if patches != [] {
      hide DomainFiles;
      FirstOfEach(patches, toFile);
      StreamedFiles(patches[1..], toFile);
    }
  }

  lemma {:induction false} PatchesHaveOneGroup<F>(t: Text, toFile: seq<Text> -> Option<F>)
    requires HeaderAt(t, 0) && NewlineBounded(t)
    ensures OneGroupEach(Patches(t), toFile)
    decreases |t|
  {
    hide HeaderAt, FirstFile;
    assert NewlineBoundedAt(t, 0);
    match FirstHeader(t, 1)
    case None =>
      PatchFile(t, toFile);
    case Some(next) =>
      HeaderShift(t, next, 0);
      NewlineBoundedShift(t, next);
      PatchesHaveOneGroup(t[next..], toFile);
      CutPatchIsSingle(t, next);
      assert NewlineBoundedAt(t, next);
      LineEndCut(t, next - 1);
      PatchFile(t[..next - 1], toFile);
  }

  /** When newlines bound every header line, the stream yields what the domain parser lists up to
      the first file that parser drops, and completes with the same files if it drops none. */
  lemma {:induction false} StreamAgreesWithDomainParser<F>(t: Text, toFile: seq<Text> -> Option<F>)
    requires NewlineBounded(t)
    ensures var streamed := ParsedPrefix(OneShot(t), patch => FirstFile(patch, toFile));
            var groups := Groups(SplitLines(t));
            && streamed <= DomainFiles(groups, toFile)
            && (|streamed| == |OneShot(t)| <==> forall group :: group in groups ==> toFile(group).Some?)
            && (|streamed| == |OneShot(t)| ==> streamed == DomainFiles(groups, toFile))
  {
    hide HeaderAt, FirstFile, IsDomainHeader;
    BoundedGroups(t);
    match FirstHeader(t, 0)
    case None =>
      AllStreamed([], toFile);
      StreamedFiles([], toFile);
    case Some(first) =>
      HeaderShift(t, first, 0);
      NewlineBoundedShift(t, first);
      PatchesHaveOneGroup(t[first..], toFile);
      AllStreamed(Patches(t[first..]), toFile);
      StreamedFiles(Patches(t[first..]), toFile);
  }
}
