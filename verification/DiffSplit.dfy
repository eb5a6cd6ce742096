/** The one-shot reading of a unified diff: cut the whole text before every header line.

    This is the reference the streaming worker is compared with. `SplitExists` and `SplitIsUnique`
    say that it is the only way to take the text apart into a preamble and patches that each hold
    exactly one header line, at their start, with one terminator removed between neighbours. */
module DiffSplit {
  import opened Wrappers
  import opened HeaderLines

  /** The patches of a text that starts with a header line. */
  function Patches(t: Text): (patches: seq<Text>)
    requires HeaderAt(t, 0)
    ensures patches != []
    decreases |t|
  {
    match FirstHeader(t, 1)
    case None => [t]
    case Some(next) =>
      HeaderShift(t, next, 0);
      [t[..next - 1]] + Patches(t[next..])
  }

  function OneShot(t: Text): seq<Text> {
    match FirstHeader(t, 0)
    case None => []
    case Some(first) =>
      HeaderShift(t, first, 0);
      Patches(t[first..])
  }

  function Preamble(t: Text): Text {
    match FirstHeader(t, 0)
    case None => t
    case Some(first) => t[..first]
  }

  /** The terminators removed in front of the second and every later header. */
  function Removed(t: Text): seq<char>
    requires HeaderAt(t, 0)
    decreases |t|
  {
    match FirstHeader(t, 1)
    case None => []
    case Some(next) =>
      HeaderShift(t, next, 0);
      [t[next - 1]] + Removed(t[next..])
  }

  function RemovedTerminators(t: Text): seq<char> {
    match FirstHeader(t, 0)
    case None => []
    case Some(first) =>
      HeaderShift(t, first, 0);
      Removed(t[first..])
  }

  function Rejoined(patches: seq<Text>, removed: seq<char>): Text
    requires patches != [] && |removed| == |patches| - 1
    decreases |patches|
  {
    if removed == [] then patches[0]
    else patches[0] + [removed[0]] + Rejoined(patches[1..], removed[1..])
  }

  ghost predicate SingleHeaderPatch(patch: Text) {
    HeaderAt(patch, 0) && NoHeaderFrom(patch, 1)
  }

  /** The preamble of a text with patches ends its last line, so that the first header starts one. */
  ghost predicate IsPreamble(preamble: Text, beforePatches: bool) {
    && NoHeaderFrom(preamble, 0)
    && (beforePatches && preamble != "" ==> IsTerminator(preamble[|preamble| - 1]))
  }

  ghost predicate IsSplit(t: Text, preamble: Text, patches: seq<Text>, removed: seq<char>) {
    && IsPreamble(preamble, patches != [])
    && (forall patch :: patch in patches ==> SingleHeaderPatch(patch))
    && (forall c :: c in removed ==> IsTerminator(c))
    && (if patches == [] then removed == [] && t == preamble
        else |removed| == |patches| - 1 && t == preamble + Rejoined(patches, removed))
  }

  /** The text in front of a header, without the terminator between them, holds only earlier headers. */
  lemma NoHeaderBeforeNext(t: Text, from: nat, next: nat)
    requires IsFirstHeader(t, from, next) && next > 0
    ensures NoHeaderFrom(t[..next - 1], from)
  {
    hide HeaderAt;
    var before := t[..next - 1];
    forall k | from <= k
      ensures !HeaderAt(before, k)
    {
      if k < next {
        HeaderBeforeCut(t, next - 1, k);
      }
    }
  }

  lemma CutPatchIsSingle(t: Text, next: nat)
    requires HeaderAt(t, 0) && IsFirstHeader(t, 1, next)
    ensures next <= |t| && IsTerminator(t[next - 1]) && SingleHeaderPatch(t[..next - 1])
  {
    hide HeaderAt;
    HeaderBeforeCut(t, next - 1, 0);
    NoHeaderBeforeNext(t, 1, next);
  }

  lemma RejoinedStep(patch: Text, separator: char, patches: seq<Text>, removed: seq<char>)
    requires patches != [] && |removed| == |patches| - 1
    ensures Rejoined([patch] + patches, [separator] + removed)
         == patch + [separator] + Rejoined(patches, removed)
  {
    hide HeaderAt;
    assert ([patch] + patches)[1..] == patches;
    assert ([separator] + removed)[1..] == removed;
  }

  lemma {:induction false} PatchesRejoin(t: Text)
    requires HeaderAt(t, 0)
    ensures |Removed(t)| == |Patches(t)| - 1
    ensures Rejoined(Patches(t), Removed(t)) == t
    decreases |t|
  {
    hide HeaderAt;
    match FirstHeader(t, 1)
    case None =>
    case Some(next) =>
      HeaderShift(t, next, 0);
      PatchesRejoin(t[next..]);
      RejoinedStep(t[..next - 1], t[next - 1], Patches(t[next..]), Removed(t[next..]));
      assert t == t[..next - 1] + [t[next - 1]] + t[next..];
  }

  lemma {:induction false} PatchesAreSingle(t: Text)
    requires HeaderAt(t, 0)
    ensures forall patch :: patch in Patches(t) ==> SingleHeaderPatch(patch)
    ensures forall c :: c in Removed(t) ==> IsTerminator(c)
    decreases |t|
  {
    hide HeaderAt;
    match FirstHeader(t, 1)
    case None =>
      assert SingleHeaderPatch(t);
    case Some(next) =>
      HeaderShift(t, next, 0);
      PatchesAreSingle(t[next..]);
      CutPatchIsSingle(t, next);
  }

  /** Nothing is lost: the preamble and the patches, rejoined, are the input. */
  lemma SplitExists(t: Text)
    ensures IsSplit(t, Preamble(t), OneShot(t), RemovedTerminators(t))
  {
    hide HeaderAt;
    match FirstHeader(t, 0)
    case None =>
    case Some(first) =>
      HeaderShift(t, first, 0);
      NoHeaderInPreamble(t, first);
      SplitFromFirst(t[..first], t[first..]);
      assert t == t[..first] + t[first..];
  }

  lemma SplitFromFirst(preamble: Text, rest: Text)
    requires IsPreamble(preamble, true) && HeaderAt(rest, 0)
    ensures IsSplit(preamble + rest, preamble, Patches(rest), Removed(rest))
  {
    hide HeaderAt;
    PatchesRejoin(rest);
    PatchesAreSingle(rest);
  }

  lemma NoHeaderInPreamble(t: Text, first: nat)
    requires IsFirstHeader(t, 0, first)
    ensures IsPreamble(t[..first], true)
  {
    hide HeaderAt;
    var preamble := t[..first];
    if first > 0 {
      forall k | 0 <= k
        ensures !HeaderAt(preamble, k)
      {
        if k < first {
          HeaderBeforeCut(t, first - 1, k);
          HeaderBeforeCut(preamble, first - 1, k);
          assert preamble[..first - 1] == t[..first - 1];
        }
      }
    } else {
      forall k | 0 <= k
        ensures !HeaderAt(preamble, k)
      {
      }
    }
  }

  lemma {:induction false} RejoinedSplitsBack(patches: seq<Text>, removed: seq<char>)
    requires patches != [] && |removed| == |patches| - 1
    requires forall patch :: patch in patches ==> SingleHeaderPatch(patch)
    requires forall c :: c in removed ==> IsTerminator(c)
    ensures HeaderAt(Rejoined(patches, removed), 0)
    ensures Patches(Rejoined(patches, removed)) == patches
    decreases |patches|
  {
    hide HeaderAt;
    var t := Rejoined(patches, removed);
    if removed == [] {
      assert SingleHeaderPatch(t);
      assert FirstHeader(t, 1).None?;
    } else {
      var rest := Rejoined(patches[1..], removed[1..]);
      RejoinedSplitsBack(patches[1..], removed[1..]);
      var cut := |patches[0]|;
      assert t[cut + 1..] == rest && t[..cut] == patches[0] && t[cut] == removed[0];
      assert patches[0] in patches && SingleHeaderPatch(patches[0]);
      HeaderSurvivesAppend(patches[0], 0, [removed[0]] + rest);
      assert t == patches[0] + ([removed[0]] + rest);
      HeaderShift(t, cut + 1, 0);
      forall k | 1 <= k < cut + 1
        ensures !HeaderAt(t, k)
      {
        HeaderBeforeCut(t, cut, k);
      }
      FirstHeaderIs(t, 1, cut + 1);
    }
  }

  /** No other way of cutting the text into single-header patches exists. */
  lemma SplitIsUnique(t: Text, preamble: Text, patches: seq<Text>, removed: seq<char>)
    requires IsSplit(t, preamble, patches, removed)
    ensures patches == OneShot(t) && preamble == Preamble(t)
  {
    hide HeaderAt;
    if patches == [] {
      assert FirstHeader(t, 0).None?;
    } else {
      RejoinedSplitsBack(patches, removed);
      var rest := Rejoined(patches, removed);
      var first := |preamble|;
      assert t[first..] == rest && t[..first] == preamble;
      HeaderShift(t, first, 0);
      forall k | 0 <= k < first
        ensures !HeaderAt(t, k)
      {
        HeaderBeforeCut(t, first - 1, k);
        HeaderBeforeCut(preamble, first - 1, k);
        assert preamble[..first - 1] == t[..first - 1];
      }
      FirstHeaderIs(t, 0, first);
    }
  }

  /* The split, said of positions of the text */

  /** The patches start at exactly the header lines of the text, and each goes up to the line end in
      front of the next one, or to the end. */
  ghost predicate CutAtHeaders(t: Text, starts: seq<nat>, patches: seq<Text>) {
    && |starts| == |patches|
    && (forall i :: IsGitHeader(t, i) <==> i in starts)
    && (forall k, l :: 0 <= k < l < |starts| ==> starts[k] < starts[l])
    && forall k :: 0 <= k < |patches| ==> IsPatchFrom(t, starts, patches[k], k)
  }

  ghost predicate IsPatchFrom(t: Text, starts: seq<nat>, patch: Text, k: nat)
    requires k < |starts|
  {
    if k + 1 == |starts| then starts[k] <= |t| && patch == t[starts[k]..]
    else starts[k] < starts[k + 1] <= |t| && patch == t[starts[k]..starts[k + 1] - 1]
  }

  ghost predicate CutFrom(t: Text, starts: seq<nat>, patches: seq<Text>) {
    && |starts| == |patches|
    && (forall i :: HeaderAt(t, i) <==> i in starts)
    && (forall k, l :: 0 <= k < l < |starts| ==> starts[k] < starts[l])
    && forall k :: 0 <= k < |patches| ==> IsPatchFrom(t, starts, patches[k], k)
  }

  function Shifted(starts: seq<nat>, n: nat): (r: seq<nat>)
    ensures |r| == |starts| && forall k :: 0 <= k < |r| ==> r[k] == n + starts[k]
  {
    seq(|starts|, k requires 0 <= k < |starts| => n + starts[k])
  }

  lemma {:induction false} PatchStarts(t: Text) returns (starts: seq<nat>)
    requires HeaderAt(t, 0)
    ensures CutFrom(t, starts, Patches(t)) && starts != [] && starts[0] == 0
    decreases |t|
  {
    hide HeaderAt;
    match FirstHeader(t, 1)
    case None =>
      starts := [0];
      assert t == t[0..|t|];
    case Some(next) =>
      HeaderShift(t, next, 0);
      var rest := PatchStarts(t[next..]);
      starts := [0] + Shifted(rest, next);
      StartsMore(t, next, rest, Patches(t[next..]));
  }

  lemma StartsMore(t: Text, next: nat, rest: seq<nat>, patches: seq<Text>)
    requires HeaderAt(t, 0) && IsFirstHeader(t, 1, next)
    requires CutFrom(t[next..], rest, patches) && rest != [] && rest[0] == 0
    ensures CutFrom(t, [0] + Shifted(rest, next), [t[..next - 1]] + patches)
  {
    hide HeaderAt, IsPatchFrom;
    var starts, all := [0] + Shifted(rest, next), [t[..next - 1]] + patches;
    HeadersMore(t, next, rest);
    FirstPatch(t, starts, next);
    forall k | 0 <= k < |all|
      ensures IsPatchFrom(t, starts, all[k], k)
    {
      if k > 0 {
        PatchShifted(t, next, rest, patches[k - 1], k - 1);
        PatchMore(t, 0, Shifted(rest, next), patches[k - 1], k - 1);
      }
    }
  }

  lemma FirstPatch(t: Text, starts: seq<nat>, next: nat)
    requires |starts| > 1 && starts[0] == 0 && starts[1] == next && 0 < next <= |t|
    ensures IsPatchFrom(t, starts, t[..next - 1], 0)
  {
  }

  lemma PatchMore(t: Text, first: nat, starts: seq<nat>, patch: Text, k: nat)
    requires k < |starts| && IsPatchFrom(t, starts, patch, k)
    ensures IsPatchFrom(t, [first] + starts, patch, k + 1)
  {
  }

  lemma PatchShifted(t: Text, p: nat, starts: seq<nat>, patch: Text, k: nat)
    requires p <= |t| && k < |starts| && IsPatchFrom(t[p..], starts, patch, k)
    ensures IsPatchFrom(t, Shifted(starts, p), patch, k)
  {
    var start, rest := starts[k], t[p..];
    if k + 1 == |starts| {
      assert rest[start..] == t[p + start..];
    } else {
      var end := starts[k + 1] - 1;
      assert rest[start..end] == t[p + start..p + end];
    }
  }

  lemma HeadersMore(t: Text, next: nat, rest: seq<nat>)
    requires HeaderAt(t, 0) && IsFirstHeader(t, 1, next)
    requires forall i :: HeaderAt(t[next..], i) <==> i in rest
    ensures forall i :: HeaderAt(t, i) <==> i in [0] + Shifted(rest, next)
  {
    hide HeaderAt;
    var shifted := Shifted(rest, next);
    forall i: nat
      ensures HeaderAt(t, i) <==> i in [0] + shifted
    {
      if i >= next {
        HeaderShift(t, next, i - next);
        if i - next in rest {
          var k :| 0 <= k < |rest| && rest[k] == i - next;
          assert shifted[k] == i;
        }
        if i in shifted {
          var k :| 0 <= k < |shifted| && shifted[k] == i;
          assert rest[k] == i - next;
        }
      }
    }
  }

  lemma FirstStarts(t: Text, first: nat, rest: seq<nat>, patches: seq<Text>)
    requires IsFirstHeader(t, 0, first) && CutFrom(t[first..], rest, patches)
    ensures CutFrom(t, Shifted(rest, first), patches)
  {
    hide HeaderAt, IsPatchFrom;
    var starts := Shifted(rest, first);
    forall i: nat
      ensures HeaderAt(t, i) <==> i in starts
    {
      if i >= first {
        HeaderShift(t, first, i - first);
        if i - first in rest {
          var k :| 0 <= k < |rest| && rest[k] == i - first;
          assert starts[k] == i;
        }
      }
    }
    forall k | 0 <= k < |patches|
      ensures IsPatchFrom(t, starts, patches[k], k)
    {
      PatchShifted(t, first, rest, patches[k], k);
    }
  }

  lemma HeadersAreRead(t: Text, starts: seq<nat>, patches: seq<Text>)
    requires CutFrom(t, starts, patches)
    ensures CutAtHeaders(t, starts, patches)
  {
    hide HeaderAt, IsGitHeader;
    forall i
      ensures IsGitHeader(t, i) <==> i in starts
    {
      HeaderExactly(t, i);
    }
  }

  /** The patches of a text start at exactly its lines `diff --git a/… b/…`. */
  lemma OneShotCutsAtHeaders(t: Text) returns (starts: seq<nat>)
    ensures CutAtHeaders(t, starts, OneShot(t))
  {
    hide HeaderAt, CutAtHeaders;
    match FirstHeader(t, 0) {
      case None =>
        starts := [];
      case Some(first) =>
        HeaderShift(t, first, 0);
        var rest := PatchStarts(t[first..]);
        starts := Shifted(rest, first);
        FirstStarts(t, first, rest, Patches(t[first..]));
    }
    HeadersAreRead(t, starts, OneShot(t));
  }
}
