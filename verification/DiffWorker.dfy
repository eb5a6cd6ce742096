/** The diff worker and the loop that drives it: one file per acknowledgement, never rescanning
    text whose lines are already decided, and still the one-shot split of the whole text. */
module DiffWorker {
  import opened Wrappers
  import opened HeaderLines
  import opened DiffSplit

  /** Messages of the driver; `Acknowledge` is the null message. */
  datatype Command = Chunk(text: Text) | Finish | Acknowledge

  datatype Publication<+F> = File(file: F) | Ready | Complete | Failed

  function TextOf(command: Command): Text {
    if command.Chunk? then command.text else ""
  }

  /** What the buffered text still has to be cut into, if nothing more arrived. */
  function Residual(buffer: Text, headerFound: bool): seq<Text>
    requires headerFound ==> HeaderAt(buffer, 0)
  {
    if headerFound then Patches(buffer) else OneShot(buffer)
  }

  /** If `more` is all that is still to come, the patches cut so far and the buffer with `more`
      make up the one-shot split. */
  ghost predicate Tracks(consumed: Text, cut: seq<Text>, buffer: Text, headerFound: bool, more: Text)
  {
    && (headerFound ==> HeaderAt(buffer + more, 0))
    && OneShot(consumed + more) == cut + Residual(buffer + more, headerFound)
  }

  /** No later text can make a header appear in [1, offset): every line starting there is closed. */
  predicate Scanned(buffer: Text, offset: nat) {
    && 1 <= offset <= |buffer|
    && (offset == 1 || IsTerminator(buffer[offset - 1]))
    && forall k :: 1 <= k < offset ==> !HeaderAt(buffer, k)
  }

  lemma ScannedSurvivesAppend(buffer: Text, offset: nat, more: Text)
    requires Scanned(buffer, offset)
    ensures Scanned(buffer + more, offset)
  {
    hide HeaderAt;
    forall k | 1 <= k < offset
      ensures !HeaderAt(buffer + more, k)
    {
      EarlierLineClosed(buffer, k, offset);
      ClosedLineDecided(buffer, k, more);
    }
  }

  /** `buffer.lastIndexOf("\n") + 1`. */
  function AfterLastNewline(t: Text): (n: nat)
    ensures n <= |t|
    ensures n > 0 ==> t[n - 1] == '\n'
    ensures forall k :: n <= k < |t| ==> t[k] != '\n'
  {
    if t == "" then 0
    else if t[|t| - 1] == '\n' then |t|
    else AfterLastNewline(t[..|t| - 1])
  }

  /** The invariant between two messages; nothing follows once `finished` is set. */
  ghost predicate OnTrack(
    consumed: Text, cut: seq<Text>, buffer: Text, finished: bool, headerFound: bool, scanOffset: nat)
  {
    && (headerFound ==> HeaderAt(buffer, 0) && Scanned(buffer, scanOffset))
    && forall more | finished ==> more == "" :: Tracks(consumed, cut, buffer, headerFound, more)
  }

  lemma OnTrackInitially()
    ensures OnTrack("", [], "", false, false, 0)
  {
    forall more: Text
      ensures Tracks("", [], "", false, more)
    {
      assert "" + more == more;
    }
  }

  lemma OnTrackAppend(consumed: Text, cut: seq<Text>, buffer: Text, headerFound: bool, scanOffset: nat, text: Text)
    requires OnTrack(consumed, cut, buffer, false, headerFound, scanOffset)
    ensures OnTrack(consumed + text, cut, buffer + text, false, headerFound, scanOffset)
  {
    hide HeaderAt;
    if headerFound {
      ScannedSurvivesAppend(buffer, scanOffset, text);
      HeaderSurvivesAppend(buffer, 0, text);
    }
    forall more: Text
      ensures Tracks(consumed + text, cut, buffer + text, headerFound, more)
    {
      assert Tracks(consumed, cut, buffer, headerFound, text + more);
      assert (consumed + text) + more == consumed + (text + more);
      assert (buffer + text) + more == buffer + (text + more);
    }
  }

  /** Dropping the preamble in front of the first header is part of the split. */
  lemma OnTrackFirst(consumed: Text, cut: seq<Text>, buffer: Text, finished: bool, scanOffset: nat, first: nat)
    requires OnTrack(consumed, cut, buffer, finished, false, scanOffset)
    requires IsFirstHeader(buffer, 0, first)
    ensures OnTrack(consumed, cut, buffer[first..], finished, true, 1)
  {
    hide HeaderAt;
    HeaderShift(buffer, first, 0);
    forall more | finished ==> more == ""
      ensures Tracks(consumed, cut, buffer[first..], true, more)
    {
      assert Tracks(consumed, cut, buffer, false, more);
      FirstHeaderStable(buffer, 0, first, more);
      FirstHeaderIs(buffer + more, 0, first);
      HeaderShift(buffer + more, first, 0);
      assert (buffer + more)[first..] == buffer[first..] + more;
    }
  }

  lemma TracksNext(consumed: Text, cut: seq<Text>, buffer: Text, next: nat, more: Text)
    requires Tracks(consumed, cut, buffer, true, more) && IsFirstHeader(buffer, 1, next)
    ensures Tracks(consumed, cut + [buffer[..next - 1]], buffer[next..], true, more)
  {
    hide HeaderAt;
    FirstHeaderStable(buffer, 1, next, more);
    FirstHeaderIs(buffer + more, 1, next);
    HeaderShift(buffer + more, next, 0);
    assert (buffer + more)[next..] == buffer[next..] + more;
    assert (buffer + more)[..next - 1] == buffer[..next - 1];
  }

  /** Cutting the current patch in front of the next header is part of the split. */
  lemma OnTrackNext(consumed: Text, cut: seq<Text>, buffer: Text, finished: bool, scanOffset: nat, next: nat)
    requires OnTrack(consumed, cut, buffer, finished, true, scanOffset)
    requires IsFirstHeader(buffer, scanOffset, next)
    ensures OnTrack(consumed, cut + [buffer[..next - 1]], buffer[next..], finished, true, 1)
  {
    hide HeaderAt, Tracks;
    assert IsFirstHeader(buffer, 1, next);
    HeaderShift(buffer, next, 0);
    var cut', buffer' := cut + [buffer[..next - 1]], buffer[next..];
    forall more | finished ==> more == ""
      ensures Tracks(consumed, cut', buffer', true, more)
    {
      assert Tracks(consumed, cut, buffer, true, more);
      TracksNext(consumed, cut, buffer, next, more);
    }
  }

  /** At the end of the text the current patch is the last one. */
  lemma OnTrackLast(consumed: Text, cut: seq<Text>, buffer: Text, scanOffset: nat)
    requires OnTrack(consumed, cut, buffer, true, true, scanOffset) && NoHeaderFrom(buffer, scanOffset)
    ensures OnTrack(consumed, cut + [buffer], "", true, false, 0)
  {
    hide HeaderAt;
    assert Tracks(consumed, cut, buffer, true, "");
    assert buffer + "" == buffer;
    assert FirstHeader(buffer, 1).None?;
    var empty: Text := "";
    assert empty + "" == empty;
    assert FirstHeader(empty, 0).None?;
  }

  /** With no further header in the buffer, everything up to its last newline is decided. */
  lemma OnTrackWait(consumed: Text, cut: seq<Text>, buffer: Text, finished: bool, headerFound: bool, scanOffset: nat)
    requires OnTrack(consumed, cut, buffer, finished, headerFound, scanOffset)
    requires headerFound ==> NoHeaderFrom(buffer, scanOffset)
    ensures var line := AfterLastNewline(buffer);
            OnTrack(consumed, cut, buffer, finished, headerFound, if headerFound && line == 0 then 1 else line)
  {
    hide HeaderAt;
  }

  lemma OnTrackEnd(consumed: Text, cut: seq<Text>, buffer: Text, scanOffset: nat)
    requires OnTrack(consumed, cut, buffer, true, false, scanOffset) && NoHeaderFrom(buffer, 0)
    ensures cut == OneShot(consumed)
  {
    hide HeaderAt;
    assert Tracks(consumed, cut, buffer, false, "");
    assert consumed + "" == consumed && buffer + "" == buffer;
    assert FirstHeader(buffer, 0).None?;
  }

  /** The patches cut so far are the first ones of the split, whatever still arrives. */
  ghost predicate CutsOnly(consumed: Text, cut: seq<Text>, finished: bool) {
    forall more | finished ==> more == "" :: cut <= OneShot(consumed + more)
  }

  lemma OnTrackCutsOnly(
    consumed: Text, cut: seq<Text>, buffer: Text, finished: bool, headerFound: bool, scanOffset: nat)
    requires OnTrack(consumed, cut, buffer, finished, headerFound, scanOffset)
    ensures CutsOnly(consumed, cut, finished)
  {
    hide HeaderAt;
    forall more | finished ==> more == ""
      ensures cut <= OneShot(consumed + more)
    {
      assert Tracks(consumed, cut, buffer, headerFound, more);
    }
  }

  lemma OnTrackFinish(consumed: Text, cut: seq<Text>, buffer: Text, headerFound: bool, scanOffset: nat)
    requires OnTrack(consumed, cut, buffer, false, headerFound, scanOffset)
    ensures OnTrack(consumed, cut, buffer, true, headerFound, scanOffset)
  {
    hide HeaderAt;
  }

  lemma OnTrackScanned(consumed: Text, cut: seq<Text>, buffer: Text, finished: bool, headerFound: bool, scanOffset: nat)
    requires OnTrack(consumed, cut, buffer, finished, headerFound, scanOffset)
    ensures headerFound ==> Scanned(buffer, scanOffset) && buffer != ""
  {
  }

  class Worker<F> {
    // `parseUnifiedDiff(patch).files[0]`
    const parse: Text -> Option<F>

    var buffer: Text
    var finished: bool
    var headerFound: bool
    var scanOffset: nat

    // all text received, the patches cut from it, and whether the last of them failed to parse
    ghost var consumed: Text
    ghost var cut: seq<Text>
    ghost var failed: bool

    ghost predicate Valid()
      reads this
    {
      && CutsOnly(consumed, cut, finished)
      && (!failed ==> OnTrack(consumed, cut, buffer, finished, headerFound, scanOffset))
    }

    constructor (parse: Text -> Option<F>)
      ensures Valid() && !failed && !finished
      ensures consumed == "" && cut == [] && buffer == ""
      ensures this.parse == parse
    {
      this.parse := parse;
      buffer, finished, headerFound, scanOffset := "", false, false, 0;
      consumed, cut, failed := "", [], false;
      new;
      OnTrackInitially();
    }

    /** One message: take the text in, find the first header if none was found yet, publish. */
    method Handle(command: Command) returns (publication: Publication<F>)
      requires Valid() && !failed
      requires finished ==> command.Acknowledge?
      modifies this
      ensures Valid() && failed == publication.Failed?
      ensures finished == (old(finished) || command.Finish?)
      ensures consumed == old(consumed) + TextOf(command)
      // one message cuts at most one patch, and publishes what the parser made of it
      ensures publication.File? || publication.Failed? ==>
        && |cut| == |old(cut)| + 1 && old(cut) <= cut
        && parse(cut[|cut| - 1]) == (if publication.File? then Some(publication.file) else None)
      ensures publication.Ready? || publication.Complete? ==> cut == old(cut)
      ensures |buffer| + (if publication.File? then 1 else 0) <= |old(buffer)| + |TextOf(command)|
      // it waits for more text only when the buffer holds at most the one file still open
      ensures publication.Ready? ==> !finished && NoHeaderFrom(buffer, if headerFound then 1 else 0)
      ensures publication.Complete? ==> finished && cut == OneShot(consumed)
    {
      hide *;
      Receive(command);
      FindFirstHeader();
      publication := Publish();
    }

    method Receive(command: Command)
      requires Valid() && !failed
      requires finished ==> command.Acknowledge?
      modifies `buffer, `consumed, `finished
      ensures Valid()
      ensures finished == (old(finished) || command.Finish?)
      ensures consumed == old(consumed) + TextOf(command)
      ensures buffer == old(buffer) + TextOf(command)
    {
      hide HeaderAt, OnTrack, CutsOnly;
      if command.Chunk? {
        OnTrackAppend(consumed, cut, buffer, headerFound, scanOffset, command.text);
        buffer := buffer + command.text;
        consumed := consumed + command.text;
      }
      if command.Finish? {
        OnTrackFinish(consumed, cut, buffer, headerFound, scanOffset);
        finished := true;
      }
      OnTrackCutsOnly(consumed, cut, buffer, finished, headerFound, scanOffset);
    }

    method FindFirstHeader()
      requires Valid() && !failed
      modifies `buffer, `headerFound, `scanOffset
      ensures Valid()
      ensures |buffer| <= |old(buffer)|
      ensures !headerFound ==> NoHeaderFrom(buffer, 0)
    {
      hide HeaderAt, OnTrack, CutsOnly;
      if !headerFound {
        var first := FirstHeader(buffer, 0);
        if first.Some? {
          OnTrackFirst(consumed, cut, buffer, finished, scanOffset, first.value);
          buffer := buffer[first.value..];
          headerFound := true;
          scanOffset := 1;
        }
      }
    }

    method Publish() returns (publication: Publication<F>)
      requires Valid() && !failed
      requires !headerFound ==> NoHeaderFrom(buffer, 0)
      modifies `buffer, `headerFound, `scanOffset, `cut, `failed
      ensures Valid() && failed == publication.Failed?
      ensures publication.File? || publication.Failed? ==>
        && |cut| == |old(cut)| + 1 && old(cut) <= cut
        && parse(cut[|cut| - 1]) == (if publication.File? then Some(publication.file) else None)
      ensures publication.Ready? || publication.Complete? ==> cut == old(cut)
      ensures |buffer| + (if publication.File? then 1 else 0) <= |old(buffer)|
      ensures publication.Ready? ==> !finished && NoHeaderFrom(buffer, if headerFound then 1 else 0)
      ensures publication.Complete? ==> finished && cut == OneShot(consumed)
    {
      hide HeaderAt, OnTrack, CutsOnly;
      OnTrackScanned(consumed, cut, buffer, finished, headerFound, scanOffset);
      var next := if headerFound then FirstHeader(buffer, scanOffset) else None;
      if headerFound && (next.Some? || finished) {
        var patch := CutPatch(next);
        var file := parse(patch);
        if file.None? {
          buffer := "";
          failed := true;
          publication := Failed;
        } else {
          publication := File(file.value);
        }
      } else {
        OnTrackWait(consumed, cut, buffer, finished, headerFound, scanOffset);
        var line := AfterLastNewline(buffer);
        scanOffset := if headerFound && line == 0 then 1 else line;
        if finished {
          OnTrackEnd(consumed, cut, buffer, scanOffset);
        }
        publication := if finished then Complete else Ready;
      }
    }

    method CutPatch(next: Option<nat>) returns (patch: Text)
      requires Valid() && !failed && headerFound
      requires next == FirstHeader(buffer, scanOffset)
      requires next.Some? || finished
      modifies `buffer, `headerFound, `scanOffset, `cut
      ensures Valid()
      ensures cut == old(cut) + [patch]
      ensures |buffer| < |old(buffer)|
    {
      hide HeaderAt, OnTrack, CutsOnly;
      OnTrackScanned(consumed, cut, buffer, finished, headerFound, scanOffset);
      if next.Some? {
        OnTrackNext(consumed, cut, buffer, finished, scanOffset, next.value);
      } else {
        OnTrackLast(consumed, cut, buffer, scanOffset);
        assert buffer[..|buffer|] == buffer;
      }
      patch := buffer[..if next.None? then |buffer| else next.value - 1];
      buffer := if next.None? then "" else buffer[next.value..];
      headerFound := next.Some?;
      scanOffset := if headerFound then 1 else 0;
      cut := cut + [patch];
      OnTrackCutsOnly(consumed, cut, buffer, finished, headerFound, scanOffset);
    }
  }
}
