/** The event stream of one Codex review turn: which streams are accepted, and which message is the
    answer.

    A line comes already decoded from its JSON; decoding the answer and collecting the artifacts of
    other items are not part of the model. */
module CodexStream {
  import opened Wrappers

  datatype ItemKind = AgentMessage | FileChange | OtherItem

  /** `text` is the first text found in the item, its message, content or output. */
  datatype Item = Item(kind: ItemKind, text: Option<string>)

  datatype Progress = Started | Updated | Completed

  datatype Line =
    | Blank
    | Undecodable
    | Untyped
    | ThreadStarted(threadId: Option<string>)
    | TurnStarted
    | TurnCompleted
    | TurnFailed
    | ErrorEvent
    | ItemEvent(progress: Progress, item: Option<Item>)
    | UnknownEvent

  datatype StreamError = InvalidResponse | PolicyViolation | ProviderFailed

  /* What a good stream looks like */

  predicate Whitespace(c: char) {
    || c == ' ' || '\U{9}' <= c <= '\U{D}' || c == '\U{A0}' || c == '\U{1680}' || '\U{2000}' <= c <= '\U{200A}'
    || c == '\U{2028}' || c == '\U{2029}' || c == '\U{202F}' || c == '\U{205F}' || c == '\U{3000}' || c == '\U{FEFF}'
  }

  /** The lines that mean something: neither blank nor of an unknown type. */
  function Events(lines: seq<Line>): seq<Line> {
    if lines == [] then []
    else if lines[|lines| - 1].Blank? || lines[|lines| - 1].UnknownEvent? then Events(lines[..|lines| - 1])
    else Events(lines[..|lines| - 1]) + [lines[|lines| - 1]]
  }

  predicate NamedThread(e: Line) {
    e.ThreadStarted? && e.threadId.Some? && exists i :: 0 <= i < |e.threadId.value| && !Whitespace(e.threadId.value[i])
  }

  /** An item that changes no file and, once a message is complete, has a text. */
  predicate GoodItem(e: Line) {
    && e.ItemEvent? && e.item.Some?
    && !e.item.value.kind.FileChange?
    && (e.progress.Completed? && e.item.value.kind.AgentMessage? ==> e.item.value.text.Some?)
  }

  /** A thread and then a turn have started, and only good items followed. */
  ghost predicate InTurn(events: seq<Line>) {
    && |events| >= 2 && NamedThread(events[0]) && events[1].TurnStarted?
    && forall i :: 2 <= i < |events| ==> GoodItem(events[i])
  }

  ghost predicate WholeTurn(events: seq<Line>) {
    events != [] && InTurn(events[..|events| - 1]) && events[|events| - 1].TurnCompleted?
  }

  predicate FileChanged(e: Line) {
    e.ItemEvent? && e.item.Some? && e.item.value.kind.FileChange?
  }

  /** A file is changed while the turn has been good so far. */
  ghost predicate ChangesAFile(events: seq<Line>) {
    exists i :: 0 <= i < |events| && InTurn(events[..i]) && FileChanged(events[i])
  }

  predicate Says(e: Line) {
    e.ItemEvent? && e.progress.Completed? && e.item.Some? && e.item.value.kind.AgentMessage? && e.item.value.text.Some?
  }

  /** The text of the last message that was completed. */
  function LastSaid(events: seq<Line>): Option<string> {
    if events == [] then None
    else if Says(events[|events| - 1]) then events[|events| - 1].item.value.text
    else LastSaid(events[..|events| - 1])
  }

  /* The consumer */

  datatype Stage = AwaitingThreadStart | AwaitingTurnStart | TurnInProgress | TurnDone

  datatype Message = Message(sequence: nat, text: string)

  ghost predicate Reached(stage: Stage, events: seq<Line>) {
    match stage
    case AwaitingThreadStart => events == []
    case AwaitingTurnStart => |events| == 1 && NamedThread(events[0])
    case TurnInProgress => InTurn(events)
    case TurnDone => WholeTurn(events)
  }

  function LastText(messages: seq<Message>): Option<string> {
    if messages == [] then None else Some(messages[|messages| - 1].text)
  }

  /** Nothing that may follow these makes a whole turn of them. */
  ghost predicate Spoiled(events: seq<Line>) {
    forall more :: !WholeTurn(events + more)
  }

  predicate Fits(stage: Stage, e: Line) {
    match stage
    case AwaitingThreadStart => NamedThread(e)
    case AwaitingTurnStart => e.TurnStarted?
    case TurnInProgress => GoodItem(e) || e.TurnCompleted?
    case TurnDone => false
  }

  function Next(stage: Stage, line: Line): Stage {
    match line
    case ThreadStarted(_) => AwaitingTurnStart
    case TurnStarted => TurnInProgress
    case TurnCompleted => TurnDone
    case _ => stage
  }

  /** What stands at a place of a whole turn. */
  predicate Placed(e: Line, place: nat, length: nat) {
    if place == 0 then NamedThread(e)
    else if place == 1 then e.TurnStarted?
    else if place + 1 == length then e.TurnCompleted?
    else GoodItem(e)
  }

  lemma WholeTurnPlaces(events: seq<Line>, place: nat)
    requires place < |events|
    ensures WholeTurn(events) ==> |events| >= 3 && Placed(events[place], place, |events|)
  {
    var good := events[..|events| - 1];
    assert place < |good| ==> good[place] == events[place];
  }

  lemma MisfitSpoils(stage: Stage, events: seq<Line>, e: Line)
    requires Reached(stage, events) && !Fits(stage, e)
    ensures Spoiled(events + [e])
  {
    forall more
      ensures !WholeTurn(events + [e] + more)
    {
      var all := events + [e] + more;
      assert all[|events|] == e;
      WholeTurnPlaces(all, |events|);
      if stage.TurnDone? {
        assert all[|events| - 1] == events[|events| - 1];
        WholeTurnPlaces(all, |events| - 1);
      }
    }
  }

  lemma NoFileChangedYet(stage: Stage, events: seq<Line>, i: nat)
    requires Reached(stage, events) && i < |events|
    ensures !FileChanged(events[i])
  {
    if stage.TurnDone? && i < |events| - 1 {
      assert events[i] == events[..|events| - 1][i];
    }
  }

  /** The first event that does not fit decides what the whole stream is. */
  lemma MisfitDecides(stage: Stage, events: seq<Line>, e: Line, rest: seq<Line>)
    requires Reached(stage, events) && !Fits(stage, e)
    ensures !WholeTurn(events + [e] + rest)
    ensures ChangesAFile(events + [e] + rest) <==> InTurn(events) && FileChanged(e)
  {
    MisfitSpoils(stage, events, e);
    var all := events + [e] + rest;
    assert all[..|events|] == events && all[|events|] == e;
    if ChangesAFile(all) {
      var i :| 0 <= i < |all| && InTurn(all[..i]) && FileChanged(all[i]);
      if i < |events| {
        NoFileChangedYet(stage, events, i);
      } else if i > |events| {
        assert all[..i] == events + [e] + all[|events| + 1..i];
        TurnIsGood(all[..i]);
        GoodHasNoMisfit(stage, events, e, all[|events| + 1..i]);
      }
    }
  }

  lemma SaidMore(events: seq<Line>, line: Line)
    ensures LastSaid(events + [line]) == if Says(line) then line.item.value.text else LastSaid(events)
  {
    assert (events + [line])[..|events|] == events;
  }

  lemma EventsOfOne(line: Line)
    ensures Events([line]) == if line.Blank? || line.UnknownEvent? then [] else [line]
  {
  }

  /** Nothing so far rules a whole turn out. */
  ghost predicate GoodSoFar(events: seq<Line>) {
    || events == [] || (|events| == 1 && NamedThread(events[0])) || InTurn(events) || WholeTurn(events)
  }

  predicate Reports(e: Line) {
    e.ErrorEvent? || e.TurnFailed?
  }

  /** After a good beginning the provider reports an error, or in the turn that it failed. */
  ghost predicate ProviderFails(events: seq<Line>) {
    exists i :: 0 <= i < |events| && ProviderFailsAt(events, i)
  }

  ghost predicate ProviderFailsAt(events: seq<Line>, i: nat)
    requires i < |events|
  {
    (events[i].ErrorEvent? && GoodSoFar(events[..i])) || (events[i].TurnFailed? && InTurn(events[..i]))
  }

  lemma NothingReportedYet(stage: Stage, events: seq<Line>, i: nat)
    requires Reached(stage, events) && i < |events|
    ensures !Reports(events[i])
  {
    if stage.TurnDone? && i < |events| - 1 {
      assert events[i] == events[..|events| - 1][i];
    }
  }

  lemma ReachedIsGood(stage: Stage, events: seq<Line>)
    requires Reached(stage, events)
    ensures GoodSoFar(events)
  {
  }

  /** A good beginning has no misfit in it. */
  lemma GoodHasNoMisfit(stage: Stage, events: seq<Line>, e: Line, rest: seq<Line>)
    requires Reached(stage, events) && !Fits(stage, e)
    ensures !GoodSoFar(events + [e] + rest)
  {
    MisfitSpoils(stage, events, e);
    var all := events + [e] + rest;
    assert events + [e] + rest == all;
    var whole := events + [e] + (rest + [TurnCompleted]);
    assert whole == all + [TurnCompleted] && whole[..|whole| - 1] == all;
    assert |all| == 1 ==> events == [] && all[0] == e;
  }

  lemma MisfitReports(stage: Stage, events: seq<Line>, e: Line, rest: seq<Line>)
    requires Reached(stage, events) && !Fits(stage, e)
    ensures ProviderFails(events + [e] + rest) <==> e.ErrorEvent? || (e.TurnFailed? && InTurn(events))
  {
    hide InTurn, WholeTurn, NamedThread, Fits, Reached, GoodSoFar;
    var all := events + [e] + rest;
    assert all[..|events|] == events && all[|events|] == e;
    ReachedIsGood(stage, events);
    if ProviderFails(all) {
      var i :| 0 <= i < |all| && ProviderFailsAt(all, i);
      if i < |events| {
        assert all[i] == events[i];
        NothingReportedYet(stage, events, i);
      } else if i > |events| {
        assert all[..i] == events + [e] + all[|events| + 1..i];
        TurnIsGood(all[..i]);
        GoodHasNoMisfit(stage, events, e, all[|events| + 1..i]);
      }
    }
    if e.ErrorEvent? || (e.TurnFailed? && InTurn(events)) {
      assert ProviderFailsAt(all, |events|);
    }
  }

  lemma TurnIsGood(events: seq<Line>)
    ensures InTurn(events) ==> GoodSoFar(events)
  {
  }

  /** A thread has a name when its id is more than the white space `trim` removes. */
  lemma NamedThreadExactly(e: Line)
    ensures NamedThread(e) <==>
      && e.ThreadStarted? && e.threadId.Some?
      && exists c :: c in e.threadId.value
           && c !in {'\t', '\n', '\U{b}', '\U{c}', '\r', ' ', '\U{a0}', '\U{1680}', '\U{2000}', '\U{2001}', '\U{2002}',
                     '\U{2003}', '\U{2004}', '\U{2005}', '\U{2006}', '\U{2007}', '\U{2008}', '\U{2009}', '\U{200a}',
                     '\U{2028}', '\U{2029}', '\U{202f}', '\U{205f}', '\U{3000}', '\U{feff}'}
  {
    if e.ThreadStarted? && e.threadId.Some? {
      var id := e.threadId.value;
      assert forall i :: 0 <= i < |id| ==> id[i] in id;
      if NamedThread(e) {
        var i :| 0 <= i < |id| && !Whitespace(id[i]);
        assert id[i] in id;
      }
    }
  }

  lemma Advances(stage: Stage, events: seq<Line>, line: Line)
    requires Reached(stage, events)
    requires line.Blank? || line.UnknownEvent? || Fits(stage, line)
    ensures Reached(Next(stage, line), events + Events([line]))
    ensures LastSaid(events + Events([line])) == if Says(line) then line.item.value.text else LastSaid(events)
  {
    hide Events, LastSaid, Says, NamedThread, GoodItem;
    EventsOfOne(line);
    SaidMore(events, line);
    if line.Blank? || line.UnknownEvent? {
      SaysNothing(line);
      assert events + [] == events;
    } else {
      FitsAdvances(stage, events, line);
    }
  }

  lemma SaysNothing(line: Line)
    requires line.Blank? || line.UnknownEvent?
    ensures !Says(line)
  {
  }

  lemma FitsAdvances(stage: Stage, events: seq<Line>, line: Line)
    requires Reached(stage, events) && Fits(stage, line)
    ensures Reached(Next(stage, line), events + [line])
  {
    hide GoodItem;
    assert (events + [line])[..|events|] == events;
    GoodItemIsItem(line);
  }

  lemma GoodItemIsItem(line: Line)
    ensures GoodItem(line) ==> line.ItemEvent?
  {
  }

  lemma InTurnExactly(stage: Stage, events: seq<Line>)
    requires Reached(stage, events)
    ensures InTurn(events) <==> stage.TurnInProgress?
  {
  }

  lemma GoodStream(stage: Stage, events: seq<Line>)
    requires Reached(stage, events)
    ensures WholeTurn(events) <==> stage.TurnDone?
    ensures !ChangesAFile(events) && !ProviderFails(events)
  {
    forall i: nat | i < |events|
      ensures !Reports(events[i])
    {
      NothingReportedYet(stage, events, i);
    }
    forall i: nat | i < |events|
      ensures !FileChanged(events[i])
    {
      NoFileChangedYet(stage, events, i);
    }
  }

  lemma EventsOfNone()
    ensures Events([]) == []
  {
  }

  class CodexTurn {
    var stage: Stage
    var agentMessages: seq<Message>
    var nextAgentMessageSequence: nat

    // the events consumed without an error
    ghost var events: seq<Line>

    ghost predicate Valid()
      reads this
    {
      && Reached(stage, events)
      && nextAgentMessageSequence == |agentMessages|
      && (forall i :: 0 <= i < |agentMessages| ==> agentMessages[i].sequence == i)
      && LastText(agentMessages) == LastSaid(events)
    }

    constructor ()
      ensures Valid() && events == []
    {
      stage := AwaitingThreadStart;
      agentMessages := [];
      nextAgentMessageSequence := 0;
      events := [];
    }

    method Consume(line: Line) returns (error: Option<StreamError>)
      requires Valid()
      modifies this
      ensures error.None? ==> Valid() && events == old(events) + Events([line])
      ensures error.Some? <==> Events([line]) == [line] && !Fits(old(stage), line)
      ensures error == Some(PolicyViolation) <==> old(stage).TurnInProgress? && FileChanged(line)
      ensures error == Some(ProviderFailed) <==> line.ErrorEvent? || (line.TurnFailed? && old(stage).TurnInProgress?)
    {
      hide Events, LastSaid, InTurn, WholeTurn;
      EventsOfOne(line);
      ghost var before := events;
      match line {
      case Blank =>
        error := None;
      case Undecodable =>
        error := Some(InvalidResponse);
      case Untyped =>
        error := Some(InvalidResponse);
      case ThreadStarted(threadId) =>
        if !stage.AwaitingThreadStart? || !NamedThread(line) {
          error := Some(InvalidResponse);
        } else {
          stage := AwaitingTurnStart;
          error := None;
        }
      case TurnStarted =>
        if !stage.AwaitingTurnStart? {
          error := Some(InvalidResponse);
        } else {
          stage := TurnInProgress;
          error := None;
        }
      case TurnCompleted =>
        if !stage.TurnInProgress? {
          error := Some(InvalidResponse);
        } else {
          stage := TurnDone;
          error := None;
        }
      case TurnFailed =>
        error := Some(if stage.TurnInProgress? then ProviderFailed else InvalidResponse);
      case ErrorEvent =>
        error := Some(ProviderFailed);
      case ItemEvent(progress, item) =>
        if !stage.TurnInProgress? || item.None? {
          error := Some(InvalidResponse);
        } else if item.value.kind.FileChange? {
          error := Some(PolicyViolation);
        } else if progress.Completed? && item.value.kind.AgentMessage? {
          if item.value.text.None? {
            error := Some(InvalidResponse);
          } else {
            agentMessages := agentMessages + [Message(nextAgentMessageSequence, item.value.text.value)];
            nextAgentMessageSequence := nextAgentMessageSequence + 1;
            error := None;
          }
        } else {
          error := None;
        }
      case UnknownEvent =>
        error := None;
      }
      if error.None? {
        events := before + Events([line]);
        Advances(old(stage), before, line);
      }
    }
  }

  /** The message with the greatest sequence number. */
  method SelectFinal(messages: seq<Message>) returns (text: Option<string>)
    ensures messages == [] ==> text == None
    ensures messages != [] ==> exists i ::
      && 0 <= i < |messages| && text == Some(messages[i].text)
      && (forall j :: 0 <= j < |messages| ==> messages[j].sequence <= messages[i].sequence)
      && (forall j :: 0 <= j < i ==> messages[j].sequence < messages[i].sequence)
  {
    if messages == [] {
      return None;
    }
    var selected := 0;
    for n := 1 to |messages|
      invariant 0 <= selected < n
      invariant forall j :: 0 <= j < n ==> messages[j].sequence <= messages[selected].sequence
      invariant forall j :: 0 <= j < selected ==> messages[j].sequence < messages[selected].sequence
    {
      if messages[n].sequence > messages[selected].sequence {
        selected := n;
      }
    }
    return Some(messages[selected].text);
  }

  lemma {:induction false} EventsConcat(a: seq<Line>, b: seq<Line>)
    ensures Events(a + b) == Events(a) + Events(b)
  {
    if b == [] {
      assert a + b == a;
    } else {
      var last := |b| - 1;
      assert (a + b)[..|a + b| - 1] == a + b[..last];
      EventsConcat(a, b[..last]);
    }
  }

  /** A stream is accepted exactly when its events are one whole turn, and the answer is then the text
      of the last completed message, if there was one. It is refused for breaking the read-only policy
      exactly when a file is changed in a turn that was good up to there. */
  method ExecuteReview(lines: seq<Line>) returns (result: Result<Option<string>, StreamError>)
    ensures result.Ok? <==> WholeTurn(Events(lines))
    ensures result.Ok? ==> result.value == LastSaid(Events(lines))
    ensures result == Err(PolicyViolation) <==> ChangesAFile(Events(lines))
    ensures result == Err(ProviderFailed) <==> ProviderFails(Events(lines))
  {
    hide Fits, WholeTurn, InTurn, ChangesAFile, FileChanged, LastSaid, Events, ProviderFails;
    var turn := new CodexTurn();
    EventsOfNone();
    for n := 0 to |lines|
      invariant turn.Valid() && turn.events == Events(lines[..n]) && fresh(turn)
    {
      assert lines[..n + 1] == lines[..n] + [lines[n]];
      EventsConcat(lines[..n], [lines[n]]);
      ghost var stage, before := turn.stage, turn.events;
      var error := turn.Consume(lines[n]);
      if error.Some? {
        assert lines == lines[..n] + [lines[n]] + lines[n + 1..];
        EventsConcat(lines[..n] + [lines[n]], lines[n + 1..]);
        MisfitDecides(stage, before, lines[n], Events(lines[n + 1..]));
        MisfitReports(stage, before, lines[n], Events(lines[n + 1..]));
        InTurnExactly(stage, before);
        return Err(error.value);
      }
    }
    assert lines[..|lines|] == lines;
    GoodStream(turn.stage, turn.events);
    if !turn.stage.TurnDone? {
      return Err(InvalidResponse);
    }
    var text := SelectFinal(turn.agentMessages);
    return Ok(text);
  }
}
