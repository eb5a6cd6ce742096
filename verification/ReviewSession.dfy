/** The one foreground review session: opening, reading and closing it over a snapshot repository
    that itself holds at most one session.

    Opening and closing hold a lock. Reading takes none, so a read may come between any two steps of
    a locked section. An open can moreover be interrupted between any two of its steps, by its
    deadline or because Core drains; a close cannot.

    Requests reach the service only after admission, which has checked that they are meant for this
    process. The identity a request speaks about may still be any. */
module ReviewSession {
  import opened Wrappers

  datatype Process = Process(application: string, epoch: string)

  /** Who asks: the part of a request that is not about a session. */
  datatype Context = Context(process: Process, requestId: string)

  datatype Target = Target(project: string, review: string, snapshot: string)

  datatype Identity = Identity(process: Process, target: Target, sessionId: string, version: nat)

  datatype State = Ready(identity: Identity) | Disposed(identity: Identity)

  /** A session as the repository knows it: without the version. */
  datatype Session = Session(process: Process, target: Target, sessionId: string)

  datatype Failure = Invalid | Superseded | RepositoryFailed | DeadlineExceeded

  /** Sessions that became active, and what the diagnostics recorded of them. */
  datatype Entry = Activated(sessionId: string) | Opened(sessionId: string) | Closed(sessionId: string)

  function RepositoryIdentity(context: Context, identity: Identity): Session {
    Session(context.process, identity.target, identity.sessionId)
  }

  function SessionOf(identity: Identity): Session {
    Session(identity.process, identity.target, identity.sessionId)
  }

  function NewIdentity(context: Context, target: Target): Identity {
    Identity(context.process, target, "session:" + context.requestId, 1)
  }

  /** The active version, or the version before it once the session is disposed. */
  predicate CanClose(current: State, requested: Identity) {
    || current.identity == requested
    || (current.Disposed? && current.identity == requested.(version := requested.version + 1))
  }

  /* The snapshot repository */

  datatype RepositoryCall = Open(session: Session, refused: bool) | Close(session: Session)

  function AfterCall(active: Option<Session>, call: RepositoryCall): Option<Session> {
    match call
    case Open(session, refused) => if refused then active else Some(session)
    case Close(session) => if active == Some(session) then None else active
  }

  function AfterCalls(calls: seq<RepositoryCall>): Option<Session> {
    if calls == [] then None else AfterCall(AfterCalls(calls[..|calls| - 1]), calls[|calls| - 1])
  }

  predicate Opens(call: RepositoryCall) {
    call.Open? && !call.refused
  }

  ghost predicate OpenedLast(calls: seq<RepositoryCall>, session: Session) {
    exists k :: 0 <= k < |calls| && OpenedLastAt(calls, k, session)
  }

  ghost predicate OpenedLastAt(calls: seq<RepositoryCall>, k: nat, session: Session)
    requires k < |calls|
  {
    && Opens(calls[k]) && calls[k].session == session
    && forall j :: k < j < |calls| ==> calls[j] != Close(session) && !Opens(calls[j])
  }

  lemma OpenedLastStep(calls: seq<RepositoryCall>, call: RepositoryCall, session: Session)
    ensures OpenedLast(calls + [call], session) <==>
      if Opens(call) then call.session == session else OpenedLast(calls, session) && call != Close(session)
  {
    hide Opens;
    var more := calls + [call];
    if OpenedLast(more, session) {
      var k :| 0 <= k < |more| && OpenedLastAt(more, k, session);
      if k < |calls| {
        assert more[|calls|] == call;
        assert OpenedLastAt(calls, k, session) by {
          assert forall j :: k < j < |calls| ==> calls[j] == more[j];
        }
      }
    }
    if Opens(call) && call.session == session {
      assert OpenedLastAt(more, |calls|, session);
    } else if OpenedLast(calls, session) && call != Close(session) && !Opens(call) {
      var k :| 0 <= k < |calls| && OpenedLastAt(calls, k, session);
      assert OpenedLastAt(more, k, session);
    }
  }

  /** The repository holds a session exactly if it was the last to be opened and was not closed since:
      closing any other session is without effect, and so is closing it again. */
  lemma {:induction false} HoldsTheLastOpened(calls: seq<RepositoryCall>, session: Session)
    ensures AfterCalls(calls) == Some(session) <==> OpenedLast(calls, session)
  {
    hide OpenedLast;
    if calls == [] {
      NothingOpened(session);
    } else {
      var before, call := calls[..|calls| - 1], calls[|calls| - 1];
      assert calls == before + [call];
      HoldsTheLastOpened(before, session);
      OpenedLastStep(before, call, session);
    }
  }

  lemma NothingOpened(session: Session)
    ensures !OpenedLast([], session)
  {
  }

  class SnapshotRepository {
    var active: Option<Session>

    constructor ()
      ensures active == None
    {
      active := None;
    }

    method OpenSession(session: Session, refused: bool) returns (accepted: bool)
      modifies this
      ensures accepted == !refused
      ensures active == AfterCall(old(active), RepositoryCall.Open(session, refused))
    {
      if refused {
        return false;
      }
      active := Some(session);
      return true;
    }

    /** Closes the foreground session if it is the one named; says whether it did. */
    method CloseSession(session: Session) returns (closed: bool)
      modifies this
      ensures closed <==> old(active) == Some(session)
      ensures active == AfterCall(old(active), RepositoryCall.Close(session))
    {
      if active == Some(session) {
        active := None;
        return true;
      }
      return false;
    }
  }

  /* The value of the whole, and its steps */

  datatype Opening = Opening(context: Context, target: Target)

  /** What the holder of the lock does next. */
  datatype Phase =
    | Idle
    | Recording(opening: Opening, closed: bool)  // the repository has been told to let go
    | Clearing(opening: Opening)
    | Entering(opening: Opening)
    | Activating(opening: Opening)
    | Announcing(opening: Opening)
    | Retiring(state: State)                     // a close: the repository has let go

  datatype Model = Model(
    active: Option<State>, repository: Option<Session>, log: seq<Entry>, phase: Phase)

  const INITIAL := Model(None, None, [], Idle)

  predicate IsOpening(phase: Phase) {
    !phase.Idle? && !phase.Retiring?
  }

  function BeginOpening(m: Model, opening: Opening): Model {
    if m.active.None? then m.(phase := Recording(opening, false))
    else
      var session := RepositoryIdentity(opening.context, m.active.value.identity);
      m.(repository := AfterCall(m.repository, RepositoryCall.Close(session)),
         phase := Recording(opening, m.repository == Some(session)))
  }

  function Continued(m: Model, refused: bool): Model
    requires IsOpening(m.phase)
  {
    var opening := m.phase.opening;
    var identity := NewIdentity(opening.context, opening.target);
    match m.phase
    case Recording(_, closed) =>
      m.(log := if closed && m.active.Some? && m.active.value.Ready?
                then m.log + [Closed(m.active.value.identity.sessionId)] else m.log,
         phase := Clearing(opening))
    case Clearing(_) => m.(active := None, phase := Entering(opening))
    case Entering(_) =>
      m.(repository := AfterCall(m.repository, RepositoryCall.Open(SessionOf(identity), refused)),
         phase := if refused then Idle else Activating(opening))
    case Activating(_) =>
      m.(active := Some(Ready(identity)), log := m.log + [Activated(identity.sessionId)], phase := Announcing(opening))
    case Announcing(_) => m.(log := m.log + [Opened(identity.sessionId)], phase := Idle)
  }

  /** The answer to a close that ends without closing anything. */
  function CloseAnswer(m: Model, context: Context, requested: Identity): Option<Result<State, Failure>> {
    if m.active.None? then Some(Err(Invalid))
    else if !CanClose(m.active.value, requested) then Some(Err(Superseded))
    else if m.active.value.Disposed? then Some(Ok(m.active.value))
    else if m.repository != Some(RepositoryIdentity(context, m.active.value.identity)) then Some(Err(Superseded))
    else None
  }

  function BeginClosing(m: Model, context: Context, requested: Identity): Model {
    if CloseAnswer(m, context, requested).Some? then m
    else m.(repository := None, phase := Retiring(m.active.value))
  }

  function Retired(state: State): State {
    Disposed(state.identity.(version := state.identity.version + 1))
  }

  function EndedClosing(m: Model): Model
    requires m.phase.Retiring?
  {
    Model(Some(Retired(m.phase.state)), m.repository, m.log + [Closed(m.phase.state.identity.sessionId)], Idle)
  }

  function Read(m: Model, requested: Identity): Result<State, Failure> {
    if m.active.None? then Err(Invalid)
    else if m.active.value.identity != requested then Err(Superseded)
    else Ok(m.active.value)
  }

  /* Runs of one process */

  datatype Event =
    | BeginOpen(context: Context, target: Target)
    | Continue(refused: bool)
    | Interrupt
    | BeginClose(context: Context, requested: Identity)
    | EndClose

  predicate Enabled(process: Process, m: Model, event: Event) {
    match event
    case BeginOpen(context, _) => m.phase.Idle? && context.process == process
    case Continue(_) => IsOpening(m.phase)
    case Interrupt => IsOpening(m.phase)
    case BeginClose(context, _) => m.phase.Idle? && context.process == process
    case EndClose => m.phase.Retiring?
  }

  function Next(m: Model, event: Event): Model {
    match event
    case BeginOpen(context, target) => BeginOpening(m, Opening(context, target))
    case Continue(refused) => if IsOpening(m.phase) then Continued(m, refused) else m
    case Interrupt => m.(phase := Idle)
    case BeginClose(context, requested) => BeginClosing(m, context, requested)
    case EndClose => if m.phase.Retiring? then EndedClosing(m) else m
  }

  function End(events: seq<Event>): Model {
    if events == [] then INITIAL else Next(End(events[..|events| - 1]), events[|events| - 1])
  }

  predicate Run(process: Process, events: seq<Event>) {
    events == [] ||
    (&& Run(process, events[..|events| - 1])
     && Enabled(process, End(events[..|events| - 1]), events[|events| - 1]))
  }

  /** The session that last became active, until it is recorded closed. */
  function Unclosed(log: seq<Entry>): Option<string> {
    if log == [] then None
    else
      match log[|log| - 1]
      case Activated(sessionId) => Some(sessionId)
      case Opened(_) => Unclosed(log[..|log| - 1])
      case Closed(_) => None
  }

  /** A session is recorded closed only while it is the one that last became active, and once. */
  ghost predicate Paired(log: seq<Entry>) {
    forall i :: 0 <= i < |log| && log[i].Closed? ==> Unclosed(log[..i]) == Some(log[i].sessionId)
  }

  lemma OneEntryMore(log: seq<Entry>, entry: Entry)
    requires Paired(log) && (entry.Closed? ==> Unclosed(log) == Some(entry.sessionId))
    ensures Paired(log + [entry])
    ensures Unclosed(log + [entry]) ==
      match entry
      case Activated(sessionId) => Some(sessionId)
      case Opened(_) => Unclosed(log)
      case Closed(_) => None
  {
    var more := log + [entry];
    assert more[..|log|] == log;
    assert forall i :: 0 <= i < |log| ==> more[..i] == log[..i];
  }

  /** An open that has made the repository let go of the session that is still the active one. */
  predicate Releasing(phase: Phase) {
    phase.Recording? || phase.Clearing?
  }

  /** The active session is ready and the repository holds it. */
  predicate Held(m: Model) {
    m.active.Some? && m.active.value.Ready? && m.repository == Some(SessionOf(m.active.value.identity))
  }

  /** What is in the repository is the active session, or nothing, or a session nobody can name. */
  ghost predicate Sound(process: Process, m: Model) {
    && Paired(m.log)
    && (m.active.Some? ==>
          && m.active.value.identity.process == process
          && m.active.value.identity.version == (if m.active.value.Ready? then 1 else 2)
          && (m.repository == None || Held(m))
          && (m.active.value.Disposed? ==> m.repository == None))
    && (Held(m) ==> Unclosed(m.log) == Some(m.active.value.identity.sessionId))
    && (IsOpening(m.phase) ==> m.phase.opening.context.process == process)
    && (Releasing(m.phase) && m.active.Some? ==> m.repository == None)
    && (m.phase.Recording? && m.phase.closed ==>
          m.active.Some? && (m.active.value.Ready? ==> Unclosed(m.log) == Some(m.active.value.identity.sessionId)))
    && (m.phase.Entering? || m.phase.Activating? ==> m.active == None)
    && (m.phase.Activating? ==>
          m.repository == Some(SessionOf(NewIdentity(m.phase.opening.context, m.phase.opening.target))))
    && (m.phase.Announcing? ==>
          && m.active == Some(Ready(NewIdentity(m.phase.opening.context, m.phase.opening.target)))
          && Held(m))
    && (m.phase.Retiring? ==>
          && m.phase.state.Ready? && m.active == Some(m.phase.state) && m.repository == None
          && Unclosed(m.log) == Some(m.phase.state.identity.sessionId))
  }

  lemma StepKeepsSound(process: Process, m: Model, event: Event)
    requires Sound(process, m) && Enabled(process, m, event)
    ensures Sound(process, Next(m, event))
  {
    var next := Next(m, event);
    if next.log != m.log {
      OneEntryMore(m.log, next.log[|m.log|]);
    }
  }

  lemma {:induction false} RunKeepsSound(process: Process, events: seq<Event>)
    requires Run(process, events)
    ensures Sound(process, End(events))
  {
    if events != [] {
      RunKeepsSound(process, events[..|events| - 1]);
      StepKeepsSound(process, End(events[..|events| - 1]), events[|events| - 1]);
    }
  }

  lemma EndMore(events: seq<Event>, event: Event)
    ensures End(events + [event]) == Next(End(events), event)
  {
    assert (events + [event])[..|events|] == events;
  }

  lemma OneEventMore(process: Process, events: seq<Event>, event: Event)
    ensures End(events + [event]) == Next(End(events), event)
    ensures Run(process, events + [event]) <==> Run(process, events) && Enabled(process, End(events), event)
  {
    assert (events + [event])[..|events|] == events;
  }

  predicate ReadyState(active: Option<State>) {
    active.Some? && active.value.Ready?
  }

  /** An open was interrupted after the repository let go of the session that was, and still is, the
      active one. */
  ghost predicate Abandoned(events: seq<Event>) {
    exists k :: 0 <= k < |events| && AbandonedAt(events, k)
  }

  ghost predicate AbandonedAt(events: seq<Event>, k: nat)
    requires k < |events|
  {
    && events[k].Interrupt? && Releasing(End(events[..k]).phase) && ReadyState(End(events[..k]).active)
    && forall j :: k < j <= |events| ==> End(events[..j]).active == End(events[..k]).active
  }

  lemma StillAbandoned(events: seq<Event>, event: Event)
    requires Abandoned(events) && Next(End(events), event).active == End(events).active
    ensures Abandoned(events + [event])
  {
    hide Next, End;
    var more := events + [event];
    EndMore(events, event);
    var k :| 0 <= k < |events| && AbandonedAt(events, k);
    assert events[..|events|] == events && more[..|more|] == more;
    assert more[..k] == events[..k] && more[k] == events[k];
    forall j | k < j <= |more|
      ensures End(more[..j]).active == End(more[..k]).active
    {
      assert j <= |events| ==> more[..j] == events[..j];
      assert End(events[..|events|]).active == End(events[..k]).active;
    }
    assert AbandonedAt(more, k);
  }

  lemma AbandonedBefore(events: seq<Event>, event: Event, k: nat)
    requires k < |events| && AbandonedAt(events + [event], k)
    ensures AbandonedAt(events, k) && Next(End(events), event).active == End(events).active
  {
    hide Next, End;
    var more := events + [event];
    EndMore(events, event);
    assert more[..k] == events[..k] && more[..|events|] == events && more[..|more|] == more;
    forall j | k < j <= |events|
      ensures End(events[..j]).active == End(events[..k]).active
    {
      assert more[..j] == events[..j];
    }
    assert End(more[..|events|]).active == End(more[..k]).active;
    assert End(more[..|more|]).active == End(more[..k]).active;
  }

  lemma AbandonedStep(events: seq<Event>, event: Event)
    ensures Abandoned(events + [event]) <==>
      var before := End(events);
      || (event.Interrupt? && Releasing(before.phase) && ReadyState(before.active))
      || (Abandoned(events) && Next(before, event).active == before.active)
  {
    var before, more := End(events), events + [event];
    assert event.Interrupt? ==> Next(before, event).active == before.active;
    hide Next, End;
    EndMore(events, event);
    assert more[..|events|] == events && more[..|more|] == more;
    if Abandoned(more) {
      var k :| 0 <= k < |more| && AbandonedAt(more, k);
      if k < |events| {
        AbandonedBefore(events, event, k);
      }
    }
    if Abandoned(events) && Next(before, event).active == before.active {
      StillAbandoned(events, event);
    }
    if event.Interrupt? && Releasing(before.phase) && ReadyState(before.active) {
      assert AbandonedAt(more, |events|);
    }
  }

  lemma {:induction false} HeldExactly(process: Process, events: seq<Event>)
    requires Run(process, events)
    ensures
      var m := End(events);
      ReadyState(m.active) ==>
        (Held(m) <==> !Releasing(m.phase) && !m.phase.Retiring? && !Abandoned(events))
  {
    hide Abandoned;
    if events == [] {
    } else {
      var before, event := events[..|events| - 1], events[|events| - 1];
      assert events == before + [event];
      RunKeepsSound(process, before);
      HeldExactly(process, before);
      AbandonedStep(before, event);
    }
  }

  /** In every run an identity reads as ready only while it is the active one, and the repository
      then holds its session unless a close or another open is just replacing it, or such an open was
      interrupted there and the session has been the active one ever since. */
  lemma ReadyReadsExactly(process: Process, events: seq<Event>, requested: Identity)
    requires Run(process, events)
    ensures
      var m := End(events);
      && (Read(m, requested).Ok? <==> m.active.Some? && m.active.value.identity == requested)
      && (Read(m, requested) == Ok(Ready(requested)) ==>
            if Releasing(m.phase) || m.phase.Retiring? || Abandoned(events) then m.repository == None
            else m.repository == Some(SessionOf(requested)))
  {
    RunKeepsSound(process, events);
    HeldExactly(process, events);
  }

  /** Closing succeeds exactly for the active identity, unless its session was abandoned, and for a
      session that is already disposed. */
  lemma CloseSucceedsExactly(process: Process, events: seq<Event>, context: Context, requested: Identity)
    requires Run(process, events) && End(events).phase.Idle? && context.process == process
    ensures
      var m := End(events);
      var answer := CloseAnswer(m, context, requested);
      (answer == None || answer.value.Ok?) <==>
        || m.active == Some(Disposed(requested))
        || m.active == Some(Disposed(requested.(version := requested.version + 1)))
        || (m.active == Some(Ready(requested)) && !Abandoned(events))
  {
    RunKeepsSound(process, events);
    HeldExactly(process, events);
  }

  /** Until another open begins, closing again by the old version or the new one answers with the
      same disposed state and does nothing. */
  lemma {:induction false} CloseIsIdempotent(
    process: Process, events: seq<Event>, requested: Identity, later: seq<Event>)
    requires Run(process, events + later) && End(events).phase.Idle?
    requires End(events).active == Some(Retired(Ready(requested)))
    requires forall i :: 0 <= i < |later| ==> !later[i].BeginOpen?
    ensures End(events + later) == End(events)
    ensures forall context, version | version in {requested.version, requested.version + 1} ::
      CloseAnswer(End(events), context, requested.(version := version)) == Some(Ok(Retired(Ready(requested))))
    decreases |later|
  {
    if later == [] {
      assert events + later == events;
    } else {
      var before, event := later[..|later| - 1], later[|later| - 1];
      assert events + later == (events + before) + [event];
      OneEventMore(process, events + before, event);
      CloseIsIdempotent(process, events, requested, before);
    }
  }

  /** An open was interrupted when the repository had opened its session and nobody had been told,
      and no open has got that far since. */
  ghost predicate Stranded(events: seq<Event>) {
    exists k :: 0 <= k < |events| && StrandedAt(events, k)
  }

  ghost predicate StrandedAt(events: seq<Event>, k: nat)
    requires k < |events|
  {
    && events[k].Interrupt? && End(events[..k]).phase.Activating?
    && forall j :: k < j < |events| ==> !(events[j] == Continue(false) && End(events[..j]).phase.Entering?)
  }

  lemma StrandedStep(events: seq<Event>, event: Event)
    ensures Stranded(events + [event]) <==>
      var before := End(events);
      || (event.Interrupt? && before.phase.Activating?)
      || (Stranded(events) && !(event == Continue(false) && before.phase.Entering?))
  {
    hide Next, End;
    var more := events + [event];
    assert more[..|events|] == events;
    assert forall j :: 0 <= j <= |events| ==> more[..j] == events[..j];
    if Stranded(more) {
      var k :| 0 <= k < |more| && StrandedAt(more, k);
      if k < |events| {
        assert StrandedAt(events, k) by {
          assert forall j :: k < j < |events| ==> events[j] == more[j];
        }
        assert more[|events|] == event;
      }
    }
    if Stranded(events) && !(event == Continue(false) && End(events).phase.Entering?) {
      var k :| 0 <= k < |events| && StrandedAt(events, k);
      assert StrandedAt(more, k);
    }
    if event.Interrupt? && End(events).phase.Activating? {
      assert StrandedAt(more, |events|);
    }
  }

  /** Whether the repository holds a session that is not the active one. */
  predicate Unreachable(m: Model) {
    m.repository.Some? && (m.active.None? || SessionOf(m.active.value.identity) != m.repository.value)
  }

  lemma {:induction false} UnreachableExactly(process: Process, events: seq<Event>)
    requires Run(process, events)
    ensures Unreachable(End(events)) <==> End(events).phase.Activating? || Stranded(events)
    ensures Stranded(events) ==> End(events).active == None && !End(events).phase.Activating?
  {
    hide Stranded;
    if events == [] {
      assert !Stranded([]) by { NeverStranded(); }
    } else {
      var before, event := events[..|events| - 1], events[|events| - 1];
      assert events == before + [event];
      RunKeepsSound(process, before);
      UnreachableExactly(process, before);
      StrandedStep(before, event);
    }
  }

  lemma NeverStranded()
    ensures !Stranded([])
  {
  }

  predicate RefusedTo(m: Model, context: Context, requested: Identity) {
    var answer := CloseAnswer(m, context, requested);
    Read(m, requested).Err? && answer.Some? && answer.value.Err?
  }

  /** The repository holds a session, and whoever asks for it is refused. */
  ghost predicate OutOfReach(m: Model) {
    && m.repository.Some?
    && forall requested: Identity, context: Context | SessionOf(requested) == m.repository.value ::
         RefusedTo(m, context, requested)
  }

  /** When no section is under way, the repository holds a session that nobody can read or close
      exactly if an open was interrupted after the repository opened its session and before it became
      active, and no open has reached the repository since. */
  lemma StrandedExactly(process: Process, events: seq<Event>)
    requires Run(process, events) && End(events).phase.Idle?
    ensures OutOfReach(End(events)) <==> Stranded(events)
  {
    hide Stranded;
    RunKeepsSound(process, events);
    UnreachableExactly(process, events);
    var m := End(events);
    if Held(m) {
      assert !RefusedTo(m, Context(process, ""), m.active.value.identity);
    }
  }

  function Continues(refused: bool, n: nat): (events: seq<Event>)
    ensures |events| == n
  {
    if n == 0 then [] else Continues(refused, n - 1) + [Continue(refused)]
  }

  /** How many steps an open takes after its first, when nothing interrupts it. */
  function OpenSteps(refused: bool): nat {
    if refused then 3 else 5
  }

  /** An open that may take at most `patience` steps after its first. */
  function OpenEvents(context: Context, target: Target, refused: bool, patience: nat): seq<Event> {
    [BeginOpen(context, target)]
    + if patience < OpenSteps(refused) then Continues(refused, patience) + [Interrupt]
      else Continues(refused, OpenSteps(refused))
  }

  lemma ContinuesAre(refused: bool)
    ensures
      var e := Continue(refused);
      && Continues(refused, 0) == [] && Continues(refused, 1) == [e] && Continues(refused, 2) == [e, e]
      && Continues(refused, 3) == [e, e, e] && Continues(refused, 4) == [e, e, e, e]
      && Continues(refused, 5) == [e, e, e, e, e]
  {
    var e := Continue(refused);
    assert Continues(refused, 2) == [e, e];
    assert Continues(refused, 4) == Continues(refused, 3) + [e];
  }

  lemma EnteredEvents(context: Context, target: Target)
    ensures
      var begun, e := [BeginOpen(context, target)], Continue(false);
      OpenEvents(context, target, false, 3)[..4] == begun + [e] + [e] + [e]
  {
    ContinuesAre(false);
  }

  lemma EnteredRun(context: Context, target: Target)
    ensures
      var events := OpenEvents(context, target, false, 3)[..4];
      && Run(context.process, events)
      && End(events)
           == Model(None, Some(SessionOf(NewIdentity(context, target))), [], Activating(Opening(context, target)))
  {
    var process, begun, e := context.process, [BeginOpen(context, target)], Continue(false);
    EnteredEvents(context, target);
    assert Run(process, []) && End([]) == INITIAL && [] + begun == begun;
    hide Run, End, OpenEvents;
    OneEventMore(process, [], begun[0]);
    OneEventMore(process, begun, e);
    OneEventMore(process, begun + [e], e);
    OneEventMore(process, begun + [e] + [e], e);
  }

  /** Such a run: one open, interrupted there. */
  lemma StrandingRun(context: Context, target: Target)
    ensures
      var events := OpenEvents(context, target, false, 3);
      Run(context.process, events) && End(events).phase.Idle? && OutOfReach(End(events))
  {
    var entered := OpenEvents(context, target, false, 3)[..4];
    EnteredRun(context, target);
    ContinuesAre(false);
    assert OpenEvents(context, target, false, 3) == entered + [Interrupt];
    OneEventMore(context.process, entered, Interrupt);
    StrandedStep(entered, Interrupt);
    StrandedExactly(context.process, entered + [Interrupt]);
  }

  lemma OpenedRun(context: Context, target: Target)
    ensures
      var events, identity := OpenEvents(context, target, false, 5), NewIdentity(context, target);
      && Run(context.process, events)
      && End(events) == Model(
           Some(Ready(identity)), Some(SessionOf(identity)),
           [Activated(identity.sessionId), Opened(identity.sessionId)], Idle)
  {
    var entered, e := OpenEvents(context, target, false, 3)[..4], Continue(false);
    EnteredRun(context, target);
    ContinuesAre(false);
    assert OpenEvents(context, target, false, 5) == entered + [e] + [e];
    OneEventMore(context.process, entered, e);
    OneEventMore(context.process, entered + [e], e);
  }

  /** A run in which a ready session is read and not held: a second open, for whatever target, is
      interrupted just after the repository has let go of the first session, which then nobody can close. */
  lemma AbandoningRun(context: Context, target: Target, second: Context, other: Target, closer: Context)
    requires second.process == context.process
    ensures
      var events := OpenEvents(context, target, false, 5) + OpenEvents(second, other, false, 0);
      var identity := NewIdentity(context, target);
      && Run(context.process, events) && End(events).phase.Idle?
      && Read(End(events), identity) == Ok(Ready(identity)) && End(events).repository == None
      && CloseAnswer(End(events), closer, identity) == Some(Err(Superseded))
  {
    var first, begin := OpenEvents(context, target, false, 5), BeginOpen(second, other);
    OpenedRun(context, target);
    OneEventMore(context.process, first, begin);
    OneEventMore(context.process, first + [begin], Interrupt);
    assert first + [begin] + [Interrupt] == first + OpenEvents(second, other, false, 0);
  }

  /* What the diagnostics record */

  function Count(log: seq<Entry>, entry: Entry): nat {
    if log == [] then 0
    else (if log[|log| - 1] == entry then 1 else 0) + Count(log[..|log| - 1], entry)
  }

  lemma CountMore(log: seq<Entry>, more: Entry, entry: Entry)
    ensures Count(log + [more], entry) == Count(log, entry) + if more == entry then 1 else 0
  {
    assert (log + [more])[..|log|] == log;
  }

  lemma {:induction false} PairedCounts(log: seq<Entry>, sessionId: string)
    requires Paired(log)
    ensures Count(log, Closed(sessionId)) <= Count(log, Activated(sessionId))
    ensures Unclosed(log) == Some(sessionId) ==> Count(log, Closed(sessionId)) < Count(log, Activated(sessionId))
  {
    if log != [] {
      var before := log[..|log| - 1];
      assert forall i :: 0 <= i < |before| ==> before[..i] == log[..i];
      PairedCounts(before, sessionId);
    }
  }

  predicate AnnouncingFor(m: Model, sessionId: string) {
    m.phase.Announcing? && NewIdentity(m.phase.opening.context, m.phase.opening.target).sessionId == sessionId
  }

  /** The opens of a session that were interrupted when it had become active but had not been recorded. */
  function Unannounced(events: seq<Event>, sessionId: string): nat {
    if events == [] then 0
    else
      var before := events[..|events| - 1];
      Unannounced(before, sessionId)
      + if events[|events| - 1].Interrupt? && AnnouncingFor(End(before), sessionId) then 1 else 0
  }

  lemma CountsStep(process: Process, m: Model, event: Event, sessionId: string)
    requires Enabled(process, m, event)
    ensures
      var next := Next(m, event);
      var activates := event.Continue? && m.phase.Activating? && AnnouncingFor(next, sessionId);
      && Count(next.log, Activated(sessionId)) == Count(m.log, Activated(sessionId)) + (if activates then 1 else 0)
      && Count(next.log, Opened(sessionId)) == Count(m.log, Opened(sessionId))
           + (if event.Continue? && AnnouncingFor(m, sessionId) then 1 else 0)
  {
    hide Count;
    var next := Next(m, event);
    if next.log != m.log {
      var entry := next.log[|m.log|];
      assert next.log == m.log + [entry];
      CountMore(m.log, entry, Activated(sessionId));
      CountMore(m.log, entry, Opened(sessionId));
    }
  }

  lemma AnnouncingStep(process: Process, m: Model, event: Event, sessionId: string)
    requires Enabled(process, m, event)
    ensures AnnouncingFor(Next(m, event), sessionId) ==> event.Continue? && m.phase.Activating?
    ensures m.phase.Announcing? ==> event.Continue? || event.Interrupt?
  {
  }

  lemma {:induction false} OpenedCounts(process: Process, events: seq<Event>, sessionId: string)
    requires Run(process, events)
    ensures
      var m := End(events);
      Count(m.log, Activated(sessionId)) == Count(m.log, Opened(sessionId)) + Unannounced(events, sessionId)
        + if AnnouncingFor(m, sessionId) then 1 else 0
  {
    if events != [] {
      hide Next, Count, AnnouncingFor, Enabled;
      var before, event := events[..|events| - 1], events[|events| - 1];
      OpenedCounts(process, before, sessionId);
      CountsStep(process, End(before), event, sessionId);
      AnnouncingStep(process, End(before), event, sessionId);
      AnnouncingHere(End(before), sessionId);
    }
  }

  lemma AnnouncingHere(m: Model, sessionId: string)
    ensures AnnouncingFor(m, sessionId) ==> m.phase.Announcing?
  {
  }

  /** In every run a session is recorded disposed no more often than it became active, and it is
      recorded opened just as often as it became active, but for opens interrupted in between. */
  lemma SessionsOverRuns(process: Process, events: seq<Event>, sessionId: string)
    requires Run(process, events)
    ensures
      var m := End(events);
      && Count(m.log, Closed(sessionId)) <= Count(m.log, Activated(sessionId))
      && Count(m.log, Activated(sessionId)) == Count(m.log, Opened(sessionId)) + Unannounced(events, sessionId)
           + if AnnouncingFor(m, sessionId) then 1 else 0
  {
    RunKeepsSound(process, events);
    PairedCounts(End(events).log, sessionId);
    OpenedCounts(process, events, sessionId);
  }

  /** A run in which a session is recorded disposed that was never recorded opened: its open is
      interrupted once it has become active, and it is then closed. */
  lemma UnrecordedRun(context: Context, target: Target)
    ensures
      var identity := NewIdentity(context, target);
      var events := OpenEvents(context, target, false, 4) + [BeginClose(context, identity), EndClose];
      && Run(context.process, events)
      && End(events).log == [Activated(identity.sessionId), Closed(identity.sessionId)]
  {
    var identity := NewIdentity(context, target);
    var entered, e := OpenEvents(context, target, false, 3)[..4], Continue(false);
    EnteredRun(context, target);
    ContinuesAre(false);
    var process := context.process;
    OneEventMore(process, entered, e);
    OneEventMore(process, entered + [e], Interrupt);
    var cut := entered + [e] + [Interrupt];
    assert cut == OpenEvents(context, target, false, 4);
    OneEventMore(process, cut, BeginClose(context, identity));
    OneEventMore(process, cut + [BeginClose(context, identity)], EndClose);
    assert cut + [BeginClose(context, identity)] + [EndClose] == cut + [BeginClose(context, identity), EndClose];
  }

  /* The service */

  /** What an open answers. */
  function OpenAnswer(context: Context, target: Target, refused: bool, patience: nat): Result<State, Failure> {
    if patience < OpenSteps(refused) then Err(DeadlineExceeded)
    else if refused then Err(RepositoryFailed)
    else Ok(Ready(NewIdentity(context, target)))
  }

  /** Where an open leaves the service that is interrupted after `patience` steps, or refused, or
      neither; said of what the outside can see. */
  ghost predicate OpenLeaves(
    before: Model, context: Context, target: Target, refused: bool, patience: nat, after: Model)
  {
    var sessionId := "session:" + context.requestId;
    var released := WithoutActive(before, context);
    var recorded := before.log +
      if released != before.repository && before.active.value.Ready?
      then [Closed(before.active.value.identity.sessionId)] else [];
    var entered := Some(Session(context.process, target, sessionId));
    var ready := Some(Ready(Identity(context.process, target, sessionId, 1)));
    && after.phase == Idle
    && after.active ==
         (if patience < 2 then before.active else if refused || patience < 4 then None else ready)
    && after.repository == (if refused || patience < 3 then released else entered)
    && after.log ==
         if patience == 0 then before.log
         else if refused || patience < 4 then recorded
         else if patience == 4 then recorded + [Activated(sessionId)]
         else recorded + [Activated(sessionId), Opened(sessionId)]
  }

  /** What the repository holds once it was told to let go of the active session. */
  ghost function WithoutActive(m: Model, context: Context): (repository: Option<Session>)
    ensures repository != m.repository ==> m.active.Some? && repository == None
  {
    if m.active.Some?
       && m.repository == Some(Session(
            context.process, m.active.value.identity.target, m.active.value.identity.sessionId))
    then None else m.repository
  }

  function AfterSteps(m: Model, refused: bool, n: nat): Model {
    if n == 0 then m else Next(AfterSteps(m, refused, n - 1), Continue(refused))
  }

  lemma {:induction false} EndContinues(events: seq<Event>, refused: bool, n: nat)
    ensures End(events + Continues(refused, n)) == AfterSteps(End(events), refused, n)
  {
    hide Next, End;
    if n == 0 {
      assert events + Continues(refused, n) == events;
    } else {
      EndContinues(events, refused, n - 1);
      assert events + Continues(refused, n) == (events + Continues(refused, n - 1)) + [Continue(refused)];
      EndMore(events + Continues(refused, n - 1), Continue(refused));
    }
  }

  lemma ReleasingSteps(m: Model, context: Context, target: Target, refused: bool)
    requires m.phase.Idle?
    ensures
      var opening := Opening(context, target);
      var begun := BeginOpening(m, opening);
      var released := WithoutActive(m, context);
      var recorded := m.log +
        if released != m.repository && m.active.value.Ready?
        then [Closed(m.active.value.identity.sessionId)] else [];
      && AfterSteps(begun, refused, 0)
           == m.(repository := released, phase := Recording(opening, released != m.repository))
      && AfterSteps(begun, refused, 1) == m.(repository := released, log := recorded, phase := Clearing(opening))
      && AfterSteps(begun, refused, 2) == Model(None, released, recorded, Entering(opening))
  {
    hide AfterSteps;
    StepsUnfold(BeginOpening(m, Opening(context, target)), refused);
    assert m.log + [] == m.log;
  }

  lemma StepsLeave(m: Model, context: Context, target: Target, refused: bool, patience: nat)
    requires m.phase.Idle?
    ensures
      var begun := BeginOpening(m, Opening(context, target));
      OpenLeaves(m, context, target, refused, patience,
        if patience < OpenSteps(refused) then AfterSteps(begun, refused, patience).(phase := Idle)
        else AfterSteps(begun, refused, OpenSteps(refused)))
  {
    hide AfterSteps, BeginOpening, WithoutActive;
    ReleasingSteps(m, context, target, refused);
    StepsUnfold(BeginOpening(m, Opening(context, target)), refused);
  }

  lemma StepsUnfold(m: Model, refused: bool)
    ensures AfterSteps(m, refused, 0) == m
    ensures AfterSteps(m, refused, 1) == Next(m, Continue(refused))
    ensures AfterSteps(m, refused, 2) == Next(AfterSteps(m, refused, 1), Continue(refused))
    ensures AfterSteps(m, refused, 3) == Next(AfterSteps(m, refused, 2), Continue(refused))
    ensures AfterSteps(m, refused, 4) == Next(AfterSteps(m, refused, 3), Continue(refused))
    ensures AfterSteps(m, refused, 5) == Next(AfterSteps(m, refused, 4), Continue(refused))
  {
    hide Next;
  }

  /** Whatever happened before, an open leaves the service as described. */
  lemma OpenRunLeaves(events: seq<Event>, context: Context, target: Target, refused: bool, patience: nat)
    requires End(events).phase.Idle?
    ensures OpenLeaves(
      End(events), context, target, refused, patience, End(events + OpenEvents(context, target, refused, patience)))
  {
    hide End, AfterSteps, OpenLeaves, Continues, BeginOpening;
    var begin := BeginOpen(context, target);
    var n := if patience < OpenSteps(refused) then patience else OpenSteps(refused);
    var more := Continues(refused, n);
    EndMore(events, begin);
    EndContinues(events + [begin], refused, n);
    StepsLeave(End(events), context, target, refused, patience);
    assert events + ([begin] + more) == events + [begin] + more;
    if patience < OpenSteps(refused) {
      EndMore(events + [begin] + more, Interrupt);
      assert events + ([begin] + (more + [Interrupt])) == (events + [begin] + more) + [Interrupt];
    }
  }

  /** Where a close leaves the service, and its answer. */
  ghost predicate CloseLeaves(
    before: Model, context: Context, requested: Identity, result: Result<State, Failure>, after: Model)
  {
    if before.active.None? then result == Err(Invalid) && after == before
    else
      var state := before.active.value;
      var disposed := Disposed(state.identity.(version := state.identity.version + 1));
      if state.Disposed? && state.identity in {requested, requested.(version := requested.version + 1)}
      then result == Ok(state) && after == before
      else if state == Ready(requested) && WithoutActive(before, context) != before.repository
      then result == Ok(disposed)
        && after == Model(Some(disposed), None, before.log + [Closed(requested.sessionId)], Idle)
      else result == Err(Superseded) && after == before
  }

  class ReviewService {
    const repository: SnapshotRepository
    var active: Option<State>

    // the process it runs in, everything that has happened so far, and what was recorded of it
    ghost const process: Process
    ghost var events: seq<Event>
    ghost var log: seq<Entry>

    ghost predicate At(phase: Phase)
      reads this, repository
    {
      Run(process, events) && End(events) == Model(active, repository.active, log, phase)
    }

    lemma IsIdle()
      requires At(Idle)
      ensures End(events).phase.Idle?
    {
    }

    constructor (repository: SnapshotRepository, ghost process: Process)
      requires repository.active == None
      ensures this.repository == repository && this.process == process && At(Idle) && events == []
    {
      this.repository := repository;
      this.process := process;
      active := None;
      events := [];
      log := [];
    }

    ghost method Happens(event: Event)
      requires Run(process, events) && Enabled(process, End(events), event)
      modifies `events
      ensures Run(process, events) && events == old(events) + [event]
      ensures End(events) == Next(old(End(events)), event)
    {
      OneEventMore(process, events, event);
      events := events + [event];
    }

    ghost method Interrupted(phase: Phase)
      requires At(phase) && IsOpening(phase)
      modifies `events
      ensures At(Idle) && events == old(events) + [Interrupt]
    {
      Happens(Interrupt);
    }

    /* The steps of an open, each one uninterrupted */

    method LetGo(context: Context, target: Target) returns (closed: bool)
      requires At(Idle) && context.process == process
      modifies this, repository
      ensures At(Recording(Opening(context, target), closed)) && events == old(events) + [BeginOpen(context, target)]
    {
      closed := false;
      if active.Some? {
        closed := repository.CloseSession(RepositoryIdentity(context, active.value.identity));
      }
      Happens(BeginOpen(context, target));
    }

    method RecordClosed(opening: Opening, closed: bool, ghost refused: bool)
      requires At(Recording(opening, closed))
      modifies `log, `events
      ensures At(Clearing(opening)) && events == old(events) + [Continue(refused)]
    {
      if closed && active.Some? && active.value.Ready? {
        log := log + [Closed(active.value.identity.sessionId)];
      }
      Happens(Continue(refused));
    }

    method Clear(opening: Opening, ghost refused: bool)
      requires At(Clearing(opening))
      modifies `active, `events
      ensures At(Entering(opening)) && events == old(events) + [Continue(refused)]
    {
      active := None;
      Happens(Continue(refused));
    }

    method Enter(opening: Opening, refused: bool) returns (accepted: bool)
      requires At(Entering(opening))
      modifies `events, repository
      ensures accepted == !refused && At(if accepted then Activating(opening) else Idle)
      ensures events == old(events) + [Continue(refused)]
    {
      var identity := NewIdentity(opening.context, opening.target);
      accepted := repository.OpenSession(RepositoryIdentity(opening.context, identity), refused);
      Happens(Continue(refused));
    }

    method Activate(opening: Opening, ghost refused: bool)
      requires At(Activating(opening))
      modifies `active, `log, `events
      ensures At(Announcing(opening)) && events == old(events) + [Continue(refused)]
    {
      var identity := NewIdentity(opening.context, opening.target);
      active := Some(Ready(identity));
      log := log + [Activated(identity.sessionId)];
      Happens(Continue(refused));
    }

    method Announce(opening: Opening, ghost refused: bool) returns (state: State)
      requires At(Announcing(opening))
      modifies `log, `events
      ensures At(Idle) && events == old(events) + [Continue(refused)]
      ensures state == Ready(NewIdentity(opening.context, opening.target)) && active == Some(state) && Held(End(events))
    {
      RunKeepsSound(process, events);
      state := active.value;
      log := log + [Opened(state.identity.sessionId)];
      Happens(Continue(refused));
    }

    /** An open runs its steps in order and ends in a state of the runs above, also when it is
        interrupted after `patience` steps; it succeeds exactly when it is neither refused nor
        interrupted, and its session is then the active one and held by the repository. */
    method Open(context: Context, target: Target, refused: bool, patience: nat)
        returns (result: Result<State, Failure>)
      requires At(Idle) && context.process == process
      modifies this, repository
      ensures At(Idle) && events == old(events) + OpenEvents(context, target, refused, patience)
      ensures result == OpenAnswer(context, target, refused, patience)
      ensures result.Ok? ==> active == Some(result.value) && Held(End(events))
      ensures OpenLeaves(old(End(events)), context, target, refused, patience, End(events))
      ensures
        if patience < 3 || (!refused && patience < 5) then result == Err(DeadlineExceeded)
        else if refused then result == Err(RepositoryFailed)
        else result == Ok(Ready(Identity(context.process, target, "session:" + context.requestId, 1)))
    {
      hide At, Run, End, Continues, Held, OpenLeaves;
      assert End(events).phase.Idle? by { IsIdle(); }
      OpenRunLeaves(events, context, target, refused, patience);
      ContinuesAre(refused);
      var opening := Opening(context, target);
      var closed := LetGo(context, target);
      if patience == 0 {
        Interrupted(Recording(opening, closed));
        return Err(DeadlineExceeded);
      }
      RecordClosed(opening, closed, refused);
      if patience == 1 {
        Interrupted(Clearing(opening));
        return Err(DeadlineExceeded);
      }
      Clear(opening, refused);
      if patience == 2 {
        Interrupted(Entering(opening));
        return Err(DeadlineExceeded);
      }
      var accepted := Enter(opening, refused);
      if !accepted {
        return Err(RepositoryFailed);
      }
      if patience == 3 {
        Interrupted(Activating(opening));
        return Err(DeadlineExceeded);
      }
      Activate(opening, refused);
      if patience == 4 {
        Interrupted(Announcing(opening));
        return Err(DeadlineExceeded);
      }
      var state := Announce(opening, refused);
      return Ok(state);
    }

    method Current(requested: Identity) returns (result: Result<State, Failure>)
      ensures forall phase :: At(phase) ==> result == Read(End(events), requested)
      ensures result ==
        if active == None then Err(Invalid)
        else if active.value.identity != requested then Err(Superseded)
        else Ok(active.value)
    {
      if active.None? {
        return Err(Invalid);
      }
      if active.value.identity != requested {
        return Err(Superseded);
      }
      return Ok(active.value);
    }

    /** A close releases the session and makes it disposed, or answers and changes nothing. */
    method Close(context: Context, requested: Identity) returns (result: Result<State, Failure>)
      requires At(Idle) && context.process == process
      modifies this, repository
      ensures At(Idle)
      ensures
        var answer := CloseAnswer(old(End(events)), context, requested);
        && events == old(events) + [BeginClose(context, requested)] + (if answer.Some? then [] else [EndClose])
        && result == (if answer.Some? then answer.value else Ok(Retired(old(active).value)))
      ensures CloseLeaves(old(End(events)), context, requested, result, End(events))
    {
      ghost var answer := CloseAnswer(End(events), context, requested);
      if active.None? {
        Happens(BeginClose(context, requested));
        return Err(Invalid);
      }
      var state := active.value;
      if !CanClose(state, requested) {
        Happens(BeginClose(context, requested));
        return Err(Superseded);
      }
      if state.Disposed? {
        Happens(BeginClose(context, requested));
        return Ok(state);
      }
      var closed := repository.CloseSession(RepositoryIdentity(context, state.identity));
      Happens(BeginClose(context, requested));
      if !closed {
        return Err(Superseded);
      }
      var disposed := Disposed(state.identity.(version := state.identity.version + 1));
      active := Some(disposed);
      log := log + [Closed(state.identity.sessionId)];
      Happens(EndClose);
      return Ok(disposed);
    }
  }
}
