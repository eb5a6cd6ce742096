/** Durable command execution, as a step system over every interleaving of duplicate requests,
    workers, recovery and acknowledgement. A hint is the notification of a terminal command. */
module CommandCoordinator {
  import opened StepSystems
  import opened Wrappers
  import opened CommandStore

  /** A worker runs its command, moves it to its outcome, and publishes if that call won. */
  datatype Worker =
    | Running(accepted: Command)
    | Ran(accepted: Command, succeeded: bool)
    | Publishing(won: Command)

  datatype System = System(
    store: Store,
    active: map<CommandId, Worker>,
    executing: map<CommandId, seq<Command>>,  // acceptances read, whose worker is still to be started
    recovering: map<CommandId, Command>,      // failed by recovery, hint still to be published
    published: map<CommandId, seq<Command>>,  // hints handed to the publisher, whether or not it failed
    runs: map<CommandId, nat>)                // how often the effect of a command was started

  datatype Event =
    | Accept(input: Acceptance)
    | Start(id: CommandId)
    | CommandEnds(id: CommandId, succeeded: bool)
    | Terminates(id: CommandId)
    | StoreFails(id: CommandId)
    | Publishes(id: CommandId)
    | Recovers
    | PublishesRecovered(id: CommandId)
    | Acknowledges(id: CommandId, version: nat)

  const INITIAL := System(map[], map[], map[], map[], map[], map[])

  function ListAt(lists: map<CommandId, seq<Command>>, id: CommandId): seq<Command> {
    if id in lists then lists[id] else []
  }

  function RunsOf(s: System, id: CommandId): nat {
    if id in s.runs then s.runs[id] else 0
  }

  predicate IsPublishing(s: System, id: CommandId) {
    id in s.active && s.active[id].Publishing?
  }

  /** The acceptances waiting once this one has been answered with `command`. */
  function Waiting(
    lists: map<CommandId, seq<Command>>, id: CommandId, command: Option<Command>): map<CommandId, seq<Command>>
  {
    if command.Some? && command.value.state.Accepted? then lists[id := ListAt(lists, id) + [command.value]] else lists
  }

  /** The worker map takes a worker only for a command that has none. */
  function Started(s: System, id: CommandId): System
    requires ListAt(s.executing, id) != []
  {
    var waiting := ListAt(s.executing, id);
    var left := s.(executing := s.executing[id := waiting[1..]]);
    if id in s.active then left else
      left.(active := s.active[id := Running(waiting[0])],
            runs := s.runs[id := RunsOf(s, id) + 1])
  }

  function Terminated(s: System, id: CommandId): System
    requires id in s.active && s.active[id].Ran? && id in s.store
  {
    var worker := s.active[id];
    var (transition, store) :=
      Terminate(s.store, if worker.succeeded then Committed else Failed, id, worker.accepted.stateVersion);
    s.(store := store,
       active := if transition.won then s.active[id := Publishing(transition.command)] else s.active - {id})
  }

  function Published(s: System, id: CommandId, command: Command): map<CommandId, seq<Command>> {
    s.published[id := ListAt(s.published, id) + [command]]
  }

  function Step(s: System, e: Event): Option<System> {
    match e
    case Accept(input) =>
      var (command, store) := AcceptOrGet(s.store, input);
      Some(s.(store := store, executing := Waiting(s.executing, input.commandId, command)))
    case Start(id) =>
      if ListAt(s.executing, id) == [] then None else Some(Started(s, id))
    case CommandEnds(id, succeeded) =>
      if id in s.active && s.active[id].Running?
      then Some(s.(active := s.active[id := Ran(s.active[id].accepted, succeeded)])) else None
    case Terminates(id) =>
      if id in s.active && s.active[id].Ran? && id in s.store then Some(Terminated(s, id)) else None
    case StoreFails(id) =>
      if id in s.active && s.active[id].Ran?
      then Some(s.(active := s.active - {id})) else None
    case Publishes(id) =>
      if IsPublishing(s, id)
      then Some(s.(published := Published(s, id, s.active[id].won), active := s.active - {id})) else None
    case Recovers =>
      Some(s.(store := RecoverAcceptedAsFailed(s.store), recovering := s.recovering + Recovered(s.store)))
    case PublishesRecovered(id) =>
      if id in s.recovering
      then Some(s.(published := Published(s, id, s.recovering[id]), recovering := s.recovering - {id})) else None
    case Acknowledges(id, version) =>
      Some(s.(store := Acknowledge(s.store, id, version)))
  }

  /** Everything the system knows about one command. */
  datatype View = View(
    stored: Option<Command>, worker: Option<Worker>, waiting: seq<Command>, recovering: Option<Command>,
    hints: seq<Command>, runs: nat)

  function Lookup<T>(m: map<CommandId, T>, id: CommandId): Option<T> {
    if id in m then Some(m[id]) else None
  }

  function ViewOf(s: System, id: CommandId): View {
    View(Lookup(s.store, id), Lookup(s.active, id), ListAt(s.executing, id), Lookup(s.recovering, id),
         ListAt(s.published, id), RunsOf(s, id))
  }

  /** The terminal command, or the acknowledgement of it, is what is stored. */
  predicate Holds(v: View, command: Command) {
    && v.stored.Some?
    && IsTerminal(command.state) && command.stateVersion == 2
    && (v.stored.value == command || v.stored.value == command.(state := Acknowledged, stateVersion := 3))
  }

  predicate WasAccepted(v: View, command: Command) {
    && v.stored.Some?
    && command.state.Accepted? && command.stateVersion == 1
    && command == v.stored.value.(state := Accepted, stateVersion := 1)
  }

  predicate HasOutcome(v: View) {
    v.stored.Some? && !v.stored.value.state.Accepted?
  }

  function One(b: bool): nat {
    if b then 1 else 0
  }

  predicate WorkerPublishing(v: View) {
    v.worker.Some? && v.worker.value.Publishing?
  }

  /** Hints for a command, published or on their way. */
  function Hints(v: View): nat {
    |v.hints| + One(v.recovering.Some?) + One(WorkerPublishing(v))
  }

  predicate RowSound(v: View, id: CommandId) {
    v.stored.Some? ==>
      var row := v.stored.value;
      && row.commandId == id
      && 1 <= row.stateVersion <= 3
      && (row.state.Accepted? <==> row.stateVersion == 1)
      && (IsTerminal(row.state) <==> row.stateVersion == 2)
  }

  /** A command has exactly one hint once it has an outcome and none before, and it tells the truth. */
  predicate HintsSound(v: View) {
    && Hints(v) == One(HasOutcome(v))
    && (forall i :: 0 <= i < |v.hints| ==> Holds(v, v.hints[i]))
    && (v.recovering.Some? ==> Holds(v, v.recovering.value))
    && (WorkerPublishing(v) ==> Holds(v, v.worker.value.won))
  }

  /** Workers belong to accepted commands. */
  predicate WorkersSound(v: View) {
    && (v.worker.Some? && !v.worker.value.Publishing? ==> WasAccepted(v, v.worker.value.accepted))
    && (forall i :: 0 <= i < |v.waiting| ==> WasAccepted(v, v.waiting[i]))
  }

  predicate Sound(v: View, id: CommandId) {
    RowSound(v, id) && HintsSound(v) && WorkersSound(v)
  }

  /** The command an event is about; recovery is about all of them. */
  function Subject(e: Event): Option<CommandId> {
    match e
    case Accept(input) => Some(input.commandId)
    case Recovers => None
    case Start(id) => Some(id)
    case CommandEnds(id, _) => Some(id)
    case Terminates(id) => Some(id)
    case StoreFails(id) => Some(id)
    case Publishes(id) => Some(id)
    case PublishesRecovered(id) => Some(id)
    case Acknowledges(id, _) => Some(id)
  }

  lemma RequestsTouchOne(s: System, e: Event, id: CommandId)
    requires Step(s, e).Some? && (e.Accept? || e.Start? || e.Acknowledges?) && Subject(e) != Some(id)
    ensures ViewOf(Step(s, e).value, id) == ViewOf(s, id)
  {
    hide Terminate, Recovered;
  }

  lemma WorkersTouchOne(s: System, e: Event, id: CommandId)
    requires Step(s, e).Some? && (e.CommandEnds? || e.StoreFails? || e.Terminates?) && Subject(e) != Some(id)
    ensures ViewOf(Step(s, e).value, id) == ViewOf(s, id)
  {
    hide AcceptOrGet, Recovered, Acknowledge;
  }

  lemma HintsTouchOne(s: System, e: Event, id: CommandId)
    requires Step(s, e).Some? && (e.Publishes? || e.PublishesRecovered?) && Subject(e) != Some(id)
    ensures ViewOf(Step(s, e).value, id) == ViewOf(s, id)
  {
    hide AcceptOrGet, Recovered, Acknowledge, Terminate;
  }

  /** Commands do not disturb each other. */
  lemma OthersUntouched(s: System, e: Event, id: CommandId)
    requires Step(s, e).Some? && Subject(e).Some? && Subject(e).value != id
    ensures ViewOf(Step(s, e).value, id) == ViewOf(s, id)
  {
    hide Step, ViewOf;
    if e.Accept? || e.Start? || e.Acknowledges? { RequestsTouchOne(s, e, id); }
    else if e.Publishes? || e.PublishesRecovered? { HintsTouchOne(s, e, id); }
    else { WorkersTouchOne(s, e, id); }
  }

  lemma AcceptKeepsSound(s: System, input: Acceptance)
    requires Sound(ViewOf(s, input.commandId), input.commandId)
    ensures Sound(ViewOf(Step(s, Accept(input)).value, input.commandId), input.commandId)
  {
    var id, t := input.commandId, Step(s, Accept(input)).value;
    var v, w := ViewOf(s, id), ViewOf(t, id);
    assert v.stored.Some? ==> w.stored == v.stored;
    assert w.waiting == v.waiting || (w.waiting == v.waiting + [w.stored.value] && w.stored.value.state.Accepted?);
    assert w == v.(stored := w.stored, waiting := w.waiting);
    AcceptedIsSound(v, w, input);
  }

  lemma AcceptedIsSound(v: View, w: View, input: Acceptance)
    requires Sound(v, input.commandId) && w == v.(stored := w.stored, waiting := w.waiting)
    requires w.stored ==
      if v.stored.Some? then v.stored
      else Some(Command(input.commandId, input.processEpoch, input.metadata, Accepted, 1))
    requires w.waiting == v.waiting || (w.waiting == v.waiting + [w.stored.value] && w.stored.value.state.Accepted?)
    ensures Sound(w, input.commandId)
  {
  }

  /** What starting does: the worker map takes a worker only for a command that has none. */
  function StartedView(v: View): View
    requires v.waiting != []
  {
    var left := v.(waiting := v.waiting[1..]);
    if v.worker.Some? then left
    else left.(worker := Some(Running(v.waiting[0])), runs := v.runs + 1)
  }

  lemma StartView(s: System, id: CommandId)
    requires ListAt(s.executing, id) != []
    ensures ViewOf(s, id).waiting != [] && ViewOf(Started(s, id), id) == StartedView(ViewOf(s, id))
  {
  }

  lemma StartedIsSound(v: View, id: CommandId)
    requires Sound(v, id) && v.waiting != []
    ensures Sound(StartedView(v), id)
  {
  }

  lemma StartKeepsSound(s: System, id: CommandId)
    requires Sound(ViewOf(s, id), id) && Step(s, Start(id)).Some?
    ensures Sound(ViewOf(Step(s, Start(id)).value, id), id)
  {
    hide Sound, ViewOf, StartedView, Started;
    StartView(s, id);
    StartedIsSound(ViewOf(s, id), id);
  }

  lemma WorkersKeepSound(s: System, e: Event, id: CommandId)
    requires (e.CommandEnds? || e.StoreFails?) && Subject(e) == Some(id)
    requires Sound(ViewOf(s, id), id) && Step(s, e).Some?
    ensures Sound(ViewOf(Step(s, e).value, id), id)
  {
  }

  lemma TerminationKeepsSound(s: System, id: CommandId)
    requires Sound(ViewOf(s, id), id) && Step(s, Terminates(id)).Some?
    ensures Sound(ViewOf(Step(s, Terminates(id)).value, id), id)
  {
  }

  lemma HintsKeepSound(s: System, e: Event, id: CommandId)
    requires (e.Publishes? || e.PublishesRecovered?) && Subject(e) == Some(id)
    requires Sound(ViewOf(s, id), id) && Step(s, e).Some?
    ensures Sound(ViewOf(Step(s, e).value, id), id)
  {
  }

  lemma RecoveryKeepsSound(s: System, id: CommandId)
    requires Sound(ViewOf(s, id), id)
    ensures Sound(ViewOf(Step(s, Recovers).value, id), id)
  {
    hide AcceptOrGet, Terminate, Acknowledge, Terminated, Started, Published;
  }

  lemma AcknowledgementKeepsSound(s: System, id: CommandId, version: nat)
    requires Sound(ViewOf(s, id), id)
    ensures Sound(ViewOf(Step(s, Acknowledges(id, version)).value, id), id)
  {
    hide AcceptOrGet, Terminate, Recovered, Terminated, Started, Published;
  }

  lemma StoreKeepsSound(s: System, e: Event, id: CommandId)
    requires e.Recovers? || (e.Acknowledges? && e.id == id)
    requires Sound(ViewOf(s, id), id) && Step(s, e).Some?
    ensures Sound(ViewOf(Step(s, e).value, id), id)
  {
    hide Sound, ViewOf, Step;
    match e
    case Recovers => RecoveryKeepsSound(s, id);
    case Acknowledges(_, version) => AcknowledgementKeepsSound(s, id, version);
  }

  lemma StepKeepsSound(s: System, e: Event, id: CommandId)
    requires Sound(ViewOf(s, id), id) && Step(s, e).Some?
    ensures Sound(ViewOf(Step(s, e).value, id), id)
  {
    hide Sound, Step, ViewOf;
    if Subject(e).Some? && Subject(e).value != id {
      OthersUntouched(s, e, id);
    } else {
      match e
      case Accept(input) => AcceptKeepsSound(s, input);
      case Start(_) => StartKeepsSound(s, id);
      case CommandEnds(_, _) => WorkersKeepSound(s, e, id);
      case StoreFails(_) => WorkersKeepSound(s, e, id);
      case Terminates(_) => TerminationKeepsSound(s, id);
      case Publishes(_) => HintsKeepSound(s, e, id);
      case PublishesRecovered(_) => HintsKeepSound(s, e, id);
      case Recovers => StoreKeepsSound(s, e, id);
      case Acknowledges(_, _) => StoreKeepsSound(s, e, id);
    }
  }

  lemma StepExtendsStore(s: System, e: Event, id: CommandId)
    requires Sound(ViewOf(s, id), id) && Step(s, e).Some?
    ensures RowExtends(s.store, Step(s, e).value.store, id)
  {
    hide HintsSound, WorkersSound;
  }

  /** Whatever runs beside it, each command stays sound, and the store never takes anything back. */
  lemma {:induction false} RunKeepsSound(s: System, events: seq<Event>, id: CommandId)
    requires Sound(ViewOf(s, id), id) && Run(Step, s, events).Some?
    ensures Sound(ViewOf(Run(Step, s, events).value, id), id)
    ensures RowExtends(s.store, Run(Step, s, events).value.store, id)
    decreases |events|
  {
    hide Sound, ViewOf, Step;
    if events != [] {
      StepKeepsSound(s, events[0], id);
      StepExtendsStore(s, events[0], id);
      RunKeepsSound(Step(s, events[0]).value, events[1..], id);
    }
  }

  /** A hint is published only when the store already has the outcome it tells of, only once, and a
      publication (which may fail) never changes the store. */
  lemma HintsFollowTheStore(events: seq<Event>, e: Event, id: CommandId)
    requires Run(Step, INITIAL, events).Some? && Step(Run(Step, INITIAL, events).value, e).Some?
    requires e == Publishes(id) || e == PublishesRecovered(id)
    ensures var s := Run(Step, INITIAL, events).value;
            var t := Step(s, e).value;
      && t.store == s.store
      && ListAt(s.published, id) == [] && |ListAt(t.published, id)| == 1
      && Holds(ViewOf(s, id), ListAt(t.published, id)[0])
  {
    RunKeepsSound(INITIAL, events, id);
  }

  /** At any time a command has exactly one hint, published or on its way, if it has an outcome, and
      none otherwise; a command that is being worked on was accepted. */
  lemma OneHintPerOutcome(events: seq<Event>, id: CommandId)
    requires Run(Step, INITIAL, events).Some?
    ensures var s := Run(Step, INITIAL, events).value;
      && Hints(ViewOf(s, id)) == One(HasOutcome(ViewOf(s, id)))
      && (forall i :: 0 <= i < |ListAt(s.published, id)| ==> Holds(ViewOf(s, id), ListAt(s.published, id)[i]))
      && (id in s.active ==> id in s.store)
  {
    RunKeepsSound(INITIAL, events, id);
  }

  /* What the outcome of a command is */

  /** How the effect of a command ended the last time it ended. */
  function LastEnd(events: seq<Event>, id: CommandId): Option<bool> {
    if events == [] then None
    else
      match events[|events| - 1]
      case CommandEnds(other, succeeded) => if other == id then Some(succeeded) else LastEnd(events[..|events| - 1], id)
      case _ => LastEnd(events[..|events| - 1], id)
  }

  lemma {:induction false} LastEndHappened(events: seq<Event>, id: CommandId, succeeded: bool)
    requires LastEnd(events, id) == Some(succeeded)
    ensures CommandEnds(id, succeeded) in events
  {
    var last := |events| - 1;
    if events[last] != CommandEnds(id, succeeded) {
      LastEndHappened(events[..last], id, succeeded);
    }
  }

  ghost predicate IsAccepted(s: System, id: CommandId) {
    id in s.store && s.store[id].state == Accepted
  }

  /** The event that gives an accepted command its outcome: its worker's terminal transition, after
      the effect succeeded or did not, or a recovery. */
  ghost predicate DecidesAt(events: seq<Event>, j: nat, id: CommandId, outcome: CommandState)
    requires j < |events|
  {
    var before := Run(Step, INITIAL, events[..j]);
    before.Some? && Decides(before.value, events[..j], events[j], id, outcome)
  }

  ghost predicate Decides(s: System, before: seq<Event>, e: Event, id: CommandId, outcome: CommandState) {
    && IsAccepted(s, id)
    && (|| (e == Recovers && outcome == Failed)
        || (e == Terminates(id) && LastEnd(before, id) == Some(true) && outcome == Committed)
        || (e == Terminates(id) && LastEnd(before, id) == Some(false) && outcome == Failed))
  }

  ghost predicate WasDecided(events: seq<Event>, id: CommandId, outcome: CommandState) {
    exists j :: 0 <= j < |events| && DecidesAt(events, j, id, outcome)
  }

  lemma DecidedMore(events: seq<Event>, e: Event, id: CommandId, outcome: CommandState)
    requires Run(Step, INITIAL, events).Some?
    ensures WasDecided(events + [e], id, outcome) <==>
      WasDecided(events, id, outcome) || Decides(Run(Step, INITIAL, events).value, events, e, id, outcome)
  {
    hide Run, Decides;
    var more := events + [e];
    assert more[..|events|] == events;
    assert forall j :: 0 <= j < |events| ==> more[..j] == events[..j] && more[j] == events[j];
    if WasDecided(more, id, outcome) {
      var j :| 0 <= j < |more| && DecidesAt(more, j, id, outcome);
      assert j < |events| ==> DecidesAt(events, j, id, outcome);
    }
    if WasDecided(events, id, outcome) {
      var j :| 0 <= j < |events| && DecidesAt(events, j, id, outcome);
      assert DecidesAt(more, j, id, outcome);
    }
    if Decides(Run(Step, INITIAL, events).value, events, e, id, outcome) {
      assert DecidesAt(more, |events|, id, outcome);
    }
  }

  /** A hint for the command, published or on its way, tells of this outcome. */
  ghost predicate Tells(s: System, id: CommandId, outcome: CommandState) {
    || (exists i :: 0 <= i < |ListAt(s.published, id)| && ListAt(s.published, id)[i].state == outcome)
    || (id in s.recovering && s.recovering[id].state == outcome)
    || (IsPublishing(s, id) && s.active[id].won.state == outcome)
  }

  ghost predicate Stores(s: System, id: CommandId, outcome: CommandState) {
    id in s.store && s.store[id].state == outcome
  }

  ghost predicate RanAs(s: System, id: CommandId, succeeded: bool) {
    id in s.active && s.active[id].Ran? && s.active[id].succeeded == succeeded
  }

  lemma RanStep(s: System, e: Event, id: CommandId, succeeded: bool)
    requires Step(s, e).Some? && RanAs(Step(s, e).value, id, succeeded)
    ensures e == CommandEnds(id, succeeded) || (RanAs(s, id, succeeded) && (e.CommandEnds? ==> e.id != id))
  {
    hide AcceptOrGet, Recovered, Acknowledge;
  }

  /** What a step makes of a command's stored state: an outcome comes from the worker's own result. */
  lemma StoredStep(s: System, e: Event, id: CommandId, outcome: CommandState)
    requires Sound(ViewOf(s, id), id) && Step(s, e).Some? && (outcome == Committed || outcome == Failed)
    ensures Stores(Step(s, e).value, id, outcome) ==>
      || Stores(s, id, outcome)
      || (IsAccepted(s, id)
          && ((e == Recovers && outcome == Failed) || (e == Terminates(id) && RanAs(s, id, outcome == Committed))))
    ensures Stores(Step(s, e).value, id, Acknowledged) ==>
      Stores(s, id, Acknowledged) || Stores(s, id, Committed) || Stores(s, id, Failed)
  {
    hide HintsSound, WorkersSound;
  }

  lemma HintsStep(s: System, e: Event, id: CommandId, outcome: CommandState)
    requires Sound(ViewOf(s, id), id) && Step(s, e).Some?
    ensures Tells(Step(s, e).value, id, outcome) ==>
      Tells(s, id, outcome) || (IsAccepted(s, id) && Stores(Step(s, e).value, id, outcome))
  {
    hide Tells, Step, Sound;
    if e.Publishes? || e.PublishesRecovered? {
      HintsPublishedStep(s, e, id, outcome);
    } else if e.Recovers? {
      RecoveryHints(s, id, outcome);
    } else {
      HintsArise(s, e, id, outcome);
    }
  }

  lemma HintsPublishedStep(s: System, e: Event, id: CommandId, outcome: CommandState)
    requires Step(s, e).Some? && (e.Publishes? || e.PublishesRecovered?)
    ensures Tells(Step(s, e).value, id, outcome) ==> Tells(s, id, outcome)
  {
    hide AcceptOrGet, Recovered, Acknowledge, Terminate;
    var t := Step(s, e).value;
    var before, after := ListAt(s.published, id), ListAt(t.published, id);
    if Tells(t, id, outcome) && e.id == id {
      var told := if e.Publishes? then s.active[id].won else s.recovering[id];
      assert after == before + [told];
      if exists i :: 0 <= i < |after| && after[i].state == outcome {
        var i :| 0 <= i < |after| && after[i].state == outcome;
        assert i < |before| ==> before[i].state == outcome;
      }
    }
  }

  lemma RecoveryHints(s: System, id: CommandId, outcome: CommandState)
    requires Sound(ViewOf(s, id), id)
    ensures Tells(Step(s, Recovers).value, id, outcome) ==>
      Tells(s, id, outcome) || (IsAccepted(s, id) && Stores(Step(s, Recovers).value, id, outcome))
  {
    hide HintsSound, WorkersSound, AcceptOrGet, Acknowledge, Terminate;
    assert Step(s, Recovers).value.published == s.published && Step(s, Recovers).value.active == s.active;
  }

  lemma HintsArise(s: System, e: Event, id: CommandId, outcome: CommandState)
    requires Step(s, e).Some? && !e.Publishes? && !e.PublishesRecovered? && !e.Recovers?
    ensures Tells(Step(s, e).value, id, outcome) ==>
      Tells(s, id, outcome) || (IsAccepted(s, id) && Stores(Step(s, e).value, id, outcome))
  {
    hide AcceptOrGet, Recovered, Acknowledge;
    assert Step(s, e).value.published == s.published && Step(s, e).value.recovering == s.recovering;
  }

  /** Everything that is stored or told of an outcome was decided, and a worker's result is that of
      its last run of the effect. */
  ghost predicate Accounted(events: seq<Event>, id: CommandId) {
    var s := Run(Step, INITIAL, events);
    && s.Some?
    && (forall succeeded :: RanAs(s.value, id, succeeded) ==> LastEnd(events, id) == Some(succeeded))
    && (forall outcome | outcome == Committed || outcome == Failed ::
          Stores(s.value, id, outcome) ==> WasDecided(events, id, outcome))
    && (forall outcome :: Tells(s.value, id, outcome) ==> WasDecided(events, id, outcome))
    && (Stores(s.value, id, Acknowledged) ==> WasDecided(events, id, Committed) || WasDecided(events, id, Failed))
  }

  lemma LastEndMore(events: seq<Event>, e: Event, id: CommandId)
    ensures LastEnd(events + [e], id) ==
      if e.CommandEnds? && e.id == id then Some(e.succeeded) else LastEnd(events, id)
  {
    assert (events + [e])[..|events|] == events;
  }

  lemma AccountedInitially(id: CommandId)
    ensures Accounted([], id)
  {
    assert Run(Step, INITIAL, []) == Some(INITIAL);
  }

  lemma AccountedStep(before: seq<Event>, e: Event, id: CommandId)
    requires Accounted(before, id) && Run(Step, INITIAL, before + [e]).Some?
    requires Sound(ViewOf(Run(Step, INITIAL, before).value, id), id)
    ensures Accounted(before + [e], id)
  {
    hide Run, Step, WasDecided, Tells, Stores, RanAs, IsAccepted, LastEnd, Sound, ViewOf;
    var events := before + [e];
    LastStep(before, e);
    LastEndMore(before, e, id);
    var s, t := Run(Step, INITIAL, before).value, Run(Step, INITIAL, events).value;
    StepKeepsSound(s, e, id);
    forall succeeded | RanAs(t, id, succeeded)
      ensures LastEnd(events, id) == Some(succeeded)
    {
      RanStep(s, e, id, succeeded);
    }
    forall outcome | outcome == Committed || outcome == Failed
      ensures Stores(t, id, outcome) ==> WasDecided(events, id, outcome)
      ensures WasDecided(before, id, outcome) ==> WasDecided(events, id, outcome)
    {
      StoredStep(s, e, id, outcome);
      DecidedMore(before, e, id, outcome);
    }
    StoredStep(s, e, id, Committed);
    forall outcome | Tells(t, id, outcome)
      ensures WasDecided(events, id, outcome)
    {
      HintsStep(s, e, id, outcome);
      DecidedMore(before, e, id, outcome);
      OutcomeIsTold(t, id, outcome);
      StoredStep(s, e, id, outcome);
    }
  }

  /** A hint tells of an outcome. */
  lemma OutcomeIsTold(s: System, id: CommandId, outcome: CommandState)
    requires Sound(ViewOf(s, id), id) && Tells(s, id, outcome)
    ensures outcome == Committed || outcome == Failed
  {
  }

  lemma {:induction false} RunIsAccounted(events: seq<Event>, id: CommandId)
    requires Run(Step, INITIAL, events).Some?
    ensures Accounted(events, id)
  {
    hide Run, Accounted, ViewOf, Sound;
    if events == [] {
      AccountedInitially(id);
    } else {
      var before, e := events[..|events| - 1], events[|events| - 1];
      assert events == before + [e];
      LastStep(before, e);
      RunIsAccounted(before, id);
      SoundBefore(before, id);
      AccountedStep(before, e, id);
    }
  }

  lemma DecidingStores(s: System, before: seq<Event>, e: Event, id: CommandId, outcome: CommandState)
    requires Sound(ViewOf(s, id), id) && Step(s, e).Some? && Decides(s, before, e, id, outcome)
    requires forall succeeded :: RanAs(s, id, succeeded) ==> LastEnd(before, id) == Some(succeeded)
    ensures Stores(Step(s, e).value, id, outcome)
  {
    hide HintsSound, LastEnd;
    if e.Terminates? {
      assert RanAs(s, id, s.active[id].succeeded);
    }
  }

  lemma OutcomeStored(s: System, e: Event, id: CommandId, outcome: CommandState)
    requires Sound(ViewOf(s, id), id) && Step(s, e).Some? && (outcome == Committed || outcome == Failed)
    requires Stores(s, id, outcome) || Stores(s, id, Acknowledged)
    ensures Stores(Step(s, e).value, id, outcome) || Stores(Step(s, e).value, id, Acknowledged)
  {
    hide HintsSound, WorkersSound;
  }

  lemma {:induction false} DecidedIsStored(events: seq<Event>, id: CommandId, outcome: CommandState)
    requires Run(Step, INITIAL, events).Some? && WasDecided(events, id, outcome)
    ensures outcome == Committed || outcome == Failed
    ensures Stores(Run(Step, INITIAL, events).value, id, outcome)
         || Stores(Run(Step, INITIAL, events).value, id, Acknowledged)
  {
    hide Run, Step, WasDecided, Stores, Sound, ViewOf, IsAccepted, RanAs, LastEnd;
    if events == [] {
      NothingDecided(id, outcome);
    } else {
      var before, e := events[..|events| - 1], events[|events| - 1];
      assert events == before + [e];
      LastStep(before, e);
      SoundBefore(before, id);
      RunIsAccounted(before, id);
      DecidedMore(before, e, id, outcome);
      var s := Run(Step, INITIAL, before).value;
      if WasDecided(before, id, outcome) {
        DecidedIsStored(before, id, outcome);
        OutcomeStored(s, e, id, outcome);
      } else {
        DecidingStores(s, before, e, id, outcome);
      }
    }
  }

  lemma NothingDecided(id: CommandId, outcome: CommandState)
    ensures !WasDecided([], id, outcome)
  {
  }

  lemma DecidedBecause(events: seq<Event>, id: CommandId, outcome: CommandState)
    requires WasDecided(events, id, outcome)
    ensures outcome == Committed ==> CommandEnds(id, true) in events && Terminates(id) in events
    ensures outcome == Failed ==> (CommandEnds(id, false) in events && Terminates(id) in events) || Recovers in events
  {
    hide Run, LastEnd;
    var j :| 0 <= j < |events| && DecidesAt(events, j, id, outcome);
    if events[j] == Terminates(id) {
      LastEndHappened(events[..j], id, outcome == Committed);
    }
  }

  /** The outcome of a command, stored or told by a hint, is what its worker's last run of the effect
      came to when the terminal transition won, or a failure when recovery came first: committed only
      after the effect succeeded, failed only after it failed or by a recovery. */
  lemma OutcomeIsTheWorkers(events: seq<Event>, id: CommandId, outcome: CommandState)
    requires Run(Step, INITIAL, events).Some? && (outcome == Committed || outcome == Failed)
    ensures
      var s := Run(Step, INITIAL, events).value;
      && (Stores(s, id, outcome) || Tells(s, id, outcome) ==> WasDecided(events, id, outcome))
      && (Stores(s, id, Acknowledged) ==> WasDecided(events, id, Committed) || WasDecided(events, id, Failed))
      && (WasDecided(events, id, outcome) ==> Stores(s, id, outcome) || Stores(s, id, Acknowledged))
    ensures WasDecided(events, id, Committed) ==> CommandEnds(id, true) in events && Terminates(id) in events
    ensures WasDecided(events, id, Failed) ==>
      (CommandEnds(id, false) in events && Terminates(id) in events) || Recovers in events
  {
    hide Run, WasDecided, Stores, Tells;
    RunIsAccounted(events, id);
    if WasDecided(events, id, outcome) {
      DecidedIsStored(events, id, outcome);
    }
    if WasDecided(events, id, Committed) {
      DecidedBecause(events, id, Committed);
    }
    if WasDecided(events, id, Failed) {
      DecidedBecause(events, id, Failed);
    }
  }

  /* How often the effect of a command runs */

  ghost predicate Leaves(s: System, e: Event, id: CommandId) {
    Step(s, e).Some? && id in s.active && id !in Step(s, e).value.active
  }

  /** A worker leaves after publishing, on losing the terminal transition, or on a store error. */
  lemma LeavesExactly(s: System, e: Event, id: CommandId)
    requires Step(s, e).Some?
    ensures Leaves(s, e, id) <==>
      || e == StoreFails(id) || e == Publishes(id)
      || (e == Terminates(id)
          && (!s.store[id].state.Accepted? || s.store[id].stateVersion != s.active[id].accepted.stateVersion))
  {
  }

  /** The worker of the command leaves the worker map with the event at `i` of a run from `INITIAL`. */
  ghost predicate LeavesAt(events: seq<Event>, i: nat, id: CommandId)
    requires i < |events|
  {
    Run(Step, INITIAL, events[..i]).Some? && Leaves(Run(Step, INITIAL, events[..i]).value, events[i], id)
  }

  ghost predicate HasLeft(events: seq<Event>, id: CommandId) {
    exists i :: 0 <= i < |events| && LeavesAt(events, i, id)
  }

  /** A request starts its worker, or finds one, after a worker of the command has already left. */
  ghost predicate StartsAgain(events: seq<Event>, id: CommandId) {
    exists j :: 0 <= j < |events| && StartsAgainAt(events, j, id)
  }

  ghost predicate StartsAgainAt(events: seq<Event>, j: nat, id: CommandId)
    requires j < |events|
  {
    events[j] == Start(id) && HasLeft(events[..j], id)
  }

  lemma HasLeftStep(events: seq<Event>, e: Event, id: CommandId)
    requires Run(Step, INITIAL, events).Some?
    ensures HasLeft(events + [e], id) <==> HasLeft(events, id) || Leaves(Run(Step, INITIAL, events).value, e, id)
  {
    hide Run, Leaves;
    var more := events + [e];
    assert more[..|events|] == events;
    assert forall i :: 0 <= i < |events| ==> more[..i] == events[..i] && more[i] == events[i];
    if HasLeft(more, id) {
      var i :| 0 <= i < |more| && LeavesAt(more, i, id);
      assert i < |events| ==> LeavesAt(events, i, id);
    }
    if HasLeft(events, id) {
      var i :| 0 <= i < |events| && LeavesAt(events, i, id);
      assert LeavesAt(more, i, id);
    }
    if Leaves(Run(Step, INITIAL, events).value, e, id) {
      assert LeavesAt(more, |events|, id);
    }
  }

  lemma StartsAgainStep(events: seq<Event>, e: Event, id: CommandId)
    ensures StartsAgain(events + [e], id) <==> StartsAgain(events, id) || (e == Start(id) && HasLeft(events, id))
  {
    hide HasLeft;
    var more := events + [e];
    assert more[..|events|] == events;
    assert forall j :: 0 <= j < |events| ==> more[..j] == events[..j] && more[j] == events[j];
    if StartsAgain(more, id) {
      var j :| 0 <= j < |more| && StartsAgainAt(more, j, id);
      assert j < |events| ==> StartsAgainAt(events, j, id);
    }
    if StartsAgain(events, id) {
      var j :| 0 <= j < |events| && StartsAgainAt(events, j, id);
      assert StartsAgainAt(more, j, id);
    }
    if e == Start(id) && HasLeft(events, id) {
      assert StartsAgainAt(more, |events|, id);
    }
  }

  /** What a step does to the worker of a command and to the count of its runs. */
  lemma RunsStep(s: System, e: Event, id: CommandId)
    requires Step(s, e).Some?
    ensures
      var t := Step(s, e).value;
      && RunsOf(t, id) == RunsOf(s, id) + (if e == Start(id) && id !in s.active then 1 else 0)
      && (id !in s.active ==> (id in t.active <==> e == Start(id)))
  {
  }

  lemma {:induction false} RunsCounted(events: seq<Event>, id: CommandId)
    requires Run(Step, INITIAL, events).Some?
    ensures
      var s := Run(Step, INITIAL, events).value;
      && (RunsOf(s, id) > 0 <==> id in s.active || HasLeft(events, id))
      && (RunsOf(s, id) > 1 <==> StartsAgain(events, id))
      && (id in s.active && HasLeft(events, id) ==> RunsOf(s, id) > 1)
  {
    hide Run, Step, HasLeft, StartsAgain;
    if events == [] {
      NothingRan(id);
    } else {
      var before, e := events[..|events| - 1], events[|events| - 1];
      assert events == before + [e];
      LastStep(before, e);
      RunsCounted(before, id);
      HasLeftStep(before, e, id);
      StartsAgainStep(before, e, id);
      RunsStep(Run(Step, INITIAL, before).value, e, id);
    }
  }

  lemma NothingRan(id: CommandId)
    ensures Run(Step, INITIAL, []) == Some(INITIAL) && !HasLeft([], id) && !StartsAgain([], id)
    ensures RunsOf(INITIAL, id) == 0 && id !in INITIAL.active
  {
  }

  lemma LastStep(before: seq<Event>, e: Event)
    requires Run(Step, INITIAL, before + [e]).Some?
    ensures Run(Step, INITIAL, before).Some?
    ensures Step(Run(Step, INITIAL, before).value, e) == Run(Step, INITIAL, before + [e])
  {
    RunSplits(Step, INITIAL, before, e);
  }

  /** The effect of a command runs more than once exactly when some request starts its worker after
      an earlier worker of the command has left the worker map. */
  lemma RunsAgainExactly(events: seq<Event>, id: CommandId)
    requires Run(Step, INITIAL, events).Some?
    ensures RunsOf(Run(Step, INITIAL, events).value, id) > 1 <==> StartsAgain(events, id)
  {
    RunsCounted(events, id);
  }

  lemma LeavingStep(s: System, e: Event, id: CommandId)
    requires Sound(ViewOf(s, id), id) && Leaves(s, e, id) && e != StoreFails(id)
    ensures HasOutcome(ViewOf(Step(s, e).value, id))
  {
  }

  /** Once a worker of a command has left, the command has an outcome, unless the terminal transition
      met a store error: a later start is then on an acceptance that is no longer current. */
  lemma {:induction false} LeftWithOutcome(events: seq<Event>, id: CommandId)
    requires Run(Step, INITIAL, events).Some? && HasLeft(events, id)
    ensures HasOutcome(ViewOf(Run(Step, INITIAL, events).value, id)) || StoreFails(id) in events
  {
    hide Run, Step, HasLeft, Leaves, ViewOf, Sound, HasOutcome;
    if events == [] {
      NothingRan(id);
    } else {
      var before, e := events[..|events| - 1], events[|events| - 1];
      assert events == before + [e];
      LastStep(before, e);
      HasLeftStep(before, e, id);
      var s := Run(Step, INITIAL, before).value;
      SoundBefore(before, id);
      if Leaves(s, e, id) {
        if e != StoreFails(id) {
          LeavingStep(s, e, id);
        }
      } else {
        LeftWithOutcome(before, id);
        if StoreFails(id) !in before {
          OutcomeStays(s, e, id);
        }
      }
    }
  }

  lemma SoundBefore(events: seq<Event>, id: CommandId)
    requires Run(Step, INITIAL, events).Some?
    ensures Sound(ViewOf(Run(Step, INITIAL, events).value, id), id)
  {
    RunKeepsSound(INITIAL, events, id);
  }

  lemma OutcomeStays(s: System, e: Event, id: CommandId)
    requires Sound(ViewOf(s, id), id) && Step(s, e).Some? && HasOutcome(ViewOf(s, id))
    ensures HasOutcome(ViewOf(Step(s, e).value, id))
  {
    hide HintsSound, WorkersSound, Step;
    StepExtendsStore(s, e, id);
    StepKeepsSound(s, e, id);
  }

  /** A request starts a worker for a command that by then has an outcome in the store: the stored
      state is not looked at again before starting. */
  ghost predicate StartsStale(events: seq<Event>, id: CommandId) {
    exists j :: 0 <= j < |events| && StartsStaleAt(events, j, id)
  }

  ghost predicate StartsStaleAt(events: seq<Event>, j: nat, id: CommandId)
    requires j < |events|
  {
    events[j] == Start(id) && Run(Step, INITIAL, events[..j]).Some? && Stale(Run(Step, INITIAL, events[..j]).value, id)
  }

  predicate Stale(s: System, id: CommandId) {
    id !in s.active && HasOutcome(ViewOf(s, id))
  }

  lemma StartsStaleStep(events: seq<Event>, e: Event, id: CommandId)
    requires Run(Step, INITIAL, events).Some?
    ensures StartsStale(events + [e], id) <==>
      StartsStale(events, id) || (e == Start(id) && Stale(Run(Step, INITIAL, events).value, id))
  {
    hide Run, Stale;
    var more := events + [e];
    assert more[..|events|] == events;
    assert forall j :: 0 <= j < |events| ==> more[..j] == events[..j] && more[j] == events[j];
    if StartsStale(more, id) {
      var j :| 0 <= j < |more| && StartsStaleAt(more, j, id);
      assert j < |events| ==> StartsStaleAt(events, j, id);
    }
    if StartsStale(events, id) {
      var j :| 0 <= j < |events| && StartsStaleAt(events, j, id);
      assert StartsStaleAt(more, j, id);
    }
    if e == Start(id) && Stale(Run(Step, INITIAL, events).value, id) {
      assert StartsStaleAt(more, |events|, id);
    }
  }

  lemma OutcomeArises(s: System, e: Event, id: CommandId)
    requires Sound(ViewOf(s, id), id) && Step(s, e).Some?
    requires !HasOutcome(ViewOf(s, id)) && HasOutcome(ViewOf(Step(s, e).value, id))
    ensures e == Recovers || (e == Terminates(id) && id in s.active)
  {
    hide HintsSound, WorkersSound;
  }

  /** Without store errors and recoveries, the effect runs more than once exactly when a worker is
      started for a command that already has an outcome. */
  lemma {:induction false} RunsAgainWithoutErrors(events: seq<Event>, id: CommandId)
    requires Run(Step, INITIAL, events).Some? && StoreFails(id) !in events && Recovers !in events
    ensures RunsOf(Run(Step, INITIAL, events).value, id) > 1 <==> StartsStale(events, id)
    ensures HasOutcome(ViewOf(Run(Step, INITIAL, events).value, id)) ==>
      RunsOf(Run(Step, INITIAL, events).value, id) > 0
  {
    hide Run, Step, HasLeft, StartsStale, StartsAgain, HasOutcome, ViewOf, Sound;
    if events == [] {
      NothingStale(id);
    } else {
      var before, e := events[..|events| - 1], events[|events| - 1];
      assert events == before + [e];
      LastStep(before, e);
      RunsAgainWithoutErrors(before, id);
      StartsStaleStep(before, e, id);
      var s := Run(Step, INITIAL, before).value;
      SoundBefore(before, id);
      RunsStep(s, e, id);
      RunsCounted(before, id);
      if HasLeft(before, id) {
        LeftWithOutcome(before, id);
      }
      if !HasOutcome(ViewOf(s, id)) && HasOutcome(ViewOf(Step(s, e).value, id)) {
        OutcomeArises(s, e, id);
      }
    }
  }

  lemma NothingStale(id: CommandId)
    ensures Run(Step, INITIAL, []) == Some(INITIAL) && !StartsStale([], id) && RunsOf(INITIAL, id) == 0
    ensures !HasOutcome(ViewOf(INITIAL, id))
  {
  }

  /** Without a store error, and as long as no worker is started for a command that already has an
      outcome, the effect runs at most once. */
  lemma RunsAtMostOnce(events: seq<Event>, id: CommandId)
    requires Run(Step, INITIAL, events).Some? && StoreFails(id) !in events
    requires forall j :: 0 <= j < |events| && events[j] == Start(id) && Run(Step, INITIAL, events[..j]).Some? ==>
      !HasOutcome(ViewOf(Run(Step, INITIAL, events[..j]).value, id))
    ensures RunsOf(Run(Step, INITIAL, events).value, id) <= 1
  {
    hide Run, HasLeft, HasOutcome, ViewOf;
    RunsAgainExactly(events, id);
    if StartsAgain(events, id) {
      var j: nat :| j < |events| && StartsAgainAt(events, j, id);
      PrefixRuns(events, j);
      LeftWithOutcome(events[..j], id);
    }
  }

  lemma PrefixRuns(events: seq<Event>, j: nat)
    requires j <= |events| && Run(Step, INITIAL, events).Some?
    ensures Run(Step, INITIAL, events[..j]).Some?
    decreases |events| - j
  {
    hide Step;
    if j == |events| {
      assert events[..j] == events;
    } else {
      PrefixRuns(events, j + 1);
      assert events[..j + 1] == events[..j] + [events[j]];
      LastStep(events[..j], events[j]);
    }
  }

  /** A duplicate request that read the acceptance before the first worker finished, and starts its
      own after, runs the effect again; the second outcome is discarded without a hint. */
  lemma DuplicateMayRunAgain(input: Acceptance)
    ensures exists events ::
      && StoreFails(input.commandId) !in events && Run(Step, INITIAL, events).Some?
      && var s := Run(Step, INITIAL, events).value;
         RunsOf(s, input.commandId) == 2 && |ListAt(s.published, input.commandId)| == 1
  {
    var id := input.commandId;
    var first := [Accept(input), Accept(input), Start(id), CommandEnds(id, true)];
    var second := [Terminates(id), Publishes(id), Start(id)];
    var s := FirstWorkerRan(input);
    var t := SecondWorkerStarts(s, id);
    RunConcat(Step, INITIAL, first, second);
  }

  lemma FirstWorkerRan(input: Acceptance) returns (s: System)
    ensures var id := input.commandId;
      Run(Step, INITIAL, [Accept(input), Accept(input), Start(id), CommandEnds(id, true)]) == Some(s)
    ensures var id := input.commandId;
            var command := Command(id, input.processEpoch, input.metadata, Accepted, 1);
      && id in s.store && s.store[id] == command && Lookup(s.active, id) == Some(Ran(command, true))
      && ListAt(s.executing, id) == [command] && RunsOf(s, id) == 1
      && ListAt(s.published, id) == []
  {
    var id := input.commandId;
    var s1 := Step(INITIAL, Accept(input)).value;
    var s2 := Step(s1, Accept(input)).value;
    var s3 := Step(s2, Start(id)).value;
    s := Step(s3, CommandEnds(id, true)).value;
    RunStep(Step, s3, CommandEnds(id, true), s, []);
    RunStep(Step, s2, Start(id), s3, [CommandEnds(id, true)]);
    RunStep(Step, s1, Accept(input), s2, [Start(id), CommandEnds(id, true)]);
    RunStep(Step, INITIAL, Accept(input), s1, [Accept(input), Start(id), CommandEnds(id, true)]);
  }

  lemma SecondWorkerStarts(s: System, id: CommandId) returns (t: System)
    requires id in s.store && s.store[id].state.Accepted? && s.store[id].stateVersion == 1
    requires Lookup(s.active, id) == Some(Ran(s.store[id], true)) && |ListAt(s.executing, id)| == 1
    requires RunsOf(s, id) == 1 && ListAt(s.published, id) == []
    ensures Run(Step, s, [Terminates(id), Publishes(id), Start(id)]) == Some(t)
    ensures RunsOf(t, id) == 2 && |ListAt(t.published, id)| == 1
  {
    var s1 := Step(s, Terminates(id)).value;
    var s2 := Step(s1, Publishes(id)).value;
    t := Step(s2, Start(id)).value;
    RunStep(Step, s2, Start(id), t, []);
    RunStep(Step, s1, Publishes(id), s2, [Start(id)]);
    RunStep(Step, s, Terminates(id), s1, [Publishes(id), Start(id)]);
  }
}
