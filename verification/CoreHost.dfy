/** The host lifecycle of one Core process, as a step system over every interleaving.

    Three parties run beside each other: clients of the lifecycle service; the host arm, which waits
    for the host to die; and the owner arm, which acquires the lease once authorized, recovers,
    initializes and then waits. The runner races the two arms and stops the process.

    An interruption may take effect at any interruptible point once it is due; acquiring the lease
    and recovering under it are not interruptible. That allows every real interleaving and more. */
module CoreHost {
  import opened StepSystems
  import opened Wrappers
  import opened CoreLifecycle

  datatype HostArm = AwaitingDeath | DrainDecided | HostDone | HostInterrupted

  datatype Owner =
    | AwaitingAuthorization
    | Acquiring(id: Id)
    | RecoveringDatabase(id: Id)
    | Initializing
    | CompletingRecovery
    | Serving
    | Failing
    | OwnerFailed
    | Interrupted
    | ScopeClosed(failed: bool)

  datatype Runner = Racing | HostWon | Stopping | Completed | RunnerFailed

  datatype System = System(
    state: State,
    drainRequested: bool,
    authorized: Option<Id>,
    acceptedIds: set<Id>,       // every id an authorization decision accepted
    authorizing: multiset<Id>,  // decisions whose signal is still to come
    draining: nat,              // shutdown decisions whose signal is still to come
    host: HostArm,
    owner: Owner,
    leaseRegistered: bool,      // the scope holds the finalizer of the lease
    leaseHeld: Option<Id>,
    acquisitions: nat,
    releases: nat,
    resourceFailed: bool,       // acquiring, recovering or initializing has failed
    lateRecovery: bool,         // recovery completed only after draining had begun
    runner: Runner)

  datatype Event =
    | TransportReady
    | AuthorizeDecided(id: Id) | AuthorizeSignalled(id: Id)
    | ShutdownDecided | ShutdownSignalled
    | HostDies | HostSignals
    | AuthorizationSeen | AcquireSucceeds | AcquireFails | RecoverySucceeds | RecoveryFails
    | InitializeSucceeds | InitializeFails | RecoveryCompletes | FailureRecorded
    | OwnerInterrupted | ScopeCloses
    | HostWins | OwnerWins | OwnerFails | OwnerUnwound | ShutdownCompletes

  const INITIAL := System(
    Starting, false, None, {}, multiset{}, 0, AwaitingDeath, AwaitingAuthorization,
    false, None, 0, 0, false, false, Racing)

  predicate Interruptible(owner: Owner) {
    owner.AwaitingAuthorization? || owner.Initializing? || owner.CompletingRecovery? || owner.Serving? || owner.Failing?
  }

  /** A step of the clients. */
  function ClientStep(s: System, e: Event): Option<System> {
    match e
    case TransportReady =>
      var next := AwaitAuthorization(s.state);
      Some(if next.Some? then s.(state := next.value) else s)
    case AuthorizeDecided(id) =>
      var (decision, next) := Authorized(s.state, id);
      Some(if decision.Ok?
           then s.(state := next, acceptedIds := s.acceptedIds + {id}, authorizing := s.authorizing + multiset{id})
           else s)
    case AuthorizeSignalled(id) =>
      if id !in s.authorizing then None
      else Some(s.(authorized := if s.authorized.None? then Some(id) else s.authorized,
                   authorizing := s.authorizing - multiset{id}))
    case ShutdownDecided =>
      var (decision, next) := ShutDown(s.state);
      Some(if decision == Ok(Draining) then s.(state := next, draining := s.draining + 1) else s)
    case ShutdownSignalled =>
      if s.draining == 0 then None else Some(s.(drainRequested := true, draining := s.draining - 1))
    case _ => None
  }

  function HostStep(s: System, e: Event): Option<System> {
    match e
    case HostDies =>
      var (shouldDrain, next) := HostDied(s.state);
      if !s.host.AwaitingDeath? then None
      else Some(s.(state := next, host := if shouldDrain then DrainDecided else HostDone))
    case HostSignals =>
      if !s.host.DrainDecided? then None else Some(s.(drainRequested := true, host := HostDone))
    case _ => None
  }

  function OwnerStep(s: System, e: Event): Option<System> {
    match e
    case AuthorizationSeen =>
      if s.owner.AwaitingAuthorization? && s.authorized.Some?
      then Some(s.(owner := Acquiring(s.authorized.value))) else None
    case AcquireSucceeds =>
      if s.owner.Acquiring?
      then Some(s.(owner := RecoveringDatabase(s.owner.id), leaseHeld := Some(s.owner.id),
                   acquisitions := s.acquisitions + 1))
      else None
    case AcquireFails =>
      if s.owner.Acquiring? then Some(s.(owner := Failing, resourceFailed := true)) else None
    case RecoverySucceeds =>
      if s.owner.RecoveringDatabase? then Some(s.(owner := Initializing, leaseRegistered := true)) else None
    case RecoveryFails =>
      if s.owner.RecoveringDatabase?
      then Some(s.(owner := Failing, leaseHeld := None, releases := s.releases + 1, resourceFailed := true)) else None
    case InitializeSucceeds =>
      if s.owner.Initializing? then Some(s.(owner := CompletingRecovery)) else None
    case InitializeFails =>
      if s.owner.Initializing? then Some(s.(owner := Failing, resourceFailed := true)) else None
    case RecoveryCompletes =>
      if !s.owner.CompletingRecovery? then None else
        var next := RecoveryCompleted(s.state);
        Some(if next.Some? then s.(state := next.value, owner := Serving)
             else s.(owner := Failing, lateRecovery := true))
    case FailureRecorded =>
      if !s.owner.Failing? then None else
        var next := MarkedFailed(s.state);
        Some(s.(state := if next.Some? then next.value else s.state, owner := OwnerFailed))
    case OwnerInterrupted =>
      if Interruptible(s.owner) && (s.drainRequested || s.runner.HostWon?) then Some(s.(owner := Interrupted)) else None
    case ScopeCloses =>
      if !s.owner.OwnerFailed? && !s.owner.Interrupted? then None else
        var closed := s.(owner := ScopeClosed(s.owner.OwnerFailed?));
        Some(if s.leaseRegistered
             then closed.(leaseRegistered := false, leaseHeld := None, releases := s.releases + 1) else closed)
    case _ => None
  }

  function RunnerStep(s: System, e: Event): Option<System> {
    match e
    case HostWins =>
      if s.runner.Racing? && s.host.HostDone? then Some(s.(runner := HostWon)) else None
    case OwnerWins =>
      if s.runner.Racing? && s.owner == ScopeClosed(false)
      then Some(s.(runner := Stopping, host := if s.host.HostDone? then s.host else HostInterrupted)) else None
    case OwnerFails =>
      if s.runner.Racing? && s.owner == ScopeClosed(true)
      then Some(s.(runner := RunnerFailed, host := if s.host.HostDone? then s.host else HostInterrupted)) else None
    case OwnerUnwound =>
      if s.runner.HostWon? && s.owner.ScopeClosed? then Some(s.(runner := Stopping)) else None
    case ShutdownCompletes =>
      if !s.runner.Stopping? then None else
        var next := ShutdownCompleted(s.state);
        Some(if next.Some? then s.(state := next.value, runner := Completed) else s.(runner := RunnerFailed))
    case _ => None
  }

  /** The state after one event, if the event can happen. */
  function Step(s: System, e: Event): Option<System> {
    var client, host, owner := ClientStep(s, e), HostStep(s, e), OwnerStep(s, e);
    if client.Some? then client else if host.Some? then host else if owner.Some? then owner else RunnerStep(s, e)
  }

  /** The one id that was accepted, wherever it shows up. */
  predicate OneAuthorization(s: System) {
    && (forall a, b :: a in s.acceptedIds && b in s.acceptedIds ==> a == b)
    && (s.state.Starting? || s.state.AwaitingOwnership? ==> s.acceptedIds == {})
    && (s.state.Recovering? || s.state.Ready? ==> s.state.authorizationId in s.acceptedIds)
    && (s.authorized.Some? ==> s.authorized.value in s.acceptedIds)
    && (forall id :: id in s.authorizing ==> id in s.acceptedIds)
    && (s.owner.Acquiring? || s.owner.RecoveringDatabase? ==> s.owner.id in s.acceptedIds)
    && (s.leaseHeld.Some? ==> s.leaseHeld.value in s.acceptedIds)
    && (s.acquisitions > 0 ==> s.acceptedIds != {})
  }

  /** Signals and interruptions happen only once draining has begun. */
  predicate DrainDiscipline(s: System) {
    && (s.drainRequested || s.draining > 0 ==> DrainBegun(s.state))
    && (s.host.DrainDecided? || s.host.HostDone? ==> DrainBegun(s.state))
    && (s.runner.HostWon? ==> s.host.HostDone?)
    && (s.owner.Interrupted? || s.owner == ScopeClosed(false) ==> DrainBegun(s.state))
    && (s.runner.Stopping? || s.runner.Completed? ==> DrainBegun(s.state) && s.owner.ScopeClosed?)
    && (s.runner.RunnerFailed? ==> s.owner == ScopeClosed(true))
    && (s.state.Stopped? <==> s.runner.Completed?)
  }

  predicate HoldsLease(owner: Owner) {
    owner.RecoveringDatabase? || owner.Initializing? || owner.CompletingRecovery? || owner.Serving?
  }

  /** The lease is held exactly while it was acquired and not yet released, and once at most. */
  predicate LeaseDiscipline(s: System) {
    && s.acquisitions <= 1
    && s.acquisitions == s.releases + (if s.leaseHeld.Some? then 1 else 0)
    && (s.owner.AwaitingAuthorization? || s.owner.Acquiring? ==> s.acquisitions == 0)
    && (HoldsLease(s.owner) ==> s.leaseHeld.Some?)
    && (s.leaseRegistered ==> s.leaseHeld.Some?)
    && (s.leaseHeld.Some? ==> s.leaseRegistered || s.owner.RecoveringDatabase?)
    && (s.owner.ScopeClosed? ==> s.leaseHeld.None?)
    && (s.owner.RecoveringDatabase? ==> !s.leaseRegistered)
  }

  /** Where the owner arm stands and what the lifecycle says belong together. */
  predicate OwnerDiscipline(s: System) {
    && (s.owner.AwaitingAuthorization? ==> !s.state.Ready? && !s.state.Failed?)
    && (s.owner.Acquiring? || s.owner.RecoveringDatabase? || s.owner.Initializing? || s.owner.CompletingRecovery? ==>
          s.state.Recovering? || DrainBegun(s.state))
    && (s.owner.Serving? ==> s.state.Ready? || DrainBegun(s.state))
    && (s.owner.Failing? ==> s.state.Recovering? || DrainBegun(s.state))
    && (s.owner.OwnerFailed? || s.owner == ScopeClosed(true) ==> s.state.Failed? || DrainBegun(s.state))
    && (s.owner.Failing? || s.owner.OwnerFailed? || s.owner == ScopeClosed(true) ==> s.resourceFailed || s.lateRecovery)
    && (s.lateRecovery ==> DrainBegun(s.state))
    && (s.state.Ready? ==> s.owner.Serving?)
    && (s.state.Failed? ==> s.owner.OwnerFailed? || s.owner == ScopeClosed(true))
  }

  predicate Invariant(s: System) {
    OneAuthorization(s) && DrainDiscipline(s) && LeaseDiscipline(s) && OwnerDiscipline(s)
  }

  lemma ClientKeepsDiscipline(s: System, e: Event)
    requires ClientStep(s, e).Some?
    ensures DrainDiscipline(s) ==> DrainDiscipline(ClientStep(s, e).value)
    ensures LeaseDiscipline(s) ==> LeaseDiscipline(ClientStep(s, e).value)
  {
  }

  lemma ClientKeepsOwner(s: System, e: Event)
    requires OwnerDiscipline(s) && ClientStep(s, e).Some?
    ensures OwnerDiscipline(ClientStep(s, e).value)
  {
  }

  lemma ClientKeepsInvariant(s: System, e: Event)
    requires Invariant(s) && ClientStep(s, e).Some?
    ensures Invariant(ClientStep(s, e).value)
  {
    hide OneAuthorization, DrainDiscipline, LeaseDiscipline, OwnerDiscipline, ClientStep;
    ClientKeepsDiscipline(s, e);
    ClientKeepsOwner(s, e);
    ClientKeepsAuthorization(s, e);
  }

  lemma ClientKeepsAuthorization(s: System, e: Event)
    requires OneAuthorization(s) && ClientStep(s, e).Some?
    ensures OneAuthorization(ClientStep(s, e).value)
  {
    if e.AuthorizeDecided? {
      AuthorizationKept(s, e.id);
    } else if e.AuthorizeSignalled? {
      SignalKept(s, e.id);
    }
  }

  lemma SignalKept(s: System, id: Id)
    requires OneAuthorization(s) && id in s.authorizing
    ensures OneAuthorization(ClientStep(s, AuthorizeSignalled(id)).value)
  {
    hide Authorized, ShutDown, AwaitAuthorization;
    var t := ClientStep(s, AuthorizeSignalled(id)).value;
    assert forall other :: other in t.authorizing ==> other in s.authorizing;
  }

  /** A second decision is only ever accepted for the id of the first. */
  lemma AuthorizationKept(s: System, id: Id)
    requires OneAuthorization(s)
    ensures Authorized(s.state, id).0.Ok? ==> s.acceptedIds == {} || s.acceptedIds == {id}
    ensures OneAuthorization(ClientStep(s, AuthorizeDecided(id)).value)
  {
    var t := ClientStep(s, AuthorizeDecided(id)).value;
    if Authorized(s.state, id).0.Ok? {
      assert s.acceptedIds == {} || s.acceptedIds == {id};
      assert t.acceptedIds == {id};
    }
  }

  lemma HostKeepsInvariant(s: System, e: Event)
    requires Invariant(s) && HostStep(s, e).Some?
    ensures Invariant(HostStep(s, e).value)
  {
  }

  lemma OwnerKeepsDrain(s: System, e: Event)
    requires DrainDiscipline(s) && OwnerStep(s, e).Some?
    ensures DrainDiscipline(OwnerStep(s, e).value)
  {
  }

  lemma OwnerKeepsLease(s: System, e: Event)
    requires LeaseDiscipline(s) && OwnerStep(s, e).Some?
    ensures LeaseDiscipline(OwnerStep(s, e).value)
  {
    hide RecoveryCompleted, MarkedFailed;
  }

  lemma OwnerKeepsOwner(s: System, e: Event)
    requires OwnerDiscipline(s) && DrainDiscipline(s) && OwnerStep(s, e).Some?
    requires s.authorized.Some? && !DrainBegun(s.state) ==> !s.state.Starting? && !s.state.AwaitingOwnership?
    ensures OwnerDiscipline(OwnerStep(s, e).value)
  {
  }

  lemma OwnerKeepsInvariant(s: System, e: Event)
    requires Invariant(s) && OwnerStep(s, e).Some?
    ensures Invariant(OwnerStep(s, e).value)
  {
    hide DrainDiscipline, LeaseDiscipline, OwnerDiscipline, OwnerStep;
    OwnerKeepsDrain(s, e);
    OwnerKeepsLease(s, e);
    OwnerKeepsOwner(s, e);
    OwnerKeepsAuthorization(s, e);
  }

  lemma OwnerKeepsAuthorization(s: System, e: Event)
    requires OneAuthorization(s) && OwnerStep(s, e).Some?
    ensures OneAuthorization(OwnerStep(s, e).value)
  {
    if !e.AcquireSucceeds? && !e.AuthorizationSeen? && !e.RecoveryCompletes? {
      OwnerLeavesAuthorization(s, e);
    }
  }

  /** Apart from those three, no step of the owner arm brings an authorization anywhere new. */
  lemma OwnerLeavesAuthorization(s: System, e: Event)
    requires OneAuthorization(s) && OwnerStep(s, e).Some?
    requires !e.AcquireSucceeds? && !e.AuthorizationSeen? && !e.RecoveryCompletes?
    ensures OneAuthorization(OwnerStep(s, e).value)
  {
    hide RecoveryCompleted;
  }

  lemma RunnerKeepsInvariant(s: System, e: Event)
    requires Invariant(s) && RunnerStep(s, e).Some?
    ensures Invariant(RunnerStep(s, e).value)
  {
  }

  lemma {:induction false} RunKeepsInvariant(s: System, events: seq<Event>)
    requires Invariant(s) && Run(Step, s, events).Some?
    ensures Invariant(Run(Step, s, events).value)
    decreases |events|
  {
    if events != [] {
      StepKeepsInvariant(s, events[0]);
      RunKeepsInvariant(Step(s, events[0]).value, events[1..]);
    }
  }

  lemma StepKeepsInvariant(s: System, e: Event)
    requires Invariant(s) && Step(s, e).Some?
    ensures Invariant(Step(s, e).value)
  {
    hide Invariant, ClientStep, HostStep, OwnerStep, RunnerStep;
    if ClientStep(s, e).Some? { ClientKeepsInvariant(s, e); }
    else if HostStep(s, e).Some? { HostKeepsInvariant(s, e); }
    else if OwnerStep(s, e).Some? { OwnerKeepsInvariant(s, e); }
    else { RunnerKeepsInvariant(s, e); }
  }

  /** The part of the system that the lifecycle service holds. */
  function ServiceOf(s: System): Service {
    Service(s.state, s.drainRequested, s.authorized, s.acceptedIds)
  }

  function OperationOf(e: Event): Option<Operation> {
    match e
    case TransportReady => Some(AwaitOwnership)
    case AuthorizeDecided(id) => Some(Authorize(id))
    case AuthorizeSignalled(id) => Some(SignalAuthorization(id))
    case ShutdownDecided => Some(RequestShutdown)
    case ShutdownSignalled => Some(SignalDrain)
    case HostDies => Some(Operation.HostDies)
    case HostSignals => Some(SignalDrain)
    case RecoveryCompletes => Some(CompleteRecovery)
    case FailureRecorded => Some(Fail)
    case ShutdownCompletes => Some(CompleteShutdown)
    case _ => None
  }

  predicate IsOperation(s: System, e: Event, t: System) {
    var op := OperationOf(e);
    if op.None? then ServiceOf(t) == ServiceOf(s)
    else Permitted(ServiceOf(s), op.value) && ServiceOf(t) == Apply(ServiceOf(s), op.value)
  }

  lemma ClientOperations(s: System, e: Event)
    requires OneAuthorization(s) && DrainDiscipline(s) && ClientStep(s, e).Some?
    ensures IsOperation(s, e, ClientStep(s, e).value)
  {
  }

  lemma HostOperations(s: System, e: Event)
    requires DrainDiscipline(s) && HostStep(s, e).Some?
    ensures IsOperation(s, e, HostStep(s, e).value)
  {
  }

  lemma OwnerOperations(s: System, e: Event)
    requires OwnerStep(s, e).Some?
    ensures IsOperation(s, e, OwnerStep(s, e).value)
  {
  }

  lemma RunnerOperations(s: System, e: Event)
    requires RunnerStep(s, e).Some?
    ensures IsOperation(s, e, RunnerStep(s, e).value)
  {
  }

  /** A step of the system does to the service what one of its atomic steps does, and one that is
      permitted: the runs here are runs of the service. */
  lemma StepsAreOperations(s: System, e: Event)
    requires Invariant(s) && Step(s, e).Some?
    ensures IsOperation(s, e, Step(s, e).value)
  {
    hide ClientStep, HostStep, OwnerStep, RunnerStep, IsOperation, OneAuthorization, DrainDiscipline;
    if ClientStep(s, e).Some? { ClientOperations(s, e); }
    else if HostStep(s, e).Some? { HostOperations(s, e); }
    else if OwnerStep(s, e).Some? { OwnerOperations(s, e); }
    else { RunnerOperations(s, e); }
  }

  lemma ServiceIsSound(s: System)
    requires Invariant(s)
    ensures Sound(ServiceOf(s))
  {
  }

  predicate Ended(runner: Runner) {
    runner.Completed? || runner.RunnerFailed?
  }

  /** In every interleaving: the lease belongs to the one accepted authorization, is acquired at most
      once and only after it, is released on every exit, and is not held once stopped; the signals
      carry that authorization and mean draining; stopping is never rejected. */
  lemma HostSafety(events: seq<Event>)
    requires Run(Step, INITIAL, events).Some?
    ensures var s := Run(Step, INITIAL, events).value;
      && (s.leaseHeld.Some? ==> s.acceptedIds == {s.leaseHeld.value})
      && (s.authorized.Some? ==> s.acceptedIds == {s.authorized.value})
      && (s.acquisitions > 0 ==> |s.acceptedIds| == 1)
      && s.releases <= s.acquisitions <= 1
      && (s.state.Stopped? || Ended(s.runner) ==> s.leaseHeld.None? && s.releases == s.acquisitions)
      && (s.drainRequested ==> DrainBegun(s.state))
      && (s.runner.Stopping? ==> ShutdownCompleted(s.state).Some?)
      && (s.state.Stopped? <==> s.runner.Completed?)
  {
    RunKeepsInvariant(INITIAL, events);
    var s := Run(Step, INITIAL, events).value;
    if s.acceptedIds != {} {
      var id :| id in s.acceptedIds;
      assert s.acceptedIds == {id};
    }
  }

  /** What no step takes back of the lifecycle. */
  ghost predicate MovesUp(s: System, t: System) {
    && Grows(ServiceOf(s), ServiceOf(t))
    && (Ended(s.runner) ==> t.runner == s.runner)
  }

  lemma EndedStays(s: System, e: Event)
    requires Ended(s.runner) && Step(s, e).Some?
    ensures Step(s, e).value.runner == s.runner
  {
  }

  lemma StepMovesUp(s: System, e: Event)
    requires Invariant(s) && Step(s, e).Some?
    ensures MovesUp(s, Step(s, e).value)
  {
    StepsAreOperations(s, e);
    ServiceIsSound(s);
    if Ended(s.runner) {
      EndedStays(s, e);
    }
    hide Invariant, Step, Apply, Permitted, Sound;
    if OperationOf(e).Some? {
      ApplyKeepsSound(ServiceOf(s), OperationOf(e).value);
    }
  }

  /** Over every run: the state only moves up, at most one authorization is ever accepted and its
      signal never changes, and no business request is admitted once draining has begun. */
  lemma {:induction false} RunMovesUp(s: System, events: seq<Event>)
    requires Invariant(s) && Run(Step, s, events).Some?
    ensures var t := Run(Step, s, events).value;
            MovesUp(s, t) && (DrainBegun(s.state) ==> !t.state.Ready?)
    decreases |events|
  {
    hide Invariant;
    if events != [] {
      StepKeepsInvariant(s, events[0]);
      StepMovesUp(s, events[0]);
      RunMovesUp(Step(s, events[0]).value, events[1..]);
    }
  }

  /** Completing recovery is rejected exactly when draining has begun in the meantime. */
  lemma LateRecoveryExactly(events: seq<Event>)
    requires Run(Step, INITIAL, events).Some? && Run(Step, INITIAL, events).value.owner.CompletingRecovery?
    ensures var s := Run(Step, INITIAL, events).value;
            RecoveryCompleted(s.state).None? <==> DrainBegun(s.state)
  {
    RunKeepsInvariant(INITIAL, events);
  }

  /** What a run's events say about the owner arm, its failures and the runner. */
  ghost predicate Remembered(s: System, recorded: bool, interrupted: bool, hostWon: bool) {
    && (recorded <==> s.owner.OwnerFailed? || s.owner == ScopeClosed(true))
    && (interrupted <==> s.owner.Interrupted? || s.owner == ScopeClosed(false))
    && (s.owner.Failing? ==> s.resourceFailed || s.lateRecovery)
    && (s.resourceFailed || s.lateRecovery ==> s.owner.Failing? || recorded || interrupted)
    && (recorded ==> s.resourceFailed || s.lateRecovery)
    && (s.runner.HostWon? ==> hostWon)
    && (s.runner.Racing? || s.runner.RunnerFailed? ==> !hostWon)
    && (s.runner.Stopping? || s.runner.Completed? ==> hostWon || !recorded)
    && (s.runner.RunnerFailed? ==> recorded)
  }

  lemma OthersLeaveNoTrace(s: System, e: Event, recorded: bool, interrupted: bool, hostWon: bool)
    requires Remembered(s, recorded, interrupted, hostWon)
    requires ClientStep(s, e).Some? || HostStep(s, e).Some?
    ensures ClientStep(s, e).Some? ==> Remembered(ClientStep(s, e).value, recorded, interrupted, hostWon)
    ensures HostStep(s, e).Some? ==> Remembered(HostStep(s, e).value, recorded, interrupted, hostWon)
    ensures e != FailureRecorded && e != OwnerInterrupted && e != HostWins
  {
  }

  lemma OwnerIsRemembered(s: System, e: Event, recorded: bool, interrupted: bool, hostWon: bool)
    requires Invariant(s) && Remembered(s, recorded, interrupted, hostWon) && OwnerStep(s, e).Some?
    ensures Remembered(
      OwnerStep(s, e).value,
      recorded || e == FailureRecorded, interrupted || e == OwnerInterrupted, hostWon || e == HostWins)
  {
    hide OneAuthorization, LeaseDiscipline, OwnerDiscipline;
  }

  lemma RunnerIsRemembered(s: System, e: Event, recorded: bool, interrupted: bool, hostWon: bool)
    requires Invariant(s) && Remembered(s, recorded, interrupted, hostWon) && RunnerStep(s, e).Some?
    ensures Remembered(
      RunnerStep(s, e).value,
      recorded || e == FailureRecorded, interrupted || e == OwnerInterrupted, hostWon || e == HostWins)
  {
    hide OneAuthorization, LeaseDiscipline, OwnerDiscipline;
  }

  lemma StepIsRemembered(s: System, e: Event, recorded: bool, interrupted: bool, hostWon: bool)
    requires Invariant(s) && Remembered(s, recorded, interrupted, hostWon) && Step(s, e).Some?
    ensures Remembered(
      Step(s, e).value,
      recorded || e == FailureRecorded, interrupted || e == OwnerInterrupted, hostWon || e == HostWins)
  {
    hide Invariant, Remembered, ClientStep, HostStep, OwnerStep, RunnerStep;
    if ClientStep(s, e).Some? || HostStep(s, e).Some? {
      OthersLeaveNoTrace(s, e, recorded, interrupted, hostWon);
    } else if OwnerStep(s, e).Some? {
      OwnerIsRemembered(s, e, recorded, interrupted, hostWon);
    } else {
      RunnerIsRemembered(s, e, recorded, interrupted, hostWon);
    }
  }

  lemma {:induction false} RunIsRemembered(
    s: System, events: seq<Event>, recorded: bool, interrupted: bool, hostWon: bool)
    requires Invariant(s) && Remembered(s, recorded, interrupted, hostWon) && Run(Step, s, events).Some?
    ensures Remembered(
      Run(Step, s, events).value, recorded || FailureRecorded in events, interrupted || OwnerInterrupted in events,
      hostWon || HostWins in events)
    decreases |events|
  {
    hide Invariant, Remembered, Step;
    if events != [] {
      var e := events[0];
      assert events == [e] + events[1..];
      StepKeepsInvariant(s, e);
      StepIsRemembered(s, e, recorded, interrupted, hostWon);
      RunIsRemembered(
        Step(s, e).value, events[1..], recorded || e == FailureRecorded, interrupted || e == OwnerInterrupted,
        hostWon || e == HostWins);
    }
  }

  /** A run that ends does end stopped if and only if no failure of the owner arm was recorded, or the
      host arm had won the race before that failure got through. A failure is recorded exactly when
      a resource failed or recovery completed too late, and no interruption came in between. */
  lemma EndsStoppedExactly(events: seq<Event>)
    requires Run(Step, INITIAL, events).Some? && Ended(Run(Step, INITIAL, events).value.runner)
    ensures var s := Run(Step, INITIAL, events).value;
      && (s.state.Stopped? <==> FailureRecorded !in events || HostWins in events)
      && (FailureRecorded in events <==> (s.resourceFailed || s.lateRecovery) && OwnerInterrupted !in events)
      && (!s.state.Stopped? ==> s.runner.RunnerFailed? && (s.state.Failed? || s.state.Draining?))
  {
    RunKeepsInvariant(INITIAL, events);
    RunIsRemembered(INITIAL, events, false, false, false);
  }

  const LATE_RECOVERY_RUN := LATE_RECOVERY_PREPARATION + LATE_RECOVERY_ENDING

  /** A shutdown that is acknowledged just before recovery completes leaves the process draining for
      good, although no resource failed: the drain signal comes after the owner arm has failed. */
  lemma AcknowledgedShutdownMayNotStop(more: seq<Event>)
    requires Run(Step, INITIAL, LATE_RECOVERY_RUN + more).Some?
    ensures var s := Run(Step, INITIAL, LATE_RECOVERY_RUN + more).value;
            s.state.Draining? && s.runner.RunnerFailed? && !s.resourceFailed && s.leaseHeld.None?
  {
    hide Run, Invariant;
    var s := LateRecoveryEnd();
    RunConcat(Step, INITIAL, LATE_RECOVERY_RUN, more);
    assert Invariant(INITIAL) by { InitialInvariant(); }
    RunKeepsInvariant(INITIAL, LATE_RECOVERY_RUN);
    FailedStaysFailed(s, more);
  }

  lemma InitialInvariant()
    ensures Invariant(INITIAL)
  {
  }

  const LATE_RECOVERY_PREPARATION := [
    TransportReady, AuthorizeDecided("a"), AuthorizeSignalled("a"), AuthorizationSeen, AcquireSucceeds,
    RecoverySucceeds, InitializeSucceeds]

  const LATE_RECOVERY_ENDING := [ShutdownDecided, RecoveryCompletes, FailureRecorded, ScopeCloses, OwnerFails]

  lemma LateRecoveryEnd() returns (s: System)
    ensures Run(Step, INITIAL, LATE_RECOVERY_PREPARATION + LATE_RECOVERY_ENDING) == Some(s)
    ensures s.state.Draining? && s.runner.RunnerFailed? && !s.resourceFailed && s.leaseHeld.None?
  {
    hide Run, Step;
    var prepared := LateRecoveryPrepared();
    s := LateRecoveryFails(prepared);
    RunConcat(Step, INITIAL, LATE_RECOVERY_PREPARATION, LATE_RECOVERY_ENDING);
  }

  lemma LateRecoveryFails(prepared: System) returns (s: System)
    requires prepared.state.Recovering? && prepared.owner.CompletingRecovery? && prepared.draining == 0
    requires prepared.runner.Racing? && prepared.leaseRegistered && !prepared.resourceFailed
    ensures Run(Step, prepared, LATE_RECOVERY_ENDING) == Some(s)
    ensures s.state.Draining? && s.runner.RunnerFailed? && !s.resourceFailed && s.leaseHeld.None?
  {
    hide Run, Step;
    var failing := LateRecoveryRejected(prepared);
    s := LateRecoveryUnwinds(failing);
    RunConcat(Step, prepared, [ShutdownDecided, RecoveryCompletes], [FailureRecorded, ScopeCloses, OwnerFails]);
    assert LATE_RECOVERY_ENDING == [ShutdownDecided, RecoveryCompletes] + [FailureRecorded, ScopeCloses, OwnerFails];
  }

  lemma LateRecoveryRejected(prepared: System) returns (s: System)
    requires prepared.state.Recovering? && prepared.owner.CompletingRecovery? && prepared.draining == 0
    requires prepared.runner.Racing? && prepared.leaseRegistered && !prepared.resourceFailed
    ensures Run(Step, prepared, [ShutdownDecided, RecoveryCompletes]) == Some(s)
    ensures s.state.Draining? && s.owner.Failing? && s.runner.Racing? && s.leaseRegistered && !s.resourceFailed
  {
    var drained := prepared.(state := Draining, draining := 1);
    s := drained.(owner := Failing, lateRecovery := true);
    OwnerStepIsStep(drained, RecoveryCompletes);
    RunStep(Step, drained, RecoveryCompletes, s, []);
    RunStep(Step, prepared, ShutdownDecided, drained, [RecoveryCompletes]);
  }

  lemma LateRecoveryUnwinds(failing: System) returns (s: System)
    requires failing.state.Draining? && failing.owner.Failing? && failing.runner.Racing?
    requires failing.leaseRegistered && !failing.resourceFailed
    ensures Run(Step, failing, [FailureRecorded, ScopeCloses, OwnerFails]) == Some(s)
    ensures s.state.Draining? && s.runner.RunnerFailed? && !s.resourceFailed && s.leaseHeld.None?
  {
    hide ClientStep, HostStep;
    var failed := failing.(owner := OwnerFailed);
    var closed := failed.(
      owner := ScopeClosed(true), leaseRegistered := false, leaseHeld := None, releases := failed.releases + 1);
    s := closed.(runner := RunnerFailed, host := if closed.host.HostDone? then closed.host else HostInterrupted);
    OwnerStepIsStep(failing, FailureRecorded);
    OwnerStepIsStep(failed, ScopeCloses);
    RunnerStepIsStep(closed, OwnerFails);
    RunStep(Step, closed, OwnerFails, s, []);
    RunStep(Step, failed, ScopeCloses, closed, [OwnerFails]);
    RunStep(Step, failing, FailureRecorded, failed, [ScopeCloses, OwnerFails]);
  }

  lemma LateRecoveryPrepared() returns (s: System)
    ensures Run(Step, INITIAL, LATE_RECOVERY_PREPARATION) == Some(s)
    ensures s.state.Recovering? && s.owner.CompletingRecovery? && s.draining == 0
    ensures s.runner.Racing? && s.leaseRegistered && !s.resourceFailed
  {
    hide Run, Step;
    var authorized := LateRecoveryAuthorized();
    s := LateRecoveryOwned(authorized);
    RunConcat(Step, INITIAL, [TransportReady, AuthorizeDecided("a"), AuthorizeSignalled("a")],
      [AuthorizationSeen, AcquireSucceeds, RecoverySucceeds, InitializeSucceeds]);
    assert LATE_RECOVERY_PREPARATION == [TransportReady, AuthorizeDecided("a"), AuthorizeSignalled("a")]
      + [AuthorizationSeen, AcquireSucceeds, RecoverySucceeds, InitializeSucceeds];
  }

  lemma LateRecoveryAuthorized() returns (s: System)
    ensures Run(Step, INITIAL, [TransportReady, AuthorizeDecided("a"), AuthorizeSignalled("a")]) == Some(s)
    ensures s.state.Recovering? && s.owner.AwaitingAuthorization? && s.authorized == Some("a") && s.draining == 0
    ensures s.runner.Racing? && !s.resourceFailed
  {
    var ready := INITIAL.(state := AwaitingOwnership);
    var decided := ready.(
      state := Recovering("a"), acceptedIds := {} + {"a"}, authorizing := multiset{} + multiset{"a"});
    s := decided.(authorized := Some("a"), authorizing := decided.authorizing - multiset{"a"});
    RunStep(Step, decided, AuthorizeSignalled("a"), s, []);
    RunStep(Step, ready, AuthorizeDecided("a"), decided, [AuthorizeSignalled("a")]);
    RunStep(Step, INITIAL, TransportReady, ready, [AuthorizeDecided("a"), AuthorizeSignalled("a")]);
  }

  lemma LateRecoveryOwned(authorized: System) returns (s: System)
    requires authorized.state.Recovering? && authorized.owner.AwaitingAuthorization?
    requires authorized.authorized == Some("a") && authorized.draining == 0
    requires authorized.runner.Racing? && !authorized.resourceFailed
    ensures Run(Step, authorized, [AuthorizationSeen, AcquireSucceeds, RecoverySucceeds, InitializeSucceeds]) == Some(s)
    ensures s.state.Recovering? && s.owner.CompletingRecovery? && s.draining == 0
    ensures s.runner.Racing? && s.leaseRegistered && !s.resourceFailed
  {
    hide ClientStep, HostStep, RunnerStep;
    var acquiring := authorized.(owner := Acquiring("a"));
    var acquired := acquiring.(
      owner := RecoveringDatabase("a"), leaseHeld := Some("a"), acquisitions := acquiring.acquisitions + 1);
    var recovered := acquired.(owner := Initializing, leaseRegistered := true);
    s := recovered.(owner := CompletingRecovery);
    OwnerStepIsStep(authorized, AuthorizationSeen);
    OwnerStepIsStep(acquiring, AcquireSucceeds);
    OwnerStepIsStep(acquired, RecoverySucceeds);
    OwnerStepIsStep(recovered, InitializeSucceeds);
    RunStep(Step, recovered, InitializeSucceeds, s, []);
    RunStep(Step, acquired, RecoverySucceeds, recovered, [InitializeSucceeds]);
    RunStep(Step, acquiring, AcquireSucceeds, acquired, [RecoverySucceeds, InitializeSucceeds]);
    RunStep(Step, authorized, AuthorizationSeen, acquiring, [AcquireSucceeds, RecoverySucceeds, InitializeSucceeds]);
  }

  lemma RunnerStepIsStep(s: System, e: Event)
    requires RunnerStep(s, e).Some?
    ensures Step(s, e) == RunnerStep(s, e)
  {
  }

  lemma OwnerStepIsStep(s: System, e: Event)
    requires OwnerStep(s, e).Some?
    ensures Step(s, e) == OwnerStep(s, e)
  {
  }

  ghost predicate LeftDraining(s: System) {
    s.runner.RunnerFailed? && s.state.Draining? && !s.resourceFailed && s.leaseHeld.None?
  }

  lemma LeftDrainingStays(s: System, e: Event)
    requires Invariant(s) && LeftDraining(s) && Step(s, e).Some?
    ensures LeftDraining(Step(s, e).value)
  {
    hide OneAuthorization, OwnerDiscipline;
    assert s.owner == ScopeClosed(true);
    assert OwnerStep(s, e).None? && RunnerStep(s, e).None?;
  }

  lemma {:induction false} FailedStaysFailed(s: System, more: seq<Event>)
    requires Invariant(s) && LeftDraining(s) && Run(Step, s, more).Some?
    ensures LeftDraining(Run(Step, s, more).value)
    decreases |more|
  {
    hide Invariant, LeftDraining, Step;
    if more != [] {
      StepKeepsInvariant(s, more[0]);
      LeftDrainingStays(s, more[0]);
      FailedStaysFailed(Step(s, more[0]).value, more[1..]);
    }
  }

  /** Events of the process itself: neither a client's decision, nor the death of the host. */
  predicate Internal(e: Event) {
    !(e.TransportReady? || e.AuthorizeDecided? || e.AuthorizeSignalled? || e.ShutdownDecided? || e.HostDies?)
  }

  function OwnerLeft(owner: Owner): nat {
    match owner
    case AwaitingAuthorization => 9
    case Acquiring(_) => 8
    case RecoveringDatabase(_) => 7
    case Initializing => 6
    case CompletingRecovery => 5
    case Serving => 4
    case Failing => 3
    case OwnerFailed => 2
    case Interrupted => 2
    case ScopeClosed(_) => 0
  }

  function RunnerLeft(runner: Runner): nat {
    match runner
    case Racing => 3
    case HostWon => 2
    case Stopping => 1
    case _ => 0
  }

  function StepsLeft(s: System): nat {
    OwnerLeft(s.owner) + RunnerLeft(s.runner) + (if s.host.DrainDecided? then 1 else 0) + s.draining
  }

  lemma InternalClientStep(s: System, e: Event)
    requires Internal(e) && ClientStep(s, e).Some?
    ensures StepsLeft(ClientStep(s, e).value) < StepsLeft(s)
  {
  }

  lemma InternalHostStep(s: System, e: Event)
    requires Internal(e) && HostStep(s, e).Some?
    ensures StepsLeft(HostStep(s, e).value) < StepsLeft(s)
  {
  }

  lemma InternalOwnerStep(s: System, e: Event)
    requires OwnerStep(s, e).Some?
    ensures StepsLeft(OwnerStep(s, e).value) < StepsLeft(s)
  {
  }

  lemma InternalRunnerStep(s: System, e: Event)
    requires RunnerStep(s, e).Some?
    ensures StepsLeft(RunnerStep(s, e).value) < StepsLeft(s)
  {
  }

  /** By itself the process can take only so many steps. */
  lemma InternalStepsEnd(s: System, e: Event)
    requires Internal(e) && Step(s, e).Some?
    ensures StepsLeft(Step(s, e).value) < StepsLeft(s)
  {
    hide ClientStep, HostStep, OwnerStep, RunnerStep, StepsLeft, Internal;
    if ClientStep(s, e).Some? { InternalClientStep(s, e); }
    else if HostStep(s, e).Some? { InternalHostStep(s, e); }
    else if OwnerStep(s, e).Some? { InternalOwnerStep(s, e); }
    else { InternalRunnerStep(s, e); }
  }

  /** Something asked the process to end. */
  predicate EndDue(s: System) {
    s.drainRequested || s.draining > 0 || s.host.DrainDecided? || s.host.HostDone?
  }

  /** From there on it is never stuck: until the runner has ended, some step of its own is possible. */
  lemma NeverStuck(s: System) returns (e: Event)
    requires Invariant(s) && EndDue(s) && !Ended(s.runner)
    ensures Internal(e) && Step(s, e).Some?
    ensures EndDue(Step(s, e).value)
  {
    hide OneAuthorization, LeaseDiscipline, OwnerDiscipline;
    if s.draining > 0 {
      e := ShutdownSignalled;
    } else if s.host.DrainDecided? {
      e := HostSignals;
    } else if s.owner.ScopeClosed? {
      e := if s.runner.Stopping? then ShutdownCompletes else if s.runner.HostWon? then OwnerUnwound
           else if s.owner.failed then OwnerFails else OwnerWins;
    } else if s.owner.OwnerFailed? || s.owner.Interrupted? {
      e := ScopeCloses;
    } else if s.owner.Acquiring? {
      e := AcquireSucceeds;
    } else if s.owner.RecoveringDatabase? {
      e := RecoverySucceeds;
    } else if s.drainRequested || s.runner.HostWon? {
      e := OwnerInterrupted;
    } else {
      e := HostWins;
    }
  }

  /** Once its end is due, the process can always finish by itself, within a bounded number of steps. */
  lemma {:induction false} EndIsReached(s: System) returns (events: seq<Event>)
    requires Invariant(s) && EndDue(s)
    ensures |events| <= StepsLeft(s) && forall e :: e in events ==> Internal(e)
    ensures Run(Step, s, events).Some? && Ended(Run(Step, s, events).value.runner)
    decreases StepsLeft(s)
  {
    hide Invariant, Step, EndDue, StepsLeft, Internal;
    if Ended(s.runner) {
      events := [];
    } else {
      var e := NeverStuck(s);
      InternalStepsEnd(s, e);
      StepKeepsInvariant(s, e);
      var rest := EndIsReached(Step(s, e).value);
      RunStep(Step, s, e, Step(s, e).value, rest);
      events := [e] + rest;
    }
  }
}
