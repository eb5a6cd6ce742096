/** The lifecycle of one Core process.

    An operation that changes the state does so in one atomic update of the state reference; the
    deferred it may complete afterwards is a step of its own, so that other work can run between. */
module CoreLifecycle {
  import opened Wrappers

  type Id = string

  datatype State =
    | Starting
    | AwaitingOwnership
    | Recovering(authorizationId: Id)
    | Ready(authorizationId: Id)
    | Draining
    | Stopped
    | Failed

  datatype Identity = Identity(applicationInstanceId: string, processEpoch: string)

  datatype Rejection = IdentityMismatch | LifecycleRejected(state: State) | AuthorizationMismatch(state: State)

  /** The order in which a process moves through its states; a failed one can still be drained. */
  function Rank(s: State): nat {
    match s
    case Starting => 0
    case AwaitingOwnership => 1
    case Recovering(_) => 2
    case Ready(_) => 3
    case Failed => 4
    case Draining => 5
    case Stopped => 6
  }

  /** The update of `authorizeDatabaseOwnership`. */
  function Authorized(s: State, id: Id): (r: (Result<Id, Rejection>, State))
    ensures r.0.Ok? <==> s.AwaitingOwnership? || ((s.Recovering? || s.Ready?) && s.authorizationId == id)
    ensures r.0.Ok? ==> r.0.value == id && r.1 == if s.Ready? then Ready(id) else Recovering(id)
    ensures r.0.Err? ==> r.1 == s
    ensures r.0.Err? ==>
      r.0.error == if s.Recovering? || s.Ready? then AuthorizationMismatch(s) else LifecycleRejected(s)
  {
    match s
    case AwaitingOwnership => (Ok(id), Recovering(id))
    case Recovering(current) => if current == id then (Ok(id), s) else (Err(AuthorizationMismatch(s)), s)
    case Ready(current) => if current == id then (Ok(id), s) else (Err(AuthorizationMismatch(s)), s)
    case _ => (Err(LifecycleRejected(s)), s)
  }

  /** The update of `shutdown`: it is rejected before the transport is ready. */
  function ShutDown(s: State): (Result<State, Rejection>, State) {
    match s
    case Starting => (Err(LifecycleRejected(s)), s)
    case Stopped => (Ok(Stopped), s)
    case _ => (Ok(Draining), Draining)
  }

  /** The update of `authenticatedHostDied`, and whether it began draining. */
  function HostDied(s: State): (bool, State) {
    if s.Draining? || s.Stopped? then (false, s) else (true, Draining)
  }

  function AwaitAuthorization(s: State): Option<State> {
    if s.Starting? || s.AwaitingOwnership? then Some(AwaitingOwnership) else None
  }

  function RecoveryCompleted(s: State): Option<State> {
    match s
    case Recovering(id) => Some(Ready(id))
    case Ready(_) => Some(s)
    case _ => None
  }

  function ShutdownCompleted(s: State): Option<State> {
    if s.Draining? || s.Stopped? then Some(Stopped) else None
  }

  function MarkedFailed(s: State): Option<State> {
    if s.Draining? || s.Stopped? then None else Some(Failed)
  }

  /** Every update moves up the order or leaves the state alone. */
  lemma UpdatesMoveUp(s: State, id: Id)
    ensures forall next | next in {Authorized(s, id).1, ShutDown(s).1, HostDied(s).1} ::
              next == s || Rank(s) < Rank(next)
    ensures forall next: Option<State> | next.Some?
              && next in {AwaitAuthorization(s), RecoveryCompleted(s), ShutdownCompleted(s), MarkedFailed(s)} ::
              next.value == s || Rank(s) < Rank(next.value)
  {
  }

  predicate DrainBegun(s: State) {
    s.Draining? || s.Stopped?
  }

  /** The whole service as a value: what it holds, and every id an authorization accepted. */
  datatype Service = Service(state: State, drainRequested: bool, authorized: Option<Id>, accepted: set<Id>)

  const NEW := Service(Starting, false, None, {})

  /** The atomic steps of the service; a deferred is completed in a step of its own. */
  datatype Operation =
    | AwaitOwnership
    | Authorize(id: Id) | SignalAuthorization(id: Id)
    | RequestShutdown | HostDies | SignalDrain
    | CompleteRecovery | CompleteShutdown | Fail

  function Updated(v: Service, next: Option<State>): Service {
    if next.Some? then v.(state := next.value) else v
  }

  function Apply(v: Service, op: Operation): Service {
    match op
    case AwaitOwnership => Updated(v, AwaitAuthorization(v.state))
    case Authorize(id) =>
      var (decision, next) := Authorized(v.state, id);
      v.(state := next, accepted := if decision.Ok? then v.accepted + {id} else v.accepted)
    case SignalAuthorization(id) => v.(authorized := if v.authorized.None? then Some(id) else v.authorized)
    case RequestShutdown => v.(state := ShutDown(v.state).1)
    case HostDies => v.(state := HostDied(v.state).1)
    case SignalDrain => v.(drainRequested := true)
    case CompleteRecovery => Updated(v, RecoveryCompleted(v.state))
    case CompleteShutdown => Updated(v, ShutdownCompleted(v.state))
    case Fail => Updated(v, MarkedFailed(v.state))
  }

  /** A signal is given only after the decision it follows. */
  predicate Permitted(v: Service, op: Operation) {
    match op
    case SignalAuthorization(id) => id in v.accepted
    case SignalDrain => DrainBegun(v.state)
    case _ => true
  }

  /** At most one id was ever accepted, it is the one in the state and in the signal, and the drain
      signal means that draining has begun. */
  ghost predicate Sound(v: Service) {
    && (forall a, b :: a in v.accepted && b in v.accepted ==> a == b)
    && (v.state.Starting? || v.state.AwaitingOwnership? ==> v.accepted == {})
    && (v.state.Recovering? || v.state.Ready? ==> v.state.authorizationId in v.accepted)
    && (v.authorized.Some? ==> v.authorized.value in v.accepted)
    && (v.drainRequested ==> DrainBegun(v.state))
  }

  /** What no step takes back. */
  ghost predicate Grows(v: Service, w: Service) {
    && Rank(v.state) <= Rank(w.state)
    && (v.accepted != {} ==> w.accepted == v.accepted)
    && (v.authorized.Some? ==> w.authorized == v.authorized)
    && (v.drainRequested ==> w.drainRequested)
    && (DrainBegun(v.state) ==> DrainBegun(w.state))
  }

  lemma AcceptedOnce(v: Service, id: Id)
    requires Sound(v)
    ensures Sound(Apply(v, Authorize(id))) && Grows(v, Apply(v, Authorize(id)))
    ensures Authorized(v.state, id).0.Ok? ==> Apply(v, Authorize(id)).accepted == {id}
  {
    if Authorized(v.state, id).0.Ok? {
      assert v.accepted == {} || v.accepted == {id};
      assert v.accepted + {id} == {id};
    }
  }

  /** Every permitted step keeps the service sound and takes nothing back. */
  lemma ApplyKeepsSound(v: Service, op: Operation)
    requires Sound(v) && Permitted(v, op)
    ensures Sound(Apply(v, op)) && Grows(v, Apply(v, op))
  {
    if op.Authorize? {
      AcceptedOnce(v, op.id);
    }
  }

  ghost predicate PermittedRun(v: Service, ops: seq<Operation>)
    decreases |ops|
  {
    ops == [] || (Permitted(v, ops[0]) && PermittedRun(Apply(v, ops[0]), ops[1..]))
  }

  function ApplyAll(v: Service, ops: seq<Operation>): Service
    decreases |ops|
  {
    if ops == [] then v else ApplyAll(Apply(v, ops[0]), ops[1..])
  }

  /** Over every run of the service: it stays sound, takes nothing back, and admits no business
      request once draining has begun. */
  lemma {:induction false} ServiceOverRuns(v: Service, ops: seq<Operation>)
    requires Sound(v) && PermittedRun(v, ops)
    ensures Sound(ApplyAll(v, ops)) && Grows(v, ApplyAll(v, ops))
    ensures DrainBegun(v.state) ==> !ApplyAll(v, ops).state.Ready?
    decreases |ops|
  {
    if ops != [] {
      hide Sound, Apply, Permitted;
      ApplyKeepsSound(v, ops[0]);
      ServiceOverRuns(Apply(v, ops[0]), ops[1..]);
    }
  }

  /** The service, one method for each atomic step. */
  class Lifecycle {
    const identity: Identity
    var state: State
    var drainRequested: bool
    var ownershipAuthorized: Option<Id>

    // every id an authorization accepted
    ghost var accepted: set<Id>

    ghost function Contents(): Service
      reads this
    {
      Service(state, drainRequested, ownershipAuthorized, accepted)
    }

    ghost predicate Valid()
      reads this
    {
      Sound(Contents())
    }

    constructor (identity: Identity)
      ensures Valid() && this.identity == identity && Contents() == NEW
    {
      this.identity := identity;
      state, drainRequested, ownershipAuthorized := Starting, false, None;
      accepted := {};
    }

    /** Only a ready process admits business requests, so none is admitted once draining has begun. */
    method AdmitBusinessRequest(request: Identity) returns (result: Result<(), Rejection>)
      requires Valid()
      ensures result.Ok? <==> request == identity && state.Ready?
      ensures result.Ok? ==> !drainRequested && !DrainBegun(state) && accepted == {state.authorizationId}
      ensures result.Err? ==> result.error == if request == identity then LifecycleRejected(state) else IdentityMismatch
    {
      if request != identity {
        return Err(IdentityMismatch);
      }
      if !state.Ready? {
        return Err(LifecycleRejected(state));
      }
      result := Ok(());
    }

    /** At most one id is ever accepted: a request is accepted for the first id, and again for the
        same one until draining begins. */
    method DecideAuthorization(request: Identity, id: Id) returns (decision: Result<Id, Rejection>)
      requires Valid()
      modifies `state, `accepted
      ensures Valid() && Grows(old(Contents()), Contents())
      ensures decision.Ok? <==>
        && request == identity
        && (old(state).AwaitingOwnership? || ((old(state).Recovering? || old(state).Ready?) && old(accepted) == {id}))
      ensures decision.Ok? ==> decision.value == id && accepted == {id}
      ensures decision.Err? ==> Contents() == old(Contents())
      ensures request == identity ==> Contents() == Apply(old(Contents()), Authorize(id))
    {
      if request != identity {
        return Err(IdentityMismatch);
      }
      AcceptedOnce(Contents(), id);
      var update := Authorized(state, id);
      decision, state := update.0, update.1;
      if decision.Ok? {
        accepted := accepted + {id};
      }
    }

    /** The signal carries the one accepted id, however often it is given. */
    method SignalAuthorization(id: Id)
      requires Valid() && id in accepted
      modifies `ownershipAuthorized
      ensures Valid() && accepted == {id} && ownershipAuthorized == Some(id)
      ensures Contents() == Apply(old(Contents()), Operation.SignalAuthorization(id))
    {
      assert accepted == {id};
      if ownershipAuthorized.None? {
        ownershipAuthorized := Some(id);
      }
    }

    /** An accepted shutdown begins draining or finds the process stopped already. */
    method DecideShutdown(request: Identity) returns (decision: Result<State, Rejection>)
      requires Valid()
      modifies `state
      ensures Valid() && Grows(old(Contents()), Contents())
      ensures decision.Ok? <==> request == identity && !old(state).Starting?
      ensures decision.Ok? ==> DrainBegun(state) && decision.value == state
      ensures decision.Err? ==> state == old(state)
      ensures request == identity ==> Contents() == Apply(old(Contents()), RequestShutdown)
    {
      if request != identity {
        return Err(IdentityMismatch);
      }
      ApplyKeepsSound(Contents(), RequestShutdown);
      var update := ShutDown(state);
      decision, state := update.0, update.1;
    }

    method DecideHostDied() returns (shouldDrain: bool)
      requires Valid()
      modifies `state
      ensures Valid() && Grows(old(Contents()), Contents())
      ensures DrainBegun(state) && (shouldDrain <==> !DrainBegun(old(state)))
      ensures Contents() == Apply(old(Contents()), HostDies)
    {
      ApplyKeepsSound(Contents(), HostDies);
      var update := HostDied(state);
      shouldDrain, state := update.0, update.1;
    }

    /** The drain signal is given only once draining has begun. */
    method SignalDrain()
      requires Valid() && DrainBegun(state)
      modifies `drainRequested
      ensures Valid() && Contents() == Apply(old(Contents()), Operation.SignalDrain)
    {
      drainRequested := true;
    }

    /** `transition`: takes the update's result, or rejects and changes nothing. */
    method Transition(update: State -> Option<State>) returns (result: Result<(), Rejection>)
      modifies `state
      ensures Contents() == Updated(old(Contents()), update(old(state)))
      ensures result == if update(old(state)).Some? then Ok(()) else Err(LifecycleRejected(old(state)))
    {
      var next := update(state);
      match next
      case None => result := Err(LifecycleRejected(state));
      case Some(value) =>
        state := value;
        result := Ok(());
    }

    method AwaitOwnershipAuthorization() returns (result: Result<(), Rejection>)
      requires Valid()
      modifies `state
      ensures Valid() && Grows(old(Contents()), Contents())
      ensures result.Ok? <==> old(accepted) == {} && state.AwaitingOwnership?
    {
      ApplyKeepsSound(Contents(), AwaitOwnership);
      result := Transition(AwaitAuthorization);
    }

    /** Recovery completes under the accepted authorization, unless draining or failure came first. */
    method CompleteRecovery() returns (result: Result<(), Rejection>)
      requires Valid()
      modifies `state
      ensures Valid() && Grows(old(Contents()), Contents())
      ensures result.Ok? <==> state.Ready?
      ensures result.Ok? ==> accepted == {state.authorizationId}
    {
      ApplyKeepsSound(Contents(), Operation.CompleteRecovery);
      result := Transition(RecoveryCompleted);
    }

    method CompleteShutdown() returns (result: Result<(), Rejection>)
      requires Valid()
      modifies `state
      ensures Valid() && Grows(old(Contents()), Contents())
      ensures result.Ok? <==> DrainBegun(old(state))
      ensures result.Ok? <==> state.Stopped?
    {
      ApplyKeepsSound(Contents(), Operation.CompleteShutdown);
      result := Transition(ShutdownCompleted);
    }

    method MarkFailed() returns (result: Result<(), Rejection>)
      requires Valid()
      modifies `state
      ensures Valid() && Grows(old(Contents()), Contents())
      ensures result.Ok? <==> !DrainBegun(old(state))
      ensures result.Ok? <==> state.Failed?
    {
      ApplyKeepsSound(Contents(), Fail);
      result := Transition(MarkedFailed);
    }
  }
}
