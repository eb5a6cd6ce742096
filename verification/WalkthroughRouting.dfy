/** Routing one walkthrough request over providers, their models, and a second try after unusable
    output.

    What a probe or an execution answers may depend on everything asked before it, so the outside
    world is a pair of functions of the trace so far. Executing a model covers turning its text into
    a walkthrough. */
module WalkthroughRouting {
  import opened Wrappers
  import opened ProviderRegistry

  type ModelId = string

  datatype Selection = Automatic(quality: string) | Pinned(provider: ProviderId, model: Option<ModelId>)

  datatype ExecutionError = Operation | InvalidResponse | Generation | Validation

  datatype RouteError =
    | ModelUnavailable(provider: ProviderId, model: Option<ModelId>)
    | Execution(error: ExecutionError)
    | Resolution(cause: ResolutionError)

  predicate Substantive(e: RouteError) {
    !e.Resolution?
  }

  /** The errors after which the same model is tried once more. */
  predicate UnusableOutput(e: ExecutionError) {
    !e.Operation?
  }

  /* One request to the outside world, and its answer */

  datatype Call =
    | Ask(candidate: nat)
    | Try(candidate: nat, model: nat)
    | Retry(candidate: nat, model: nat)

  datatype Entry<+W> =
    | Asked(call: Call, probe: Probe)
    | Tried(call: Call, answer: Result<W, ExecutionError>)
    | NoModel(candidate: nat, error: RouteError)

  type Trace<W> = seq<Entry<W>>

  datatype World<!W> = World(
    probe: (Trace<W>, Registration) -> Probe,
    execute: (Trace<W>, Registration, ModelId) -> Result<W, ExecutionError>)

  datatype Outcome<W> = Outcome(result: Result<W, RouteError>, trace: Trace<W>)

  function ModelIds(models: seq<Model>, keep: Model -> bool): seq<ModelId> {
    if models == [] then []
    else (if models[0].walkthrough && keep(models[0]) then [models[0].id] else []) + ModelIds(models[1..], keep)
  }

  function WalkthroughModels(r: Registration, selection: Selection): seq<ModelId> {
    match selection
    case Automatic(quality) => ModelIds(r.models, (m: Model) => m.quality == quality)
    case Pinned(provider, model) =>
      if provider != r.id then []
      else if model.None? then ModelIds(r.models, (m: Model) => Some(m.id) == r.walkthroughModel)
      else if ModelIds(r.models, (m: Model) => m.id == model.value) != [] then [model.value]
      else []
  }

  /** One candidate of a route: its place among the candidates and the models it is to try. */
  datatype Turn = Turn(place: nat, candidate: Candidate, models: seq<ModelId>)

  /* Provider, model and retry recursion */

  function ExecuteCandidate<W>(world: World<W>, trace: Trace<W>, turn: Turn, model: nat, retry: bool): Outcome<W>
    requires model < |turn.models|
    decreases retry
  {
    var answer := world.execute(trace, turn.candidate.registration, turn.models[model]);
    var call := if retry then Try(turn.place, model) else Retry(turn.place, model);
    var after := trace + [Tried(call, answer)];
    match answer
    case Ok(value) => Outcome(Ok(value), after)
    case Err(error) =>
      if UnusableOutput(error) && retry then ExecuteCandidate(world, after, turn, model, false)
      else Outcome(Err(Execution(error)), after)
  }

  function ExecuteModel<W>(world: World<W>, trace: Trace<W>, turn: Turn, model: nat, automatic: bool): Outcome<W>
    requires model < |turn.models|
    decreases |turn.models| - model
  {
    var first := ExecuteCandidate(world, trace, turn, model, true);
    if first.result.Ok? || !automatic || model + 1 == |turn.models| then first
    else ExecuteModel(world, first.trace, turn, model + 1, automatic)
  }

  /** The error of a provider none of whose models can be used. */
  function NothingToTry(turn: Turn, selection: Selection): RouteError {
    ModelUnavailable(turn.candidate.registration.id, if selection.Pinned? then selection.model else None)
  }

  function ExecuteProvider<W>(world: World<W>, trace: Trace<W>, turn: Turn, selection: Selection): Outcome<W> {
    var probe := if turn.candidate.lazy then world.probe(trace, turn.candidate.registration) else Ready;
    var after := if turn.candidate.lazy then trace + [Asked(Ask(turn.place), probe)] else trace;
    if !probe.Ready? then Outcome(Err(Resolution(NotReady(probe))), after)
    else if turn.models == [] then
      var error := NothingToTry(turn, selection);
      Outcome(Err(error), after + [NoModel(turn.place, error)])
    else ExecuteModel(world, after, turn, 0, selection.Automatic?)
  }

  function ExecuteAutomatic<W>(
    world: World<W>, trace: Trace<W>, turns: seq<Turn>, selection: Selection, last: Option<RouteError>
  ): Outcome<W>
    decreases |turns|
  {
    if turns == [] then
      Outcome(Err(if last.Some? then last.value else Resolution(NoProvider)), trace)
    else
      var first := ExecuteProvider(world, trace, turns[0], selection);
      if first.result.Ok? then first
      else
        var error := first.result.error;
        ExecuteAutomatic(world, first.trace, turns[1..], selection, if Substantive(error) then Some(error) else last)
  }

  function TurnsFrom(candidates: seq<Candidate>, selection: Selection, place: nat): (r: seq<Turn>)
    ensures |r| == |candidates|
    ensures forall i :: 0 <= i < |r| ==>
      r[i] == Turn(place + i, candidates[i], WalkthroughModels(candidates[i].registration, selection))
  {
    seq(|candidates|, i requires 0 <= i < |candidates| =>
      Turn(place + i, candidates[i], WalkthroughModels(candidates[i].registration, selection)))
  }

  function ExecuteRoute<W>(
    world: World<W>, resolved: Result<seq<Candidate>, ResolutionError>, selection: Selection
  ): Outcome<W>
  {
    if resolved.Err? then Outcome(Err(Resolution(resolved.error)), [])
    else
      var turns := TurnsFrom(resolved.value, selection, 0);
      if selection.Automatic? then ExecuteAutomatic(world, [], turns, selection, None)
      else if turns == [] then Outcome(Err(Resolution(NoProvider)), [])
      else ExecuteProvider(world, [], turns[0], selection)
  }

  /* The flat form: one list of calls, walked once from left to right */

  datatype Slot = Slot(call: Call, turn: Turn)

  function ModelSlots(turn: Turn, model: nat): seq<Slot>
    requires model <= |turn.models|
    decreases |turn.models| - model
  {
    if model == |turn.models| then []
    else [Slot(Try(turn.place, model), turn), Slot(Retry(turn.place, model), turn)] + ModelSlots(turn, model + 1)
  }

  function TurnSlots(turn: Turn): seq<Slot> {
    [Slot(Ask(turn.place), turn)] + ModelSlots(turn, 0)
  }

  function Plan(turns: seq<Turn>): seq<Slot> {
    if turns == [] then [] else TurnSlots(turns[0]) + Plan(turns[1..])
  }

  /** The plan from the next candidate on. */
  function Beyond(slots: seq<Slot>, place: nat): (r: seq<Slot>)
    ensures |r| <= |slots|
  {
    if slots != [] && slots[0].call.candidate == place then Beyond(slots[1..], place) else slots
  }

  function Walk<W>(world: World<W>, slots: seq<Slot>, trace: Trace<W>): Trace<W>
    decreases |slots|
  {
    if slots == [] then trace
    else
      var Slot(call, turn) := slots[0];
      match call
      case Ask(place) =>
        var probe := world.probe(trace, turn.candidate.registration);
        var after := trace + [Asked(call, probe)];
        if !probe.Ready? then Walk(world, Beyond(slots[1..], place), after)
        else if turn.models == [] then
          Walk(world, slots[1..], after + [NoModel(place, ModelUnavailable(turn.candidate.registration.id, None))])
        else Walk(world, slots[1..], after)
      case Try(_, model) =>
        if model >= |turn.models| then trace
        else
          var answer := world.execute(trace, turn.candidate.registration, turn.models[model]);
          var after := trace + [Tried(call, answer)];
          if answer.Ok? then after
          else if UnusableOutput(answer.error) then Walk(world, slots[1..], after)
          else Walk(world, if |slots| > 1 then slots[2..] else [], after)
      case Retry(_, model) =>
        if model >= |turn.models| then trace
        else
          var answer := world.execute(trace, turn.candidate.registration, turn.models[model]);
          var after := trace + [Tried(call, answer)];
          if answer.Ok? then after else Walk(world, slots[1..], after)
  }

  /** What a trace amounts to: the last answer when it is a walkthrough, otherwise the last error that
      is not about readiness, otherwise that there was no provider. */
  function Verdict<W>(trace: Trace<W>): Result<W, RouteError> {
    if trace == [] then Err(Resolution(NoProvider))
    else
      match trace[|trace| - 1]
      case Asked(_, _) => Verdict(trace[..|trace| - 1])
      case NoModel(_, error) => Err(error)
      case Tried(_, Ok(value)) => Ok(value)
      case Tried(_, Err(error)) => Err(Execution(error))
  }

  lemma VerdictAfter<W>(trace: Trace<W>, entry: Entry<W>)
    ensures Verdict(trace + [entry]) ==
      match entry
      case Asked(_, _) => Verdict(trace)
      case NoModel(_, error) => Err(error)
      case Tried(_, Ok(value)) => Ok(value)
      case Tried(_, Err(error)) => Err(Execution(error))
  {
    assert (trace + [entry])[..|trace|] == trace;
  }

  lemma {:induction false} CandidateWalks<W>(world: World<W>, trace: Trace<W>, turn: Turn, model: nat, rest: seq<Slot>)
    requires model < |turn.models|
    ensures
      var slots := [Slot(Try(turn.place, model), turn), Slot(Retry(turn.place, model), turn)] + rest;
      var nested := ExecuteCandidate(world, trace, turn, model, true);
      && Walk(world, slots, trace) == (if nested.result.Ok? then nested.trace else Walk(world, rest, nested.trace))
      && nested.result == Verdict(nested.trace)
  {
    var slots := [Slot(Try(turn.place, model), turn), Slot(Retry(turn.place, model), turn)] + rest;
    assert slots[2..] == rest;
    assert slots[1..] == [Slot(Retry(turn.place, model), turn)] + rest;
    assert slots[1..][1..] == rest;
    var answer := world.execute(trace, turn.candidate.registration, turn.models[model]);
    VerdictAfter(trace, Tried(Try(turn.place, model), answer));
    var after := trace + [Tried(Try(turn.place, model), answer)];
    VerdictAfter(after, Tried(Retry(turn.place, model),
      world.execute(after, turn.candidate.registration, turn.models[model])));
  }

  lemma {:induction false} ModelsWalk<W>(world: World<W>, trace: Trace<W>, turn: Turn, model: nat, rest: seq<Slot>)
    requires model < |turn.models|
    ensures
      var nested := ExecuteModel(world, trace, turn, model, true);
      && Walk(world, ModelSlots(turn, model) + rest, trace)
           == (if nested.result.Ok? then nested.trace else Walk(world, rest, nested.trace))
      && nested.result == Verdict(nested.trace)
    decreases |turn.models| - model
  {
    hide Walk, ExecuteCandidate, Verdict;
    var more := ModelSlots(turn, model + 1) + rest;
    CandidateWalks(world, trace, turn, model, more);
    assert ModelSlots(turn, model) + rest
        == [Slot(Try(turn.place, model), turn), Slot(Retry(turn.place, model), turn)] + more;
    var first := ExecuteCandidate(world, trace, turn, model, true);
    if model + 1 == |turn.models| {
      assert more == rest;
    } else if first.result.Err? {
      ModelsWalk(world, first.trace, turn, model + 1, rest);
    }
  }

  lemma {:induction false} BeyondTurn(turn: Turn, model: nat, rest: seq<Slot>)
    requires model <= |turn.models|
    requires rest != [] ==> rest[0].call.candidate != turn.place
    ensures Beyond(ModelSlots(turn, model) + rest, turn.place) == rest
    decreases |turn.models| - model
  {
    if model == |turn.models| {
      assert ModelSlots(turn, model) + rest == rest;
    } else {
      var slots := ModelSlots(turn, model) + rest;
      BeyondTurn(turn, model + 1, rest);
      assert slots[1..][1..] == ModelSlots(turn, model + 1) + rest;
    }
  }

  lemma {:induction false} ProviderWalks<W>(
      world: World<W>, trace: Trace<W>, turn: Turn, selection: Selection, rest: seq<Slot>)
    requires turn.candidate.lazy && selection.Automatic?
    requires rest != [] ==> rest[0].call.candidate != turn.place
    ensures
      var nested := ExecuteProvider(world, trace, turn, selection);
      && Walk(world, TurnSlots(turn) + rest, trace)
           == (if nested.result.Ok? then nested.trace else Walk(world, rest, nested.trace))
      && Verdict(nested.trace)
           == (if nested.result.Err? && !Substantive(nested.result.error) then Verdict(trace) else nested.result)
  {
    var slots := TurnSlots(turn) + rest;
    var probe := world.probe(trace, turn.candidate.registration);
    var after := trace + [Asked(Ask(turn.place), probe)];
    assert slots[1..] == ModelSlots(turn, 0) + rest;
    assert turn.models == [] ==> ModelSlots(turn, 0) + rest == rest;
    hide ModelSlots, Beyond, ExecuteModel, Verdict;
    VerdictAfter(trace, Asked(Ask(turn.place), probe));
    if !probe.Ready? {
      BeyondTurn(turn, 0, rest);
    } else if turn.models == [] {
      VerdictAfter(after, NoModel(turn.place, NothingToTry(turn, selection)));
    } else {
      ModelsWalk(world, after, turn, 0, rest);
      ModelErrors(world, after, turn, 0, true);
    }
  }

  lemma {:induction false} ModelErrors<W>(world: World<W>, trace: Trace<W>, turn: Turn, model: nat, automatic: bool)
    requires model < |turn.models|
    ensures
      var nested := ExecuteModel(world, trace, turn, model, automatic);
      nested.result.Err? ==> nested.result.error.Execution?
    decreases |turn.models| - model
  {
    var first := ExecuteCandidate(world, trace, turn, model, true);
    if first.result.Err? && automatic && model + 1 < |turn.models| {
      ModelErrors(world, first.trace, turn, model + 1, automatic);
    }
  }

  /** Candidates keep their probe for later, and each has its own place. */
  ghost predicate InPlaces(turns: seq<Turn>) {
    && (forall i :: 0 <= i < |turns| ==> turns[i].candidate.lazy)
    && (forall i :: 0 <= i < |turns| - 1 ==> turns[i].place < turns[i + 1].place)
  }

  lemma {:induction false} AutomaticWalks<W>(
    world: World<W>, trace: Trace<W>, turns: seq<Turn>, selection: Selection, last: Option<RouteError>
  )
    requires InPlaces(turns) && selection.Automatic?
    requires Verdict(trace) == Err(if last.Some? then last.value else Resolution(NoProvider))
    ensures
      var nested := ExecuteAutomatic(world, trace, turns, selection, last);
      nested.trace == Walk(world, Plan(turns), trace) && nested.result == Verdict(nested.trace)
    decreases |turns|
  {
    hide ExecuteProvider, TurnSlots, Verdict;
    if turns != [] {
      var rest := Plan(turns[1..]);
      if turns[1..] != [] {
        FirstSlot(turns[1..]);
      }
      ProviderWalks(world, trace, turns[0], selection, rest);
      var first := ExecuteProvider(world, trace, turns[0], selection);
      if first.result.Err? {
        var error := first.result.error;
        AutomaticWalks(world, first.trace, turns[1..], selection, if Substantive(error) then Some(error) else last);
      }
    }
  }

  lemma FirstSlot(turns: seq<Turn>)
    requires turns != []
    ensures Plan(turns) != [] && Plan(turns)[0] == Slot(Ask(turns[0].place), turns[0])
  {
  }

  /** Automatic routing, with its three levels of recursion, is one walk over the flat plan: the
      result is the walkthrough that ended the walk, otherwise the last error that was not about
      readiness, otherwise that no provider is available. */
  lemma {:induction false} AutomaticIsFlat<W>(world: World<W>, candidates: seq<Candidate>, selection: Selection)
    requires selection.Automatic? && forall i :: 0 <= i < |candidates| ==> candidates[i].lazy
    ensures
      var routed := ExecuteRoute(world, Ok(candidates), selection);
      && routed.trace == Walk(world, Plan(TurnsFrom(candidates, selection, 0)), [])
      && routed.result == Verdict(routed.trace)
  {
    AutomaticWalks(world, [], TurnsFrom(candidates, selection, 0), selection, None);
  }

  /* What the flat walk does, and does not do */

  function Rank(call: Call): nat {
    match call
    case Ask(_) => 0
    case Try(_, model) => 2 * model + 1
    case Retry(_, model) => 2 * model + 2
  }

  predicate Before(a: Call, b: Call) {
    a.candidate < b.candidate || (a.candidate == b.candidate && Rank(a) < Rank(b))
  }

  /** Calls only ever move on: by candidate, then by model, a first try before a second. */
  ghost predicate MovesOn<W>(trace: Trace<W>) {
    forall i, j :: 0 <= i < j < |trace| && !trace[i].NoModel? && !trace[j].NoModel? ==>
      Before(trace[i].call, trace[j].call)
  }

  ghost predicate Ahead<W>(trace: Trace<W>, slots: seq<Slot>) {
    forall i, j :: 0 <= i < |trace| && !trace[i].NoModel? && 0 <= j < |slots| ==>
      Before(trace[i].call, slots[j].call)
  }

  ghost predicate Ordered(slots: seq<Slot>) {
    && (forall i, j :: 0 <= i < j < |slots| ==> Before(slots[i].call, slots[j].call))
    && (forall i :: 0 < i < |slots| && slots[i].call.Retry? ==>
          slots[i - 1].call == Try(slots[i].call.candidate, slots[i].call.model))
    && (forall i :: 0 <= i < |slots| && slots[i].call.Try? ==>
          i + 1 < |slots| && slots[i + 1].call == Retry(slots[i].call.candidate, slots[i].call.model))
  }

  predicate Unusable<W>(entry: Entry<W>, candidate: nat, model: nat) {
    entry.Tried? && entry.call == Try(candidate, model) && entry.answer.Err? && UnusableOutput(entry.answer.error)
  }

  /** A second try comes only directly after the first one gave unusable output, and nothing comes
      after a walkthrough. */
  ghost predicate Economical<W>(trace: Trace<W>) {
    && (forall i :: 0 <= i < |trace| && trace[i].Tried? && trace[i].call.Retry? ==>
          i > 0 && Unusable(trace[i - 1], trace[i].call.candidate, trace[i].call.model))
    && (forall i :: 0 <= i < |trace| - 1 && trace[i].Tried? ==> trace[i].answer.Err?)
  }

  ghost predicate WalkReady<W>(trace: Trace<W>, slots: seq<Slot>) {
    && MovesOn(trace) && Ahead(trace, slots) && Economical(trace) && Ordered(slots)
    && (trace != [] && trace[|trace| - 1].Tried? ==> trace[|trace| - 1].answer.Err?)
    && (slots != [] && slots[0].call.Retry? ==>
          trace != [] && Unusable(trace[|trace| - 1], slots[0].call.candidate, slots[0].call.model))
  }

  lemma {:induction false} BeyondIsSuffix(slots: seq<Slot>, place: nat) returns (k: nat)
    ensures k <= |slots| && Beyond(slots, place) == slots[k..]
    ensures forall i :: 0 <= i < k ==> slots[i].call.candidate == place
    ensures k < |slots| ==> slots[k].call.candidate != place
  {
    if slots != [] && slots[0].call.candidate == place {
      var rest := BeyondIsSuffix(slots[1..], place);
      k := rest + 1;
      assert slots[1..][rest..] == slots[k..];
    } else {
      k := 0;
    }
  }

  lemma OneCallMore<W>(trace: Trace<W>, slots: seq<Slot>, entry: Entry<W>, k: nat)
    requires WalkReady(trace, slots) && slots != [] && 0 < k <= |slots|
    requires !entry.NoModel? && entry.call == slots[0].call
    requires entry.Tried? <==> !entry.call.Ask?
    ensures MovesOn(trace + [entry]) && Ahead(trace + [entry], slots[k..])
    ensures Economical(trace + [entry]) && Ordered(slots[k..])
  {
  }

  lemma NoModelMore<W>(trace: Trace<W>, slots: seq<Slot>, entry: Entry<W>)
    requires entry.NoModel? && MovesOn(trace) && Ahead(trace, slots) && Economical(trace)
    requires trace != [] && trace[|trace| - 1].Asked?
    ensures MovesOn(trace + [entry]) && Ahead(trace + [entry], slots) && Economical(trace + [entry])
  {
  }

  lemma NoRetryFirst(slots: seq<Slot>, k: nat)
    requires Ordered(slots) && 0 < k <= |slots|
    requires k < |slots| ==> !slots[k - 1].call.Try? || slots[k - 1].call.candidate != slots[k].call.candidate
    ensures k < |slots| ==> !slots[k].call.Retry?
  {
  }

  lemma RetryFollows(slots: seq<Slot>)
    requires Ordered(slots) && slots != [] && slots[0].call.Try?
    ensures |slots| > 1 && slots[1].call == Retry(slots[0].call.candidate, slots[0].call.model)
  {
  }

  lemma {:induction false} WalkIsOrderly<W>(world: World<W>, slots: seq<Slot>, trace: Trace<W>)
    requires WalkReady(trace, slots)
    ensures MovesOn(Walk(world, slots, trace)) && Economical(Walk(world, slots, trace))
    decreases |slots|
  {
    hide MovesOn, Ahead, Economical, Ordered;
    if slots != [] {
      var Slot(call, turn) := slots[0];
      var registration := turn.candidate.registration;
      match call
      case Ask(place) =>
        var probe := world.probe(trace, registration);
        var after := trace + [Asked(call, probe)];
        OneCallMore(trace, slots, Asked(call, probe), 1);
        if !probe.Ready? {
          var k := BeyondIsSuffix(slots[1..], place);
          assert slots[1..][k..] == slots[k + 1..];
          OneCallMore(trace, slots, Asked(call, probe), k + 1);
          NoRetryFirst(slots, k + 1);
          WalkIsOrderly(world, slots[k + 1..], after);
        } else {
          NoRetryFirst(slots, 1);
          var missing := NoModel(place, ModelUnavailable(registration.id, None));
          NoModelMore(after, slots[1..], missing);
          WalkIsOrderly(world, slots[1..], if turn.models == [] then after + [missing] else after);
        }
      case Try(_, model) =>
        if model < |turn.models| {
          var answer := world.execute(trace, registration, turn.models[model]);
          OneCallMore(trace, slots, Tried(call, answer), 1);
          RetryFollows(slots);
          if answer.Err? {
            if UnusableOutput(answer.error) {
              WalkIsOrderly(world, slots[1..], trace + [Tried(call, answer)]);
            } else {
              OneCallMore(trace, slots, Tried(call, answer), 2);
              NoRetryFirst(slots, 2);
              WalkIsOrderly(world, slots[2..], trace + [Tried(call, answer)]);
            }
          }
        }
      case Retry(_, model) =>
        if model < |turn.models| {
          var answer := world.execute(trace, registration, turn.models[model]);
          OneCallMore(trace, slots, Tried(call, answer), 1);
          if answer.Err? {
            NoRetryFirst(slots, 1);
            WalkIsOrderly(world, slots[1..], trace + [Tried(call, answer)]);
          }
        }
    }
  }

  lemma {:induction false} ModelSlotsOrdered(turn: Turn, model: nat)
    requires model <= |turn.models|
    ensures Ordered(ModelSlots(turn, model))
    ensures forall i :: 0 <= i < |ModelSlots(turn, model)| ==>
      && ModelSlots(turn, model)[i].call.candidate == turn.place
      && Rank(ModelSlots(turn, model)[i].call) > 2 * model
      && (i == 0 ==> ModelSlots(turn, model)[0].call.Try?)
    decreases |turn.models| - model
  {
    if model < |turn.models| {
      ModelSlotsOrdered(turn, model + 1);
    }
  }

  lemma TurnSlotsOrdered(turn: Turn)
    ensures Ordered(TurnSlots(turn))
    ensures forall i :: 0 <= i < |TurnSlots(turn)| ==> TurnSlots(turn)[i].call.candidate == turn.place
  {
    ModelSlotsOrdered(turn, 0);
  }

  lemma OrderedConcat(a: seq<Slot>, b: seq<Slot>)
    requires Ordered(a) && Ordered(b)
    requires forall i, j :: 0 <= i < |a| && 0 <= j < |b| ==> a[i].call.candidate < b[j].call.candidate
    requires b != [] ==> !b[0].call.Retry?
    ensures Ordered(a + b)
  {
    hide Rank;
  }

  lemma {:induction false} PlanOrdered(turns: seq<Turn>)
    requires InPlaces(turns)
    ensures Ordered(Plan(turns))
    ensures forall i :: 0 <= i < |Plan(turns)| ==> turns != [] && turns[0].place <= Plan(turns)[i].call.candidate
    ensures turns != [] ==> Plan(turns) != [] && Plan(turns)[0].call == Ask(turns[0].place)
    decreases |turns|
  {
    if turns != [] {
      FirstSlot(turns);
      hide Ordered, TurnSlots;
      PlanOrdered(turns[1..]);
      TurnSlotsOrdered(turns[0]);
      OrderedConcat(TurnSlots(turns[0]), Plan(turns[1..]));
    } else {
      assert Plan(turns) == [];
    }
  }

  /** Automatic routing asks each provider at most once, tries each of its models at most twice, the
      second time only directly after unusable output, keeps to the order of the candidates and of
      each catalog, and stops at the first walkthrough. */
  lemma {:induction false} AutomaticIsOrderly<W>(world: World<W>, candidates: seq<Candidate>, selection: Selection)
    requires selection.Automatic? && forall i :: 0 <= i < |candidates| ==> candidates[i].lazy
    ensures
      var routed := ExecuteRoute(world, Ok(candidates), selection);
      MovesOn(routed.trace) && Economical(routed.trace)
  {
    var turns := TurnsFrom(candidates, selection, 0);
    AutomaticIsFlat(world, candidates, selection);
    PlanOrdered(turns);
    WalkIsOrderly(world, Plan(turns), []);
  }

  /* When routing fails */

  ghost predicate Failed<W>(trace: Trace<W>, place: nat, model: nat) {
    exists i :: 0 <= i < |trace| && trace[i].Tried? && trace[i].call == Try(place, model) && trace[i].answer.Err?
  }

  ghost predicate Exhausted<W>(trace: Trace<W>, turn: Turn) {
    exists i ::
      && 0 <= i < |trace| && trace[i].Asked? && trace[i].call == Ask(turn.place)
      && (trace[i].probe.Ready? ==> forall m: nat :: m < |turn.models| ==> Failed(trace, turn.place, m))
  }

  lemma {:induction false} FailingModels<W>(world: World<W>, trace: Trace<W>, turn: Turn, model: nat)
    requires model < |turn.models|
    ensures
      var nested := ExecuteModel(world, trace, turn, model, true);
      && trace <= nested.trace
      && (nested.result.Err? ==>
            forall m: nat :: model <= m < |turn.models| ==> Failed(nested.trace, turn.place, m))
    decreases |turn.models| - model
  {
    var first := ExecuteCandidate(world, trace, turn, model, true);
    var answer := world.execute(trace, turn.candidate.registration, turn.models[model]);
    assert first.trace[|trace|] == Tried(Try(turn.place, model), answer);
    if first.result.Err? && model + 1 < |turn.models| {
      FailingModels(world, first.trace, turn, model + 1);
      var nested := ExecuteModel(world, first.trace, turn, model + 1, true);
      assert nested.trace[|trace|] == first.trace[|trace|];
      assert nested.result.Err? ==> Failed(nested.trace, turn.place, model);
    }
  }

  lemma ExhaustedStays<W>(trace: Trace<W>, longer: Trace<W>, turn: Turn)
    requires trace <= longer && Exhausted(trace, turn)
    ensures Exhausted(longer, turn)
  {
    var i :| 0 <= i < |trace| && trace[i].Asked? && trace[i].call == Ask(turn.place)
      && (trace[i].probe.Ready? ==> forall m: nat :: m < |turn.models| ==> Failed(trace, turn.place, m));
    assert longer[i] == trace[i];
    forall m: nat | Failed(trace, turn.place, m)
      ensures Failed(longer, turn.place, m)
    {
      var j :| 0 <= j < |trace| && trace[j].Tried? && trace[j].call == Try(turn.place, m) && trace[j].answer.Err?;
      assert longer[j] == trace[j];
    }
  }

  lemma {:induction false} FailingProvider<W>(world: World<W>, trace: Trace<W>, turn: Turn, selection: Selection)
    requires turn.candidate.lazy && selection.Automatic?
    ensures
      var nested := ExecuteProvider(world, trace, turn, selection);
      trace <= nested.trace && (nested.result.Err? ==> Exhausted(nested.trace, turn))
  {
    hide ExecuteModel;
    var nested := ExecuteProvider(world, trace, turn, selection);
    var probe := world.probe(trace, turn.candidate.registration);
    var after := trace + [Asked(Ask(turn.place), probe)];
    if probe.Ready? && turn.models != [] {
      FailingModels(world, after, turn, 0);
    }
    assert after <= nested.trace;
    assert nested.trace[|trace|] == after[|trace|] == Asked(Ask(turn.place), probe);
  }

  lemma {:induction false} FailingRoute<W>(
    world: World<W>, trace: Trace<W>, turns: seq<Turn>, selection: Selection, last: Option<RouteError>
  )
    requires selection.Automatic? && forall i :: 0 <= i < |turns| ==> turns[i].candidate.lazy
    ensures
      var nested := ExecuteAutomatic(world, trace, turns, selection, last);
      && trace <= nested.trace
      && (nested.result.Err? ==> forall i :: 0 <= i < |turns| ==> Exhausted(nested.trace, turns[i]))
    decreases |turns|
  {
    hide ExecuteProvider;
    if turns != [] {
      var first := ExecuteProvider(world, trace, turns[0], selection);
      FailingProvider(world, trace, turns[0], selection);
      if first.result.Err? {
        var error := first.result.error;
        var next := if Substantive(error) then Some(error) else last;
        FailingRoute(world, first.trace, turns[1..], selection, next);
        var nested := ExecuteAutomatic(world, first.trace, turns[1..], selection, next);
        ExhaustedStays(first.trace, nested.trace, turns[0]);
        assert forall i :: 1 <= i < |turns| ==> turns[i] == turns[1..][i - 1];
      }
    }
  }

  /** Automatic routing gives up only when it has asked every provider and failed on every model of
      every provider that was ready. */
  lemma {:induction false} AutomaticTriesEverything<W>(
      world: World<W>, candidates: seq<Candidate>, selection: Selection)
    requires selection.Automatic? && forall i :: 0 <= i < |candidates| ==> candidates[i].lazy
    ensures
      var routed := ExecuteRoute(world, Ok(candidates), selection);
      var turns := TurnsFrom(candidates, selection, 0);
      routed.result.Err? ==> forall i :: 0 <= i < |turns| ==> Exhausted(routed.trace, turns[i])
  {
    FailingRoute(world, [], TurnsFrom(candidates, selection, 0), selection, None);
  }

  /* Which models */

  lemma {:induction false} ModelIdsConcat(a: seq<Model>, b: seq<Model>, keep: Model -> bool)
    ensures ModelIds(a + b, keep) == ModelIds(a, keep) + ModelIds(b, keep)
  {
    if a == [] {
      assert a + b == b;
    } else {
      assert (a + b)[1..] == a[1..] + b;
      ModelIdsConcat(a[1..], b, keep);
    }
  }

  lemma {:induction false} ModelIdsExactly(models: seq<Model>, keep: Model -> bool, id: ModelId)
    ensures id in ModelIds(models, keep) <==> exists m :: m in models && m.walkthrough && keep(m) && m.id == id
  {
    if models != [] {
      ModelIdsExactly(models[1..], keep, id);
      assert models == [models[0]] + models[1..];
    }
  }

  /* Every call, by the catalog entry it is about */

  predicate Matches(model: Model, quality: string) {
    model.walkthrough && model.quality == quality
  }

  /** How many of the first `k` models match. */
  function MatchesBefore(models: seq<Model>, quality: string, k: nat): nat
    requires k <= |models|
  {
    if k == 0 then 0 else (if Matches(models[0], quality) then 1 else 0) + MatchesBefore(models[1..], quality, k - 1)
  }

  /** The ids are those of the matching models, in the order of the catalog. */
  ghost predicate AreMatching(ids: seq<ModelId>, models: seq<Model>, quality: string) {
    && (forall k: nat :: k < |models| && Matches(models[k], quality) ==>
          MatchesBefore(models, quality, k) < |ids| && ids[MatchesBefore(models, quality, k)] == models[k].id)
    && (forall m: nat :: m < |ids| ==> SomeMatch(models, quality, m))
  }

  /** The model at `k` is the `m`-th that matches. */
  ghost predicate IsMatch(models: seq<Model>, quality: string, k: nat, m: nat) {
    k < |models| && Matches(models[k], quality) && MatchesBefore(models, quality, k) == m
  }

  ghost predicate SomeMatch(models: seq<Model>, quality: string, m: nat) {
    exists k: nat :: IsMatch(models, quality, k, m)
  }

  lemma {:induction false} MatchingIds(models: seq<Model>, keep: Model -> bool, quality: string)
    requires forall m :: keep(m) <==> m.quality == quality
    ensures AreMatching(ModelIds(models, keep), models, quality)
  {
    var ids := ModelIds(models, keep);
    if models != [] {
      var rest := ModelIds(models[1..], keep);
      var first := if Matches(models[0], quality) then 1 else 0;
      MatchingIds(models[1..], keep, quality);
      assert ids[first..] == rest;
      forall k: nat | k < |models| && Matches(models[k], quality)
        ensures MatchesBefore(models, quality, k) < |ids| && ids[MatchesBefore(models, quality, k)] == models[k].id
      {
        if k > 0 {
          assert models[1..][k - 1] == models[k];
          assert ids[first..][MatchesBefore(models[1..], quality, k - 1)] == models[k].id;
        }
      }
      forall m: nat | m < |ids|
        ensures SomeMatch(models, quality, m)
      {
        if m < first {
          assert IsMatch(models, quality, 0, m);
        } else {
          assert SomeMatch(models[1..], quality, m - first);
          var k: nat :| IsMatch(models[1..], quality, k, m - first);
          assert IsMatch(models, quality, k + 1, m);
        }
      }
    }
  }

  /** A turn of the candidate at its place, with the matching models of its catalog. */
  ghost predicate IsTurn(candidates: seq<Candidate>, quality: string, turn: Turn) {
    && turn.place < |candidates| && turn.candidate == candidates[turn.place]
    && AreMatching(turn.models, turn.candidate.registration.models, quality)
  }

  lemma TurnsAre(candidates: seq<Candidate>, quality: string)
    ensures
      var turns := TurnsFrom(candidates, Automatic(quality), 0);
      forall i :: 0 <= i < |turns| ==> turns[i].place == i && IsTurn(candidates, quality, turns[i])
  {
    hide AreMatching, ModelIds;
    var turns := TurnsFrom(candidates, Automatic(quality), 0);
    forall i | 0 <= i < |turns|
      ensures IsTurn(candidates, quality, turns[i])
    {
      MatchingIds(candidates[i].registration.models, (m: Model) => m.quality == quality, quality);
    }
  }

  predicate IsUnusable(e: ExecutionError) {
    e == InvalidResponse || e == Generation || e == Validation
  }

  /** An entry of the trace is the answer of the outside world, at that point, to a question about the
      candidate at its place: its readiness, or one of the matching models of its catalog. */
  ghost predicate IsStep<W>(
    world: World<W>, candidates: seq<Candidate>, quality: string, before: Trace<W>, entry: Entry<W>
  ) {
    match entry
    case Asked(call, probe) =>
      && call.Ask? && call.candidate < |candidates|
      && probe == world.probe(before, candidates[call.candidate].registration)
    case Tried(call, answer) =>
      && !call.Ask? && call.candidate < |candidates|
      && var registration := candidates[call.candidate].registration;
         exists k: nat :: IsMatch(registration.models, quality, k, call.model)
           && answer == world.execute(before, registration, registration.models[k].id)
    case NoModel(place, error) =>
      && place < |candidates|
      && var registration := candidates[place].registration;
         && (forall k: nat :: k < |registration.models| ==> !Matches(registration.models[k], quality))
         && error == ModelUnavailable(registration.id, None)
  }

  /** A model is tried again exactly after its output was unusable, and at once. */
  ghost predicate RetriesAt<W>(trace: Trace<W>, i: nat)
    requires i < |trace|
  {
    trace[i].Tried? ==>
      match trace[i].call
      case Ask(_) => false
      case Try(place, model) =>
        trace[i].answer.Err? && IsUnusable(trace[i].answer.error) ==>
          i + 1 < |trace| && trace[i + 1].Tried? && trace[i + 1].call == Retry(place, model)
      case Retry(place, model) =>
        && i > 0 && trace[i - 1].Tried? && trace[i - 1].call == Try(place, model)
        && trace[i - 1].answer.Err? && IsUnusable(trace[i - 1].answer.error)
  }

  ghost predicate Faithful<W>(
    world: World<W>, candidates: seq<Candidate>, quality: string, trace: Trace<W>, from: nat
  ) {
    forall i: nat :: from <= i < |trace| ==>
      IsStep(world, candidates, quality, trace[..i], trace[i]) && RetriesAt(trace, i)
  }

  /** What was right stays right when more follows. */
  lemma {:induction false} FaithfulMore<W>(
    world: World<W>, candidates: seq<Candidate>, quality: string, before: Trace<W>, trace: Trace<W>, from: nat
  )
    requires before <= trace && from <= |before|
    requires Faithful(world, candidates, quality, before, from) && Faithful(world, candidates, quality, trace, |before|)
    ensures Faithful(world, candidates, quality, trace, from)
  {
    hide IsStep;
    forall i: nat | from <= i < |trace|
      ensures IsStep(world, candidates, quality, trace[..i], trace[i]) && RetriesAt(trace, i)
    {
      if i < |before| {
        assert trace[..i] == before[..i] && RetriesAt(before, i);
      }
    }
  }

  lemma {:induction false} CandidateIsFaithful<W>(
    world: World<W>, candidates: seq<Candidate>, quality: string, trace: Trace<W>, turn: Turn, model: nat
  )
    requires IsTurn(candidates, quality, turn) && model < |turn.models|
    ensures
      var nested := ExecuteCandidate(world, trace, turn, model, true);
      && trace <= nested.trace
      && Faithful(world, candidates, quality, nested.trace, |trace|)
  {
    var registration := turn.candidate.registration;
    var answer := world.execute(trace, registration, turn.models[model]);
    var first := Tried(Try(turn.place, model), answer);
    var nested := ExecuteCandidate(world, trace, turn, model, true);
    assert IsStep(world, candidates, quality, trace, first) by {
      ModelIsStep(world, candidates, quality, trace, turn, model, first);
    }
    assert nested.trace[..|trace|] == trace && nested.trace[|trace|] == first;
    if answer.Err? && UnusableOutput(answer.error) {
      var once := trace + [first];
      var second := Tried(Retry(turn.place, model), world.execute(once, registration, turn.models[model]));
      ModelIsStep(world, candidates, quality, once, turn, model, second);
      assert nested.trace == once + [second];
      assert nested.trace[..|trace| + 1] == once;
    } else {
      assert nested.trace == trace + [first];
    }
  }

  lemma {:induction false} ModelIsStep<W>(
    world: World<W>, candidates: seq<Candidate>, quality: string, before: Trace<W>, turn: Turn, model: nat,
    entry: Entry<W>
  )
    requires IsTurn(candidates, quality, turn) && model < |turn.models|
    requires entry.Tried? && !entry.call.Ask? && entry.call.candidate == turn.place && entry.call.model == model
    requires entry.answer == world.execute(before, turn.candidate.registration, turn.models[model])
    ensures IsStep(world, candidates, quality, before, entry)
  {
    var models := turn.candidate.registration.models;
    assert SomeMatch(models, quality, model);
    var k: nat :| IsMatch(models, quality, k, model);
    assert turn.models[MatchesBefore(models, quality, k)] == models[k].id;
  }

  lemma {:induction false} ModelsAreFaithful<W>(
    world: World<W>, candidates: seq<Candidate>, quality: string, trace: Trace<W>, turn: Turn, model: nat
  )
    requires IsTurn(candidates, quality, turn) && model < |turn.models|
    ensures
      var nested := ExecuteModel(world, trace, turn, model, true);
      && trace <= nested.trace
      && Faithful(world, candidates, quality, nested.trace, |trace|)
    decreases |turn.models| - model
  {
    hide Faithful, ExecuteCandidate, IsTurn;
    CandidateIsFaithful(world, candidates, quality, trace, turn, model);
    var first := ExecuteCandidate(world, trace, turn, model, true);
    if !first.result.Ok? && model + 1 < |turn.models| {
      ModelsAreFaithful(world, candidates, quality, first.trace, turn, model + 1);
      var nested := ExecuteModel(world, first.trace, turn, model + 1, true);
      FaithfulMore(world, candidates, quality, first.trace, nested.trace, |trace|);
    }
  }

  lemma {:induction false} OneEntryIsFaithful<W>(
    world: World<W>, candidates: seq<Candidate>, quality: string, trace: Trace<W>, entry: Entry<W>
  )
    requires !entry.Tried? && IsStep(world, candidates, quality, trace, entry)
    ensures Faithful(world, candidates, quality, trace + [entry], |trace|)
  {
    assert (trace + [entry])[..|trace|] == trace;
  }

  lemma NoneMatches(candidates: seq<Candidate>, quality: string, turn: Turn)
    requires IsTurn(candidates, quality, turn) && turn.models == []
    ensures forall k: nat :: k < |turn.candidate.registration.models| ==>
      !Matches(turn.candidate.registration.models[k], quality)
  {
  }

  lemma {:induction false} ProviderIsFaithful<W>(
    world: World<W>, candidates: seq<Candidate>, quality: string, trace: Trace<W>, turn: Turn
  )
    requires IsTurn(candidates, quality, turn) && turn.candidate.lazy
    ensures
      var nested := ExecuteProvider(world, trace, turn, Automatic(quality));
      && trace <= nested.trace
      && Faithful(world, candidates, quality, nested.trace, |trace|)
  {
    hide Faithful, ExecuteModel;
    var probe := world.probe(trace, turn.candidate.registration);
    var asked := Asked(Ask(turn.place), probe);
    var after := trace + [asked];
    OneEntryIsFaithful(world, candidates, quality, trace, asked);
    var nested := ExecuteProvider(world, trace, turn, Automatic(quality));
    if probe.Ready? && turn.models == [] {
      NoneMatches(candidates, quality, turn);
      var nothing := NoModel(turn.place, NothingToTry(turn, Automatic(quality)));
      OneEntryIsFaithful(world, candidates, quality, after, nothing);
      FaithfulMore(world, candidates, quality, after, nested.trace, |trace|);
    } else if probe.Ready? {
      ModelsAreFaithful(world, candidates, quality, after, turn, 0);
      FaithfulMore(world, candidates, quality, after, nested.trace, |trace|);
    }
  }

  lemma {:induction false} RouteIsFaithful<W>(
    world: World<W>, candidates: seq<Candidate>, quality: string, trace: Trace<W>, turns: seq<Turn>,
    last: Option<RouteError>
  )
    requires forall i :: 0 <= i < |turns| ==> IsTurn(candidates, quality, turns[i]) && turns[i].candidate.lazy
    ensures
      var nested := ExecuteAutomatic(world, trace, turns, Automatic(quality), last);
      && trace <= nested.trace
      && Faithful(world, candidates, quality, nested.trace, |trace|)
    decreases |turns|
  {
    if turns != [] {
      hide Faithful, ExecuteProvider, IsTurn;
      ProviderIsFaithful(world, candidates, quality, trace, turns[0]);
      var first := ExecuteProvider(world, trace, turns[0], Automatic(quality));
      if first.result.Err? {
        var error := first.result.error;
        var next := if Substantive(error) then Some(error) else last;
        RouteIsFaithful(world, candidates, quality, first.trace, turns[1..], next);
        var nested := ExecuteAutomatic(world, first.trace, turns[1..], Automatic(quality), next);
        FaithfulMore(world, candidates, quality, first.trace, nested.trace, |trace|);
      }
    }
  }

  /** A provider was found not ready, or each matching model of its catalog was tried and failed. */
  ghost predicate GaveUpOn<W>(trace: Trace<W>, candidates: seq<Candidate>, quality: string, place: nat)
    requires place < |candidates|
  {
    var models := candidates[place].registration.models;
    exists i :: 0 <= i < |trace| && trace[i].Asked? && trace[i].call == Ask(place)
      && (trace[i].probe.Ready? ==>
            forall k: nat :: k < |models| && Matches(models[k], quality) ==>
              Failed(trace, place, MatchesBefore(models, quality, k)))
  }

  /** In automatic routing every question is put to the candidate at its place, and every try is of a
      model of that candidate's catalog that writes walkthroughs and has the quality asked for, in the
      order of the catalog; a model is tried again exactly after unusable output. When routing fails,
      every provider was asked, and every such model of every ready provider tried. */
  lemma {:induction false} AutomaticIsFaithful<W>(world: World<W>, candidates: seq<Candidate>, quality: string)
    requires forall i :: 0 <= i < |candidates| ==> candidates[i].lazy
    ensures
      var routed := ExecuteRoute(world, Ok(candidates), Automatic(quality));
      && Faithful(world, candidates, quality, routed.trace, 0)
      && (routed.result.Err? ==>
            forall place: nat :: place < |candidates| ==> GaveUpOn(routed.trace, candidates, quality, place))
  {
    hide Faithful, ExecuteAutomatic;
    var turns := TurnsFrom(candidates, Automatic(quality), 0);
    var routed := ExecuteRoute(world, Ok(candidates), Automatic(quality));
    TurnsAre(candidates, quality);
    RouteIsFaithful(world, candidates, quality, [], turns, None);
    AutomaticTriesEverything(world, candidates, Automatic(quality));
    if routed.result.Err? {
      forall place: nat | place < |candidates|
        ensures GaveUpOn(routed.trace, candidates, quality, place)
      {
        assert Exhausted(routed.trace, turns[place]);
        GivenUp(routed.trace, candidates, quality, turns[place]);
      }
    }
  }

  lemma GivenUp<W>(trace: Trace<W>, candidates: seq<Candidate>, quality: string, turn: Turn)
    requires IsTurn(candidates, quality, turn) && Exhausted(trace, turn)
    ensures GaveUpOn(trace, candidates, quality, turn.place)
  {
    hide Failed;
  }

  lemma PinnedModels(r: Registration, provider: ProviderId, model: Option<ModelId>)
    requires r.id == provider
    ensures WalkthroughModels(r, Pinned(provider, model)) == [] <==>
      forall m :: m in r.models && m.walkthrough ==>
        if model.Some? then m.id != model.value else Some(m.id) != r.walkthroughModel
  {
    var keep :=
      if model.Some? then (m: Model) => m.id == model.value else (m: Model) => Some(m.id) == r.walkthroughModel;
    var ids := ModelIds(r.models, keep);
    forall m | m in r.models && m.walkthrough && keep(m)
      ensures ids != []
    {
      ModelIdsExactly(r.models, keep, m.id);
    }
    if ids != [] {
      ModelIdsExactly(r.models, keep, ids[0]);
    }
  }

  /** A pinned route touches the pinned provider alone and one model of it: it executes that model
      once, and once more only after unusable output. */
  lemma {:induction false} PinnedTouchesOneModel<W>(
    world: World<W>, providers: Providers, provider: ProviderId, model: Option<ModelId>, probe: Probe
  )
    requires forall id :: id in providers ==> providers[id].id == id
    ensures
      var selection := Pinned(provider, model);
      var resolved := ResolveExplicit(providers, provider, Walkthrough, probe);
      var routed := ExecuteRoute(world, resolved, selection);
      if provider !in providers then routed == Outcome(Err(Resolution(Missing)), [])
      else if !providers[provider].walkthrough.implemented then routed == Outcome(Err(Resolution(Unsupported)), [])
      else if probe != Ready then routed == Outcome(Err(Resolution(NotReady(probe))), [])
      else
        && provider in providers
        && var r := providers[provider];
           var models := WalkthroughModels(r, selection);
           // there is none to try exactly if the catalog has no such model that writes walkthroughs
           && (models == [] <==>
                 forall m :: m in r.models && m.walkthrough ==>
                   if model.Some? then m.id != model.value else Some(m.id) != r.walkthroughModel)
           && if models == [] then routed.result == Err(ModelUnavailable(provider, model))
           else
             && (model.Some? ==> models[0] == model.value)
             && (model.None? ==> Some(models[0]) == r.walkthroughModel)
             && (exists m :: m in r.models && m.walkthrough && m.id == models[0])
             && var first := world.execute([], r, models[0]);
                var once := [Tried(Try(0, 0), first)];
                var second := world.execute(once, r, models[0]);
                && routed.trace == (
                     if first.Err? && first.error != Operation then once + [Tried(Retry(0, 0), second)] else once)
                && routed.result == Verdict(routed.trace)
  {
    var selection := Pinned(provider, model);
    var resolved := ResolveExplicit(providers, provider, Walkthrough, probe);
    if resolved.Ok? {
      var r := providers[provider];
      var models := WalkthroughModels(r, selection);
      var turn := TurnsFrom(resolved.value, selection, 0)[0];
      PinnedModels(r, provider, model);
      if models != [] {
        if model.Some? {
          var asked := ModelIds(r.models, (m: Model) => m.id == model.value);
          ModelIdsExactly(r.models, (m: Model) => m.id == model.value, asked[0]);
        } else {
          ModelIdsExactly(r.models, (m: Model) => Some(m.id) == r.walkthroughModel, models[0]);
        }
        CandidateWalks(world, [], turn, 0, []);
        assert ExecuteModel(world, [], turn, 0, false) == ExecuteCandidate(world, [], turn, 0, true);
        var first := world.execute([], r, models[0]);
        assert [] + [Tried(Try(0, 0), first)] == [Tried(Try(0, 0), first)];
      }
    }
  }
}
