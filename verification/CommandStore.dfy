/** The durable command store: acceptance once, one terminal transition under a version guard, then
    acknowledgement. Every operation is one transaction; timestamps are not modelled. */
module CommandStore {
  import opened Wrappers

  type CommandId = string

  datatype CommandState = Accepted | Committed | Failed | Acknowledged

  datatype Command = Command(
    commandId: CommandId, processEpoch: string, metadata: string, state: CommandState, stateVersion: nat)

  datatype Acceptance = Acceptance(commandId: CommandId, processEpoch: string, metadata: string)

  type Store = map<CommandId, Command>

  datatype Transition = Transition(won: bool, command: Command)

  predicate IsTerminal(state: CommandState) {
    state.Committed? || state.Failed?
  }

  predicate SameAcceptance(command: Command, input: Acceptance) {
    command.processEpoch == input.processEpoch && command.metadata == input.metadata
  }

  /** `acceptOrGet`: none when the id was used with other metadata. */
  function AcceptOrGet(store: Store, input: Acceptance): (r: (Option<Command>, Store))
    ensures input.commandId in r.1 && r.1 - {input.commandId} == store - {input.commandId}
    // an id is accepted once; later it answers with what is stored, or conflicts
    ensures r.0.Some? ==> r.0.value == r.1[input.commandId]
    ensures r.0.None? <==>
      && input.commandId in store
      && (store[input.commandId].processEpoch, store[input.commandId].metadata) != (input.processEpoch, input.metadata)
    ensures input.commandId in store ==> r.1 == store
    ensures input.commandId !in store ==> r.1[input.commandId].state == Accepted
  {
    if input.commandId in store then
      (if SameAcceptance(store[input.commandId], input) then Some(store[input.commandId]) else None, store)
    else
      var command := Command(input.commandId, input.processEpoch, input.metadata, Accepted, 1);
      (Some(command), store[input.commandId := command])
  }

  /** `commit` and `fail`: won exactly when this call moved the command out of Accepted. */
  function Terminate(store: Store, target: CommandState, id: CommandId, expectedVersion: nat): (Transition, Store)
    requires id in store
  {
    var current := store[id];
    if !current.state.Accepted? || current.stateVersion != expectedVersion then (Transition(false, current), store)
    else
      var next := current.(state := target, stateVersion := current.stateVersion + 1);
      (Transition(true, next), store[id := next])
  }

  function Acknowledge(store: Store, id: CommandId, expectedVersion: nat): (r: Store)
    ensures r.Keys == store.Keys && r - {id} == store - {id}
    // only an outcome can be acknowledged, and only by its own version
    ensures id in store ==>
      (r[id] != store[id] <==>
         (store[id].state == Committed || store[id].state == Failed) && store[id].stateVersion == expectedVersion)
    ensures id in store && r[id] != store[id] ==> r[id].state == Acknowledged
  {
    if id in store && IsTerminal(store[id].state) && store[id].stateVersion == expectedVersion
    then store[id := store[id].(state := Acknowledged, stateVersion := store[id].stateVersion + 1)]
    else store
  }

  /** The accepted commands, as they are once recovery has failed them. */
  function Recovered(store: Store): map<CommandId, Command> {
    map id | id in store && store[id].state.Accepted? ::
      store[id].(state := Failed, stateVersion := store[id].stateVersion + 1)
  }

  function RecoverAcceptedAsFailed(store: Store): Store {
    store + Recovered(store)
  }

  /** What no store operation undoes: acceptance data stay, versions grow, and the outcome of a
      terminal command changes only into its acknowledgement. */
  predicate RowExtends(before: Store, after: Store, id: CommandId) {
    id in before ==>
      && id in after
      && after[id].processEpoch == before[id].processEpoch && after[id].metadata == before[id].metadata
      && before[id].stateVersion <= after[id].stateVersion
      && (before[id].stateVersion == after[id].stateVersion ==> after[id] == before[id])
  }
}
