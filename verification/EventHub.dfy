/** Hint publication and bounded replay within one process epoch, and the host that polls it.

    A draft stands for everything the caller supplies; what the hub adds is the epoch and the
    sequence number, from which the event id is spelled. */
module EventHub {
  import opened Numbers
  import opened Wrappers

  type Epoch = string

  datatype Hint<+E> = Hint(epoch: Epoch, sequence: nat, draft: E)

  datatype Reason = EpochChanged | FirstConnection | SequenceGap | CursorExpired

  datatype Replay<+E> =
    | Resync(epoch: Epoch, reason: Reason)
    | Events(epoch: Epoch, events: seq<Hint<E>>)

  /** Every hint an epoch has ever published: the drafts, numbered from one. */
  function Hints<E>(epoch: Epoch, drafts: seq<E>): (r: seq<Hint<E>>)
    ensures |r| == |drafts|
    ensures forall i :: 0 <= i < |r| ==> r[i] == Hint(epoch, i + 1, drafts[i])
  {
    seq(|drafts|, i requires 0 <= i < |drafts| => Hint(epoch, i + 1, drafts[i]))
  }

  /** `events.slice(-n)` for positive `n` */
  function Last<T>(events: seq<T>, n: nat): seq<T> {
    events[|events| - Min(n, |events|)..]
  }

  /** `events.filter((event) => event.metadata.sequence > cursor)` */
  function After<E>(events: seq<Hint<E>>, cursor: nat): seq<Hint<E>> {
    if events == [] then []
    else (if events[0].sequence > cursor then [events[0]] else []) + After(events[1..], cursor)
  }

  lemma {:induction false} AfterSplits<E>(epoch: Epoch, drafts: seq<E>, from: nat, cursor: nat)
    requires from <= |drafts|
    ensures After(Hints(epoch, drafts)[from..], cursor)
         == Hints(epoch, drafts)[Min(Max(from, cursor), |drafts|)..]
    decreases |drafts| - from
  {
    var all := Hints(epoch, drafts);
    if from < |drafts| {
      assert all[from..][1..] == all[from + 1..];
      AfterSplits(epoch, drafts, from + 1, cursor);
      if from + 1 > cursor {
        assert all[from..] == [all[from]] + all[from + 1..];
      }
    }
  }

  /** What a reconnecting host is owed, said of the whole history and not of the window kept:
      everything after its cursor, unless the hub no longer keeps all of it. */
  function Owed<E>(
    epoch: Epoch, capacity: nat, drafts: seq<E>, asked: Epoch, cursor: Option<nat>
  ): Replay<E>
  {
    if asked != epoch then Resync(epoch, EpochChanged)
    else if cursor.None? then Resync(epoch, FirstConnection)
    else if cursor.value > |drafts| then Resync(epoch, SequenceGap)
    else if |drafts| - cursor.value > capacity then Resync(epoch, CursorExpired)
    else Events(epoch, Hints(epoch, drafts)[cursor.value..])
  }

  /** The window holds everything after a cursor it does not start behind. */
  lemma WindowAnswers<E>(epoch: Epoch, drafts: seq<E>, capacity: nat, cursor: nat)
    requires |drafts| - capacity <= cursor <= |drafts|
    ensures After(Last(Hints(epoch, drafts), capacity), cursor) == Hints(epoch, drafts)[cursor..]
  {
    hide After;
    AfterSplits(epoch, drafts, |drafts| - Min(capacity, |drafts|), cursor);
  }

  class EventHub<E> {
    const epoch: Epoch
    const capacity: nat
    var sequence: nat
    var retained: seq<Hint<E>>
    // every draft ever published
    ghost var published: seq<E>

    ghost predicate Valid()
      reads this
    {
      && 1 <= capacity <= 256
      && sequence == |published|
      && retained == Last(Hints(epoch, published), capacity)
    }

    constructor (epoch: Epoch, replayCapacity: Option<int>)
      ensures Valid() && published == [] && this.epoch == epoch
      ensures capacity == Max(1, Min(256, if replayCapacity.Some? then replayCapacity.value else 256))
    {
      this.epoch := epoch;
      capacity := Max(1, Min(256, if replayCapacity.Some? then replayCapacity.value else 256));
      sequence := 0;
      retained := [];
      published := [];
    }

    /** The window stays the last `capacity` hints of the history. */
    method Publish(draft: E) returns (hint: Hint<E>)
      requires Valid()
      modifies this
      ensures Valid() && published == old(published) + [draft]
      ensures hint == Hint(epoch, |published|, draft)
    {
      sequence := sequence + 1;
      hint := Hint(epoch, sequence, draft);
      ghost var before := Hints(epoch, published);
      published := published + [draft];
      assert Hints(epoch, published) == before + [hint];
      retained := Last(retained + [hint], capacity);
    }

    /** Answers from the window what the whole history owes. */
    method Replay(asked: Epoch, cursor: Option<nat>) returns (result: Replay<E>)
      requires Valid()
      ensures result == Owed(epoch, capacity, published, asked, cursor)
      // in so many words: which requests cannot be served, and what the others get
      ensures result.epoch == epoch
      ensures result.Resync? ==>
        match result.reason
        case EpochChanged => asked != epoch
        case FirstConnection => asked == epoch && cursor == None
        case SequenceGap => asked == epoch && cursor.Some? && |published| < cursor.value
        case CursorExpired => asked == epoch && cursor.Some? && cursor.value + capacity < |published|
      ensures result.Events? ==>
        && asked == epoch && cursor.Some? && cursor.value <= |published| <= cursor.value + capacity
        && |result.events| == |published| - cursor.value
        && forall i :: 0 <= i < |result.events| ==>
             result.events[i] == Hint(epoch, cursor.value + i + 1, published[cursor.value + i])
    {
      hide After;
      if asked != epoch {
        return Resync(epoch, EpochChanged);
      }
      if cursor.None? {
        return Resync(epoch, FirstConnection);
      }
      if cursor.value > sequence {
        return Resync(epoch, SequenceGap);
      }
      if retained != [] && cursor.value < retained[0].sequence - 1 {
        return Resync(epoch, CursorExpired);
      }
      WindowAnswers(epoch, published, capacity, cursor.value);
      return Events(epoch, After(retained, cursor.value));
    }
  }
}

/** The desktop host that polls the hub, keeping a cursor of what it has read.

    Polls are chained, so no two overlap. */
module EventHost {
  import opened Wrappers
  import opened EventHub

  datatype Cursor = Cursor(epoch: Epoch, sequence: nat)

  /** Where the host stands in an epoch: a cursor of another epoch counts as nothing read. */
  function Position(cursor: Option<Cursor>, epoch: Epoch): nat {
    if cursor.Some? && cursor.value.epoch == epoch then cursor.value.sequence else 0
  }

  function Advanced<E>(position: nat, replay: Replay<E>): Cursor {
    match replay
    case Resync(epoch, _) => Cursor(epoch, 0)
    case Events(epoch, events) =>
      Cursor(epoch, if events == [] then position else events[|events| - 1].sequence)
  }

  function Delivered<E>(replay: Replay<E>): seq<Hint<E>> {
    if replay.Events? then replay.events else []
  }

  class Host {
    var eventCursor: Option<Cursor>

    constructor ()
      ensures eventCursor == None
    {
      eventCursor := None;
    }

    method Poll<E>(hub: EventHub<E>, session: Epoch) returns (hints: seq<Hint<E>>)
      requires hub.Valid()
      modifies this
      ensures
        var position := Position(old(eventCursor), session);
        var owed := Owed(hub.epoch, hub.capacity, hub.published, session, Some(position));
        eventCursor == Some(Advanced(position, owed)) && hints == Delivered(owed)
      // in so many words: everything after the cursor, or nothing, and then from the start again
      ensures
        var from := if old(eventCursor).Some? && old(eventCursor).value.epoch == session
                    then old(eventCursor).value.sequence else 0;
        if session == hub.epoch && from <= |hub.published| <= from + hub.capacity then
          && eventCursor == Some(Cursor(hub.epoch, |hub.published|))
          && |hints| == |hub.published| - from
          && forall i :: 0 <= i < |hints| ==> hints[i] == Hint(hub.epoch, from + i + 1, hub.published[from + i])
        else eventCursor == Some(Cursor(hub.epoch, 0)) && hints == []
    {
      var cursor := Cursor(session, Position(eventCursor, session));
      var replay := hub.Replay(session, Some(cursor.sequence));
      if replay.Resync? {
        eventCursor := Some(Cursor(replay.epoch, 0));
        return [];
      }
      var latest := if replay.events == [] then cursor.sequence else replay.events[|replay.events| - 1].sequence;
      eventCursor := Some(Cursor(replay.epoch, latest));
      return replay.events;
    }
  }

  /* Runs of one epoch: the hub publishes, the host polls, in any order. */

  datatype System<E> = System(
    epoch: Epoch, capacity: nat, published: seq<E>, cursor: Option<Cursor>, seen: seq<Hint<E>>)

  datatype Event<+E> = Publish(draft: E) | Poll

  /** Nothing published and nothing read yet; the host may still hold a cursor of an older epoch. */
  ghost predicate Initial<E>(s: System<E>) {
    && s.capacity >= 1 && s.published == [] && s.seen == []
    && (s.cursor.Some? ==> s.cursor.value.epoch != s.epoch)
  }

  function Step<E>(s: System<E>, event: Event<E>): System<E> {
    match event
    case Publish(draft) => s.(published := s.published + [draft])
    case Poll =>
      var position := Position(s.cursor, s.epoch);
      var owed := Owed(s.epoch, s.capacity, s.published, s.epoch, Some(position));
      s.(cursor := Some(Advanced(position, owed)), seen := s.seen + Delivered(owed))
  }

  function Execute<E>(s: System<E>, events: seq<Event<E>>): System<E>
    decreases |events|
  {
    if events == [] then s else Execute(Step(s, events[0]), events[1..])
  }

  function Unread<E>(s: System<E>): int {
    |s.published| - |s.seen|
  }

  /** What the host has read is a prefix of what was published, and its cursor says how far it is
      unless the hub has already dropped something it had not read. */
  ghost predicate InOrder<E>(s: System<E>) {
    && s.capacity >= 1 && |s.seen| <= |s.published|
    && s.seen == Hints(s.epoch, s.published)[..|s.seen|]
    && (Position(s.cursor, s.epoch) != |s.seen| ==>
          Position(s.cursor, s.epoch) == 0 && Unread(s) > s.capacity)
  }

  /** The polls are frequent enough: never more than `capacity` publications between two of them,
      counting `unread` from before. */
  predicate Punctual<E>(capacity: nat, unread: int, events: seq<Event<E>>)
    decreases |events|
  {
    unread <= capacity &&
    (events != [] ==> Punctual(capacity, if events[0].Poll? then 0 else unread + 1, events[1..]))
  }

  lemma StepKeepsOrder<E>(s: System<E>, event: Event<E>)
    requires InOrder(s)
    ensures InOrder(Step(s, event))
    ensures event.Publish? ==> Unread(Step(s, event)) == Unread(s) + 1
    ensures event.Poll? ==> Unread(Step(s, event)) == if Unread(s) > s.capacity then Unread(s) else 0
  {
    var t := Step(s, event);
    var all := Hints(t.epoch, t.published);
    if event.Publish? {
      assert all[..|s.published|] == Hints(s.epoch, s.published);
      assert all[..|s.seen|] == all[..|s.published|][..|s.seen|];
    } else if Position(s.cursor, s.epoch) == |s.seen| {
      assert all[..|s.seen|] + all[|s.seen|..] == all;
      assert all[..|all|] == all;
    }
  }

  /** However publications and polls interleave, what the host has read of an epoch is a prefix of
      what was published: no hint twice, none skipped, none out of order. */
  lemma {:induction false} ReadInOrder<E>(s: System<E>, events: seq<Event<E>>)
    requires InOrder(s)
    ensures InOrder(Execute(s, events))
    decreases |events|
  {
    if events != [] {
      StepKeepsOrder(s, events[0]);
      ReadInOrder(Step(s, events[0]), events[1..]);
    }
  }

  /** A host with more unread hints than the hub keeps never reads another hint of that epoch: the
      resync it is told to make puts its cursor back to zero, which the hub can no longer serve. */
  lemma {:induction false} BehindForever<E>(s: System<E>, events: seq<Event<E>>)
    requires InOrder(s) && Unread(s) > s.capacity
    ensures Unread(Execute(s, events)) > s.capacity && Execute(s, events).seen == s.seen
    decreases |events|
  {
    if events != [] {
      StepKeepsOrder(s, events[0]);
      BehindForever(Step(s, events[0]), events[1..]);
    }
  }

  lemma {:induction false} CatchesUpFrom<E>(s: System<E>, events: seq<Event<E>>)
    requires InOrder(s)
    ensures Unread(Execute(s, events + [Poll])) == 0 <==> Punctual(s.capacity, Unread(s), events)
    decreases |events|
  {
    hide Owed, Hints;
    var polled := events + [Poll];
    var t := Step(s, polled[0]);
    StepKeepsOrder(s, polled[0]);
    if Unread(s) > s.capacity {
      BehindForever(s, polled);
    } else if events == [] {
      assert Execute(t, polled[1..]) == t;
    } else {
      assert polled[1..] == events[1..] + [Poll];
      CatchesUpFrom(t, events[1..]);
    }
  }

  /** A poll at the end of a run of an epoch leaves the host with everything that was published if
      and only if the run never published more than `capacity` hints between two polls. */
  lemma CatchesUpExactly<E>(s: System<E>, events: seq<Event<E>>)
    requires Initial(s)
    ensures
      var end := Execute(s, events + [Poll]);
      end.seen == Hints(end.epoch, end.published) <==> Punctual(s.capacity, 0, events)
  {
    var end := Execute(s, events + [Poll]);
    CatchesUpFrom(s, events);
    ReadInOrder(s, events + [Poll]);
    var all := Hints(end.epoch, end.published);
    assert all[..|all|] == all;
  }
}
