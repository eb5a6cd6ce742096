/** Keeping the browser's path and the application's location in step, while loads of a path resolve
    in any order.

    The log is what the outside sees, in order. A load is the value of one promise, so it resolves at
    most once; navigating is synchronous, and while it lasts the application may publish locations,
    start loads and end the subscription. */
module CloudNavigation {
  import opened Wrappers
  import opened ReviewRoute
  import opened PercentEncoding
  import opened Numbers

  /* Locations and their paths */

  datatype Selection =
    | NoSelection
    | Hosted(number: nat, view: Option<View>)
    | Comparison(baseRef: string, headRef: string)
    | OtherSelection

  datatype Locator = Locator(provider: string, namespace: string, name: string)

  datatype Location = Global | Review(hosted: Option<Locator>, selection: Selection)

  function RouteOf(location: Location): Option<Route> {
    match location
    case Global => Some(Home)
    case Review(None, _) => None
    case Review(Some(locator), selection) =>
      if locator.provider != "github" then None
      else
        match selection
        case NoSelection => Some(Repository(locator.namespace, locator.name))
        case Hosted(number, view) =>
          Some(Pull(locator.namespace, locator.name, number, if view.Some? then view.value else Overview))
        case Comparison(base, head) => Some(Compare(locator.namespace, locator.name, base, head))
        case OtherSelection => None
  }

  function PathOf(location: Location): Option<string> {
    var route := RouteOf(location);
    if route.Some? then Some(Format(route.value)) else None
  }

  /** A published path opens the route of the location it was published for, and two locations share
      a path only if they share a route. */
  lemma PublishedPathsReopen(location: Location, other: Location)
    requires RouteOf(location).Some? && Valid(RouteOf(location).value) && Nameable(RouteOf(location).value)
    ensures Parse(PathOf(location).value) == Ok(RouteOf(location).value)
    ensures RouteOf(other).Some? && Valid(RouteOf(other).value) && PathOf(other) == PathOf(location) ==>
      RouteOf(other) == RouteOf(location)
  {
    hide Valid, Format, Parse, Nameable;
    RoundTripsExactly(RouteOf(location).value);
    if RouteOf(other).Some? && Valid(RouteOf(other).value) {
      RoundTripsExactly(RouteOf(other).value);
    }
  }

  /** The address shown for a location, written out: home, and what is on GitHub; nothing else has one. */
  lemma PathExactly(location: Location)
    ensures
      var path := PathOf(location);
      match location
      case Global => path == Some("/")
      case Review(None, _) => path == None
      case Review(Some(Locator(provider, namespace, name)), selection) =>
        var prefix := "/" + Encode(namespace) + "/" + Encode(name);
        if provider != "github" then path == None
        else
          match selection
          case NoSelection => path == Some(prefix + "/pulls")
          case Hosted(number, view) =>
            exists digits :: Spells(digits, number)
              && path == Some(prefix + "/pull/" + digits + if view == Some(Files) then "/files" else "")
          case Comparison(base, head) => path == Some(prefix + "/compare/" + Encode(base) + "..." + Encode(head))
          case OtherSelection => path == None
  {
    hide Format, Encode;
    if RouteOf(location).Some? {
      FormatExactly(RouteOf(location).value);
    }
  }

  /* The log */

  datatype Entry =
    | Loading(request: nat)
    | Navigated(request: nat, location: Location)
    | Shown(request: nat, path: Option<string>)
    | Failed(request: nat)
    | Pushed(location: Location)
    | Unsubscribed

  type Log = seq<Entry>

  /** The most recently started load, unless the subscription has ended since. */
  function Newest(log: Log): Option<nat> {
    if log == [] then None
    else
      match log[|log| - 1]
      case Loading(request) => Some(request)
      case Unsubscribed => None
      case _ => Newest(log[..|log| - 1])
  }

  /** Whether a load has been shown and none was started since. */
  function IsReady(log: Log): bool {
    if log == [] then false
    else
      match log[|log| - 1]
      case Loading(_) => false
      case Shown(_, _) => true
      case _ => IsReady(log[..|log| - 1])
  }

  /** The path last shown or pushed. */
  function LastPath(log: Log): Option<string> {
    if log == [] then None
    else
      match log[|log| - 1]
      case Shown(_, path) => path
      case Pushed(location) => PathOf(location)
      case _ => LastPath(log[..|log| - 1])
  }

  /** The loads that have ended in a status. */
  function Reported(log: Log): set<nat> {
    if log == [] then {}
    else
      match log[|log| - 1]
      case Shown(request, _) => Reported(log[..|log| - 1]) + {request}
      case Failed(request) => Reported(log[..|log| - 1]) + {request}
      case _ => Reported(log[..|log| - 1])
  }

  function Started(log: Log): set<nat> {
    if log == [] then {}
    else
      match log[|log| - 1]
      case Loading(request) => Started(log[..|log| - 1]) + {request}
      case _ => Started(log[..|log| - 1])
  }

  /** A load starts, or the subscription ends. */
  predicate Supersedes(entry: Entry) {
    entry.Loading? || entry.Unsubscribed?
  }

  datatype Application = Application(request: nat, path: Option<string>)

  /** The load whose location was just applied, with nothing but newer loads and the end of the
      subscription since. */
  function Applied(log: Log): Option<Application> {
    if log == [] then None
    else
      match log[|log| - 1]
      case Navigated(request, location) => Some(Application(request, PathOf(location)))
      case Loading(_) => Applied(log[..|log| - 1])
      case Unsubscribed => Applied(log[..|log| - 1])
      case _ => None
  }

  ghost predicate Allowed(before: Log, entry: Entry) {
    match entry
    case Navigated(request, _) => Newest(before) == Some(request) && request !in Reported(before)
    case Shown(request, path) => Applied(before) == Some(Application(request, path)) && request !in Reported(before)
    case Failed(request) => Newest(before) == Some(request) && request !in Reported(before)
    case Pushed(location) => IsReady(before) && PathOf(location).Some? && PathOf(location) != LastPath(before)
    case Loading(request) => request !in Started(before)
    case Unsubscribed => true
  }

  /** Only the newest load navigates or fails; what is shown is what was navigated to just before;
      every load reports once at most; and a push comes only when a location is shown and its path is
      not the one last recorded. */
  ghost predicate Orderly(log: Log) {
    forall i :: 0 <= i < |log| ==> Allowed(log[..i], log[i])
  }

  lemma OneMore(log: Log, entry: Entry)
    requires Orderly(log) && Allowed(log, entry)
    ensures Orderly(log + [entry])
    ensures Newest(log + [entry]) ==
      if entry.Loading? then Some(entry.request) else if entry.Unsubscribed? then None else Newest(log)
    ensures IsReady(log + [entry]) ==
      (entry.Shown? || (IsReady(log) && !entry.Loading?))
    ensures Reported(log + [entry]) ==
      if entry.Shown? || entry.Failed? then Reported(log) + {entry.request} else Reported(log)
    ensures Started(log + [entry]) == if entry.Loading? then Started(log) + {entry.request} else Started(log)
    ensures Applied(log + [entry]) ==
      if entry.Navigated? then Some(Application(entry.request, PathOf(entry.location)))
      else if Supersedes(entry) then Applied(log) else None
    ensures LastPath(log + [entry]) ==
      if entry.Shown? then entry.path else if entry.Pushed? then PathOf(entry.location) else LastPath(log)
  {
    hide PathOf, Allowed;
    var more := log + [entry];
    assert more[..|log|] == log;
    assert forall i :: 0 <= i < |log| ==> more[..i] == log[..i];
  }

  /** The load of an entry was started, and nothing has superseded it up to there. */
  ghost predicate IsNewest(log: Log, request: nat, until: nat)
    requires until <= |log|
  {
    exists start :: 0 <= start < until && log[start] == Loading(request)
      && forall k :: start < k < until ==> !Supersedes(log[k])
  }

  lemma {:induction false} NewestStarted(log: Log) returns (start: nat)
    requires Newest(log).Some?
    ensures start < |log| && log[start] == Loading(Newest(log).value)
    ensures forall k :: start < k < |log| ==> !Supersedes(log[k])
  {
    var last := |log| - 1;
    if log[last].Loading? {
      start := last;
    } else {
      start := NewestStarted(log[..last]);
    }
  }

  lemma NewestIs(log: Log, request: nat, until: nat)
    requires until <= |log| && Newest(log[..until]) == Some(request)
    ensures IsNewest(log, request, until)
  {
    var start := NewestStarted(log[..until]);
    assert log[start] == Loading(request);
    assert forall k :: start < k < until ==> log[..until][k] == log[k];
  }

  lemma {:induction false} AppliedFrom(log: Log) returns (n: nat)
    requires Applied(log).Some?
    ensures n < |log| && log[n].Navigated? && Applied(log).value == Application(log[n].request, PathOf(log[n].location))
    ensures forall k :: n < k < |log| ==> Supersedes(log[k])
  {
    hide PathOf;
    var last := |log| - 1;
    if log[last].Navigated? {
      n := last;
    } else {
      n := AppliedFrom(log[..last]);
    }
  }

  lemma {:induction false} StartedExactly(log: Log, request: nat)
    ensures request in Started(log) <==> Loading(request) in log
  {
    if log != [] {
      assert log == log[..|log| - 1] + [log[|log| - 1]];
      StartedExactly(log[..|log| - 1], request);
    }
  }

  lemma StartsOnce(log: Log, first: nat, second: nat)
    requires Orderly(log) && first < second < |log| && log[first].Loading? && log[second].Loading?
    ensures log[first].request != log[second].request
  {
    hide Applied, PathOf, Newest, Reported;
    assert Allowed(log[..second], log[second]);
    assert log[..second][first] == log[first];
    StartedExactly(log[..second], log[first].request);
  }

  /** The navigation that a load is reported shown for: the load was the newest then. */
  ghost predicate ShowsAfter(log: Log, n: nat, i: nat)
    requires n < i < |log| && log[i].Shown?
  {
    && log[n].Navigated? && log[n].request == log[i].request && log[i].path == PathOf(log[n].location)
    && IsNewest(log, log[n].request, n)
    && forall k :: n < k < i ==> Supersedes(log[k])
  }

  /** Whatever load navigates or fails was the newest, with the subscription still on: later loads
      always win, in whatever order they resolve. A load that is shown navigated just before to the
      location with that path; it is still the newest if and only if nothing superseded it while the
      application was navigating, which is when it comes directly after. */
  lemma LatestWins(log: Log, i: nat)
    requires Orderly(log) && i < |log| && (log[i].Navigated? || log[i].Shown? || log[i].Failed?)
    ensures !log[i].Shown? ==> IsNewest(log, log[i].request, i)
    ensures log[i].Shown? ==>
      && i > 0 && (IsNewest(log, log[i].request, i) <==> log[i - 1].Navigated?)
      && exists n: nat :: n < i && ShowsAfter(log, n, i)
  {
    hide PathOf, IsNewest, Newest, Reported, Applied, ShowsAfter;
    assert Allowed(log[..i], log[i]);
    if log[i].Shown? {
      var n := ShownAfter(log, i);
      StillNewest(log, n, i);
    } else {
      NewestIs(log, log[i].request, i);
    }
  }

  lemma ShownAfter(log: Log, i: nat) returns (n: nat)
    requires Orderly(log) && i < |log| && log[i].Shown?
    ensures n < i && ShowsAfter(log, n, i)
  {
    hide PathOf, IsNewest, Newest, Reported, Applied;
    assert Allowed(log[..i], log[i]);
    n := AppliedFrom(log[..i]);
    assert forall k :: n <= k < i ==> log[..i][k] == log[k];
    assert log[..i][..n] == log[..n] && Allowed(log[..n], log[n]);
    NewestIs(log, log[n].request, n);
  }

  lemma StillNewest(log: Log, n: nat, i: nat)
    requires Orderly(log) && n < i < |log| && log[i].Shown? && ShowsAfter(log, n, i)
    ensures IsNewest(log, log[i].request, i) <==> log[i - 1].Navigated?
  {
    hide PathOf, Orderly;
    var request := log[i].request;
    var start :| 0 <= start < n && log[start] == Loading(request) && forall k :: start < k < n ==> !Supersedes(log[k]);
    if log[i - 1].Navigated? {
      assert n == i - 1;
      assert forall k :: start < k < i ==> !Supersedes(log[k]);
    } else if IsNewest(log, request, i) {
      var again :| 0 <= again < i && log[again] == Loading(request)
        && forall k :: again < k < i ==> !Supersedes(log[k]);
      assert Supersedes(log[i - 1]);
      StartsOnce(log, start, again);
    }
  }

  /* What the application does while it is being navigated */

  datatype Action = Publishing(location: Location) | Restarting | Unsubscribing

  /** How often the generation moves on. */
  function Moves(actions: seq<Action>): nat {
    if actions == [] then 0
    else Moves(actions[..|actions| - 1]) + (if actions[|actions| - 1].Publishing? then 0 else 1)
  }

  /** What the outside sees of them: what is published meanwhile goes nowhere. */
  function Effects(generation: nat, actions: seq<Action>): (log: Log)
    ensures |log| == Moves(actions) && forall k :: 0 <= k < |log| ==> Supersedes(log[k])
  {
    if actions == [] then []
    else
      var before := actions[..|actions| - 1];
      Effects(generation, before) +
      match actions[|actions| - 1]
      case Publishing(_) => []
      case Restarting => [Loading(generation + Moves(before) + 1)]
      case Unsubscribing => [Unsubscribed]
  }

  /** What the outside sees of a load that resolves, given what it has seen. */
  function Resolved(log: Log, request: nat, location: Option<Location>, accepted: bool, during: seq<Action>): Log {
    if Newest(log) != Some(request) then []
    else if location.None? then [Failed(request)]
    else
      [Navigated(request, location.value)] + Effects(request, during)
      + if accepted then [Shown(request, PathOf(location.value))]
        else if Moves(during) == 0 then [Failed(request)] else []
  }

  /** An application that ends the subscription while it is being navigated is told, after the end,
      that the location is shown. */
  lemma ShownAfterTheEnd(location: Location)
    ensures
      var started := [Loading(1)];
      var log := started + Resolved(started, 1, Some(location), true, [Unsubscribing]);
      Orderly(log) && log[2] == Unsubscribed && log[3] == Shown(1, PathOf(location)) && !IsNewest(log, 1, 3)
  {
    hide PathOf;
    var started := [Loading(1)];
    assert Effects(1, [Unsubscribing]) == [Unsubscribed];
    OneMore([], Loading(1));
    assert [] + [Loading(1)] == started;
    OneMore(started, Navigated(1, location));
    OneMore(started + [Navigated(1, location)], Unsubscribed);
    OneMore(started + [Navigated(1, location)] + [Unsubscribed], Shown(1, PathOf(location)));
    assert started + Resolved(started, 1, Some(location), true, [Unsubscribing])
        == started + [Navigated(1, location)] + [Unsubscribed] + [Shown(1, PathOf(location))];
    LatestWins(started + [Navigated(1, location)] + [Unsubscribed] + [Shown(1, PathOf(location))], 3);
  }

  /** How the fields stand to what the outside has seen. */
  datatype Fields = Fields(
    generation: nat, ready: bool, lastLocationPath: Option<string>, subscribed: bool, resolved: set<nat>)

  predicate Pending(log: Log, f: Fields, request: nat) {
    request in Started(log) && request !in f.resolved
  }

  ghost predicate Sound(log: Log, f: Fields) {
    && Orderly(log)
    && Reported(log) <= f.resolved <= Started(log)
    && (forall request :: request in Reported(log) ==> request <= f.generation)
    && (forall request :: request in Started(log) ==> request <= f.generation)
    && f.ready == IsReady(log)
    && f.lastLocationPath == LastPath(log)
    && Newest(log) == (if f.subscribed then Some(f.generation) else None)
    && (Pending(log, f, f.generation) ==> f.subscribed)
  }

  lemma SoundLoading(log: Log, f: Fields)
    requires Sound(log, f)
    ensures
      var request := f.generation + 1;
      Sound(log + [Loading(request)], f.(generation := request, ready := false, subscribed := true))
    ensures Applied(log + [Loading(f.generation + 1)]) == Applied(log)
    ensures Started(log + [Loading(f.generation + 1)]) == Started(log) + {f.generation + 1}
    ensures f.generation + 1 !in Started(log)
  {
    hide PathOf, Applied;
    OneMore(log, Loading(f.generation + 1));
  }

  lemma SoundUnsubscribed(log: Log, f: Fields)
    requires Sound(log, f)
    ensures Sound(log + [Unsubscribed], f.(generation := f.generation + 1, subscribed := false))
    ensures Applied(log + [Unsubscribed]) == Applied(log) && Started(log + [Unsubscribed]) == Started(log)
  {
    hide PathOf, Applied;
    OneMore(log, Unsubscribed);
  }

  lemma SoundPushed(log: Log, f: Fields, location: Location)
    requires Sound(log, f) && f.ready && PathOf(location).Some? && PathOf(location) != f.lastLocationPath
    ensures Sound(log + [Pushed(location)], f.(lastLocationPath := PathOf(location)))
    ensures Started(log + [Pushed(location)]) == Started(log)
  {
    hide PathOf;
    OneMore(log, Pushed(location));
  }

  lemma SoundNavigated(log: Log, f: Fields, location: Location)
    requires Sound(log, f) && Pending(log, f, f.generation)
    ensures Sound(log + [Navigated(f.generation, location)], f)
    ensures Applied(log + [Navigated(f.generation, location)]) == Some(Application(f.generation, PathOf(location)))
    ensures Started(log + [Navigated(f.generation, location)]) == Started(log)
  {
    hide PathOf, Applied;
    OneMore(log, Navigated(f.generation, location));
  }

  lemma SoundFailed(log: Log, f: Fields)
    requires Sound(log, f) && Pending(log, f, f.generation)
    ensures Sound(log + [Failed(f.generation)], f.(resolved := f.resolved + {f.generation}))
    ensures Started(log + [Failed(f.generation)]) == Started(log)
  {
    hide PathOf, Applied;
    OneMore(log, Failed(f.generation));
  }

  lemma SoundShown(log: Log, f: Fields, request: nat, path: Option<string>)
    requires Sound(log, f) && Pending(log, f, request) && Applied(log) == Some(Application(request, path))
    ensures Sound(log + [Shown(request, path)], f.(
      ready := true, lastLocationPath := path, resolved := f.resolved + {request}))
    ensures Started(log + [Shown(request, path)]) == Started(log)
  {
    hide PathOf, Applied;
    OneMore(log, Shown(request, path));
  }

  lemma SoundStale(log: Log, f: Fields, request: nat)
    requires Sound(log, f) && Pending(log, f, request)
    ensures Sound(log, f.(resolved := f.resolved + {request}))
    ensures Newest(log) == Some(request) <==> request == f.generation
  {
  }

  class Navigation {
    var generation: nat
    var applying: bool
    var ready: bool
    var lastLocationPath: Option<string>

    // what the outside has seen, whether someone subscribes, and the loads that have resolved
    ghost var log: Log
    ghost var subscribed: bool
    ghost var resolved: set<nat>

    ghost function Contents(): Fields
      reads this
    {
      Fields(generation, ready, lastLocationPath, subscribed, resolved)
    }

    ghost predicate Valid()
      reads this
    {
      Sound(log, Contents())
    }

    constructor ()
      ensures Valid() && !applying && log == [] && !subscribed && resolved == {} && lastLocationPath == None
    {
      generation := 0;
      applying := false;
      ready := false;
      lastLocationPath := None;
      log := [];
      subscribed := false;
      resolved := {};
    }

    /** Starts a load: on subscribing, and whenever the browser moves through its history. */
    method Load() returns (request: nat)
      requires Valid()
      modifies this
      ensures Valid() && subscribed && resolved == old(resolved)
      ensures log == old(log) + [Loading(request)] && applying == old(applying)
      ensures generation == request == old(generation) + 1 && Applied(log) == Applied(old(log))
      ensures Started(log) == Started(old(log)) + {request} && request !in Started(old(log))
    {
      hide Sound, Applied, Started;
      SoundLoading(log, Contents());
      generation := generation + 1;
      request := generation;
      ready := false;
      log := log + [Loading(request)];
      subscribed := true;
    }

    /** A load resolves to a location, or not at all; `accepted` is whether the application navigates
        there, and `during` what it does meanwhile. */
    method Resolve(request: nat, location: Option<Location>, accepted: bool, during: seq<Action>)
      requires Valid() && !applying && Pending(log, Contents(), request)
      modifies this
      ensures Valid() && !applying && resolved == old(resolved) + {request}
      ensures log == old(log) + Resolved(old(log), request, location, accepted, during)
    {
      hide Sound, Pending, PathOf, Newest, Applied, Effects, Started;
      SoundStale(log, Contents(), request);
      if request != generation {
        resolved := resolved + {request};
        return;
      }
      if location.Some? {
        Navigate(location.value, during);
        if accepted {
          Show(request, PathOf(location.value));
          return;
        }
      }
      Reject(request);
    }

    /** The load failed, or the application did not take its location: that is reported unless
        another load was started or the subscription ended meanwhile. */
    method Reject(request: nat)
      requires Valid() && Pending(log, Contents(), request)
      modifies this
      ensures Valid() && resolved == old(resolved) + {request} && applying == old(applying)
      ensures log == old(log) + if request == generation then [Failed(request)] else []
      ensures generation == old(generation)
    {
      hide Sound, Newest;
      SoundStale(log, Contents(), request);
      if request == generation {
        SoundFailed(log, Contents());
        log := log + [Failed(request)];
      }
      resolved := resolved + {request};
    }

    /** Whatever happened meanwhile, the location taken by the application is reported as shown. */
    method Show(request: nat, path: Option<string>)
      requires Valid() && Pending(log, Contents(), request) && Applied(log) == Some(Application(request, path))
      modifies this
      ensures Valid() && resolved == old(resolved) + {request} && applying == old(applying)
      ensures log == old(log) + [Shown(request, path)]
    {
      hide Sound, Applied;
      SoundShown(log, Contents(), request, path);
      lastLocationPath := path;
      ready := true;
      log := log + [Shown(request, path)];
      resolved := resolved + {request};
    }

    /** Hands a location to the application, which acts before it returns. */
    method Navigate(location: Location, during: seq<Action>)
      requires Valid() && !applying && Pending(log, Contents(), generation)
      modifies this
      ensures Valid() && !applying && generation == old(generation) + Moves(during)
      ensures log == old(log) + [Navigated(old(generation), location)] + Effects(old(generation), during)
      ensures Pending(log, Contents(), old(generation)) && resolved == old(resolved)
      ensures Applied(log) == Some(Application(old(generation), PathOf(location)))
    {
      hide Sound, PathOf, Applied, Effects, Started;
      SoundNavigated(log, Contents(), location);
      applying := true;
      log := log + [Navigated(generation, location)];
      Perform(during);
      applying := false;
    }

    /** What the application does while a location is being applied. */
    method Perform(actions: seq<Action>)
      requires Valid() && applying
      modifies this
      ensures Valid() && applying && log == old(log) + Effects(old(generation), actions)
      ensures generation == old(generation) + Moves(actions)
      ensures Started(old(log)) <= Started(log) && resolved == old(resolved)
      ensures Applied(log) == Applied(old(log))
    {
      hide Sound, Applied, Started;
      for i := 0 to |actions|
        invariant Valid() && applying && log == old(log) + Effects(old(generation), actions[..i])
        invariant generation == old(generation) + Moves(actions[..i])
        invariant Started(old(log)) <= Started(log) && resolved == old(resolved)
        invariant Applied(log) == Applied(old(log))
      {
        assert actions[..i + 1][..i] == actions[..i];
        ghost var before := log;
        match actions[i] {
          case Publishing(location) =>
            Publish(location);
            assert log == before;
          case Restarting => var request := Load();
          case Unsubscribing => Unsubscribe();
        }
      }
      assert actions[..|actions|] == actions;
    }

    method Publish(location: Location)
      requires Valid()
      modifies this
      ensures Valid() && applying == old(applying) && resolved == old(resolved) && subscribed == old(subscribed)
      ensures generation == old(generation)
      ensures log == old(log) +
        if !applying && IsReady(old(log)) && PathOf(location).Some? && PathOf(location) != LastPath(old(log))
        then [Pushed(location)] else []
    {
      hide Orderly, Reported, LastPath, PathOf, Newest, Started;
      if applying || !ready {
        return;
      }
      var path := PathOf(location);
      if path.None? || path == lastLocationPath {
        return;
      }
      SoundPushed(log, Contents(), location);
      lastLocationPath := path;
      log := log + [Pushed(location)];
    }

    /** Ending the subscription starts no load, and no load that is pending will navigate. */
    method Unsubscribe()
      requires Valid()
      modifies this
      ensures Valid() && !subscribed && resolved == old(resolved)
      ensures log == old(log) + [Unsubscribed] && applying == old(applying)
      ensures generation == old(generation) + 1
      ensures Applied(log) == Applied(old(log)) && Started(log) == Started(old(log))
    {
      hide Sound, Applied, Started;
      SoundUnsubscribed(log, Contents());
      generation := generation + 1;
      subscribed := false;
      log := log + [Unsubscribed];
    }
  }
}
