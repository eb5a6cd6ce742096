/** Registering agent providers, and the order in which automatic routing tries them. */
module ProviderRegistry {
  import opened Sequences
  import opened Sorting
  import opened Wrappers

  type ProviderId = string

  datatype Capability = Walkthrough | ReviewThread

  /** What a manifest declares of one capability, and whether an implementation came with it. */
  datatype Declaration = Declaration(supported: bool, autoPriority: Option<real>, implemented: bool)

  datatype Model = Model(id: string, walkthrough: bool, quality: string)

  datatype Registration = Registration(
    id: ProviderId,
    walkthrough: Declaration,
    reviewThread: Declaration,
    models: seq<Model>,
    walkthroughModel: Option<string>)
  {
    function On(capability: Capability): Declaration {
      if capability.Walkthrough? then walkthrough else reviewThread
    }
  }

  datatype RegistryError = Duplicate(id: ProviderId) | InvalidRegistration(id: ProviderId, capability: Capability)

  predicate Coherent(d: Declaration) {
    && d.supported == d.implemented
    && (d.autoPriority.Some? ==> d.supported)
  }

  /** What a manifest declares and what came with it contradict each other. */
  ghost predicate Contradicts(d: Declaration) {
    || (d.supported && !d.implemented)
    || (!d.supported && (d.implemented || d.autoPriority != None))
  }

  /** What registering `r` after `earlier` runs into, if anything. */
  ghost function Objection(earlier: seq<Registration>, r: Registration): Option<RegistryError> {
    if exists i :: 0 <= i < |earlier| && earlier[i].id == r.id then Some(Duplicate(r.id))
    else if Contradicts(r.walkthrough) then Some(InvalidRegistration(r.id, Walkthrough))
    else if Contradicts(r.reviewThread) then Some(InvalidRegistration(r.id, ReviewThread))
    else None
  }

  type Providers = map<ProviderId, Registration>

  ghost predicate Holds(providers: Providers, registrations: seq<Registration>) {
    && (forall i :: 0 <= i < |registrations| ==>
          registrations[i].id in providers && providers[registrations[i].id] == registrations[i])
    && (forall id :: id in providers ==> exists i :: 0 <= i < |registrations| && registrations[i].id == id)
  }

  lemma HoldsOneMore(providers: Providers, earlier: seq<Registration>, r: Registration)
    requires Holds(providers, earlier)
    ensures Objection(earlier, r) ==
      if r.id in providers then Some(Duplicate(r.id))
      else if !Coherent(r.walkthrough) then Some(InvalidRegistration(r.id, Walkthrough))
      else if !Coherent(r.reviewThread) then Some(InvalidRegistration(r.id, ReviewThread))
      else None
    ensures r.id !in providers ==> Holds(providers[r.id := r], earlier + [r])
  {
    if r.id !in providers {
      var all, more := earlier + [r], providers[r.id := r];
      forall id | id in more
        ensures exists i :: 0 <= i < |all| && all[i].id == id
      {
        if id == r.id {
          assert all[|earlier|].id == id;
        } else {
          var i :| 0 <= i < |earlier| && earlier[i].id == id;
          assert all[i].id == id;
        }
      }
    }
  }

  lemma OneMore(registrations: seq<Registration>, n: nat)
    requires n < |registrations|
    ensures registrations[..n + 1] == registrations[..n] + [registrations[n]]
  {
  }

  /** The registry is built exactly when no registration meets an objection, and then finds each by
      its id; otherwise the first objection is the error. */
  method BuildRegistry(registrations: seq<Registration>) returns (result: Result<Providers, RegistryError>)
    ensures result.Ok? <==>
      forall i :: 0 <= i < |registrations| ==> Objection(registrations[..i], registrations[i]) == None
    ensures result.Ok? ==> Holds(result.value, registrations)
    ensures result.Err? ==> exists i ::
      && 0 <= i < |registrations|
      && Objection(registrations[..i], registrations[i]) == Some(result.error)
      && forall j :: 0 <= j < i ==> Objection(registrations[..j], registrations[j]) == None
  {
    var providers: Providers := map[];
    var n := 0;
    assert Holds(providers, registrations[..n]);
    hide Objection, Holds, Coherent;
    while n < |registrations|
      invariant 0 <= n <= |registrations|
      invariant forall i :: 0 <= i < n ==> Objection(registrations[..i], registrations[i]) == None
      invariant Holds(providers, registrations[..n])
    {
      var registration := registrations[n];
      HoldsOneMore(providers, registrations[..n], registration);
      if registration.id in providers {
        return Err(Duplicate(registration.id));
      }
      if !Coherent(registration.walkthrough) {
        return Err(InvalidRegistration(registration.id, Walkthrough));
      }
      if !Coherent(registration.reviewThread) {
        return Err(InvalidRegistration(registration.id, ReviewThread));
      }
      OneMore(registrations, n);
      providers := providers[registration.id := registration];
      n := n + 1;
    }
    assert registrations[..n] == registrations;
    return Ok(providers);
  }

  /* Automatic order */

  datatype Entry = Entry(id: ProviderId, priority: real)

  /** How two ids compare in the locale: at most zero when the first does not come after. */
  type Collation = (ProviderId, ProviderId) -> int

  ghost predicate Orders(collate: Collation) {
    && (forall a, b :: collate(a, b) <= 0 || collate(b, a) <= 0)
    && (forall a, b, c :: collate(a, b) <= 0 && collate(b, c) <= 0 ==> collate(a, c) <= 0)
  }

  predicate NotAfter(collate: Collation, a: Entry, b: Entry) {
    a.priority < b.priority || (a.priority == b.priority && collate(a.id, b.id) <= 0)
  }

  function Eligible(registrations: seq<Registration>, capability: Capability): seq<Entry> {
    if registrations == [] then []
    else
      var d := registrations[0].On(capability);
      (if d.supported && d.autoPriority.Some? then [Entry(registrations[0].id, d.autoPriority.value)] else [])
      + Eligible(registrations[1..], capability)
  }

  function ByPriority(collate: Collation): Comparison<Entry> {
    (a, b) => NotAfter(collate, a, b)
  }

  function Ids(entries: seq<Entry>): (r: seq<ProviderId>)
    ensures |r| == |entries| && forall i :: 0 <= i < |r| ==> r[i] == entries[i].id
  {
    seq(|entries|, i requires 0 <= i < |entries| => entries[i].id)
  }

  function OrderedAutoCandidates(
    collate: Collation, registrations: seq<Registration>, capability: Capability
  ): seq<ProviderId>
  {
    Ids(Sort(ByPriority(collate), Eligible(registrations, capability)))
  }

  lemma {:induction false} PriorityRanks(collate: Collation)
    requires Orders(collate)
    ensures Ranks(ByPriority(collate))
  {
    forall a: Entry, b: Entry, c: Entry
      ensures NotAfter(collate, a, b) || NotAfter(collate, b, a)
      ensures NotAfter(collate, a, b) && NotAfter(collate, b, c) ==> NotAfter(collate, a, c)
    {
    }
  }

  /** The automatic order is a rearrangement of the eligible providers, by priority and then by id. */
  lemma {:induction false} AutomaticOrderSorts(
      collate: Collation, registrations: seq<Registration>, capability: Capability)
    requires Orders(collate)
    ensures
      var eligible, order := Eligible(registrations, capability), ByPriority(collate);
      && Sorted(order, Sort(order, eligible)) && multiset(Sort(order, eligible)) == multiset(eligible)
      && OrderedAutoCandidates(collate, registrations, capability) == Ids(Sort(order, eligible))
  {
    hide Orders, Ranks, Sort;
    PriorityRanks(collate);
    SortSorts(ByPriority(collate), Eligible(registrations, capability));
  }

  lemma {:induction false} EligibleConcat(a: seq<Registration>, b: seq<Registration>, capability: Capability)
    ensures Eligible(a + b, capability) == Eligible(a, capability) + Eligible(b, capability)
  {
    if a == [] {
      assert a + b == b;
    } else {
      assert (a + b)[1..] == a[1..] + b;
      EligibleConcat(a[1..], b, capability);
    }
  }

  lemma EligibleWithout(b: seq<Registration>, i: nat, capability: Capability)
    requires i < |b|
    ensures multiset(Eligible(b, capability))
         == multiset(Eligible([b[i]], capability)) + multiset(Eligible(b[..i] + b[i + 1..], capability))
  {
    hide Eligible;
    assert b == b[..i] + ([b[i]] + b[i + 1..]);
    EligibleConcat(b[..i], b[i + 1..], capability);
    EligibleConcat(b[..i], [b[i]] + b[i + 1..], capability);
    EligibleConcat([b[i]], b[i + 1..], capability);
  }

  lemma {:induction false} EligibleRearranged(a: seq<Registration>, b: seq<Registration>, capability: Capability)
    requires multiset(a) == multiset(b)
    ensures multiset(Eligible(a, capability)) == multiset(Eligible(b, capability))
  {
    hide Eligible;
    if a == [] {
      assert |b| == |multiset(b)|;
      assert a == b;
    } else {
      assert a[0] in multiset(b);
      var i :| 0 <= i < |b| && b[i] == a[0];
      RestRearranged(a, b, i);
      EligibleRearranged(a[1..], b[..i] + b[i + 1..], capability);
      EligibleWithout(a, 0, capability);
      EligibleWithout(b, i, capability);
      assert a[..0] + a[1..] == a[1..];
    }
  }

  /** Where the locale tells the ids apart, the order of registration makes no difference. */
  lemma {:induction false} RegistrationOrderIsIrrelevant(
    collate: Collation, a: seq<Registration>, b: seq<Registration>, capability: Capability
  )
    requires Orders(collate) && multiset(a) == multiset(b)
    requires Distinguishes(ByPriority(collate), Eligible(a, capability))
    ensures OrderedAutoCandidates(collate, a, capability) == OrderedAutoCandidates(collate, b, capability)
  {
    hide Orders, Sorted, Sort, Eligible;
    EligibleRearranged(a, b, capability);
    PriorityRanks(collate);
    SameSorted(ByPriority(collate), Eligible(a, capability), Eligible(b, capability));
  }

  lemma {:induction false} EligibleExactly(registrations: seq<Registration>, capability: Capability, e: Entry)
    ensures e in Eligible(registrations, capability) <==>
      exists i :: 0 <= i < |registrations| && registrations[i].id == e.id
        && registrations[i].On(capability).supported
        && registrations[i].On(capability).autoPriority == Some(e.priority)
  {
    if registrations != [] {
      EligibleExactly(registrations[1..], capability, e);
      var r := registrations[0];
      assert registrations == [r] + registrations[1..];
      assert forall i :: 0 <= i < |registrations| - 1 ==> registrations[1..][i] == registrations[i + 1];
    }
  }

  /* Resolving candidates */

  datatype Probe = Ready | PolicyUnsupported | Unavailable | WrongCapability | ProbeFailed

  datatype ResolutionError = Missing | Unsupported | NotReady(probe: Probe) | NoProvider

  /** A resolved provider; `lazy` when its probe is still to be asked before use. */
  datatype Candidate = Candidate(registration: Registration, lazy: bool)

  function ResolveOne(
    providers: Providers, id: ProviderId, capability: Capability): Result<Registration, ResolutionError>
  {
    if id !in providers then Err(Missing)
    else if !providers[id].On(capability).implemented then Err(Unsupported)
    else Ok(providers[id])
  }

  function ResolveEach(providers: Providers, ids: seq<ProviderId>, capability: Capability): seq<Candidate> {
    if ids == [] then []
    else
      var one := ResolveOne(providers, ids[0], capability);
      (if one.Ok? then [Candidate(one.value, true)] else []) + ResolveEach(providers, ids[1..], capability)
  }

  function ResolveAuto(providers: Providers, ids: seq<ProviderId>, capability: Capability):
    Result<seq<Candidate>, ResolutionError>
  {
    var available := ResolveEach(providers, ids, capability);
    if available == [] then Err(NoProvider) else Ok(available)
  }

  function ResolveExplicit(providers: Providers, id: ProviderId, capability: Capability, probe: Probe):
    Result<seq<Candidate>, ResolutionError>
  {
    var one := ResolveOne(providers, id, capability);
    if one.Err? then Err(one.error)
    else if !probe.Ready? then Err(NotReady(probe))
    else Ok([Candidate(one.value, false)])
  }

  lemma {:induction false} ResolvesAll(providers: Providers, ids: seq<ProviderId>, capability: Capability)
    requires forall i :: 0 <= i < |ids| ==> ResolveOne(providers, ids[i], capability).Ok?
    ensures
      var candidates := ResolveEach(providers, ids, capability);
      && |candidates| == |ids|
      && forall i :: 0 <= i < |ids| ==>
           ids[i] in providers && candidates[i] == Candidate(providers[ids[i]], true)
  {
    if ids != [] {
      ResolvesAll(providers, ids[1..], capability);
    }
  }

  lemma EligibleResolves(
    registrations: seq<Registration>, capability: Capability, providers: Providers, e: Entry
  )
    requires Holds(providers, registrations) && e in Eligible(registrations, capability)
    requires forall i :: 0 <= i < |registrations| ==> Objection(registrations[..i], registrations[i]) == None
    ensures e.id in providers && providers[e.id] in registrations && providers[e.id].id == e.id
    ensures ResolveOne(providers, e.id, capability) == Ok(providers[e.id])
  {
    EligibleExactly(registrations, capability, e);
    var k :| 0 <= k < |registrations| && registrations[k].id == e.id
      && registrations[k].On(capability).supported;
    assert Objection(registrations[..k], registrations[k]) == None;
    assert providers[registrations[k].id] == registrations[k];
  }

  /** On a registry built from the registrations, automatic routing is offered exactly the eligible
      providers, in priority order, with none dropped; and there is no provider exactly when none is
      eligible. */
  lemma {:induction false} AutomaticOrder(
    collate: Collation, registrations: seq<Registration>, capability: Capability, providers: Providers
  )
    requires Orders(collate) && Holds(providers, registrations)
    requires forall i :: 0 <= i < |registrations| ==> Objection(registrations[..i], registrations[i]) == None
    ensures
      var order := ByPriority(collate);
      var sorted := Sort(order, Eligible(registrations, capability));
      var resolved := ResolveAuto(providers, OrderedAutoCandidates(collate, registrations, capability), capability);
      && Sorted(order, sorted) && multiset(sorted) == multiset(Eligible(registrations, capability))
      && (resolved.Err? <==> Eligible(registrations, capability) == [])
      && (resolved.Ok? ==>
            && |resolved.value| == |sorted|
            && forall i :: 0 <= i < |sorted| ==>
                 && resolved.value[i].registration in registrations
                 && resolved.value[i].registration.id == sorted[i].id
                 && resolved.value[i].lazy)
  {
    hide Orders, Sorted, Sort, Eligible, Holds, Objection, ResolveOne, ResolveEach;
    var eligible := Eligible(registrations, capability);
    var sorted := Sort(ByPriority(collate), eligible);
    var ids := Ids(sorted);
    AutomaticOrderSorts(collate, registrations, capability);
    assert |sorted| == |multiset(sorted)| == |eligible|;
    forall i | 0 <= i < |ids|
      ensures ids[i] in providers && providers[ids[i]] in registrations && providers[ids[i]].id == ids[i]
      ensures ResolveOne(providers, ids[i], capability).Ok?
    {
      assert sorted[i] in multiset(sorted);
      EligibleResolves(registrations, capability, providers, sorted[i]);
    }
    ResolvesAll(providers, ids, capability);
  }

  ghost function Declared(r: Registration, capability: Capability): Declaration {
    match capability
    case Walkthrough => r.walkthrough
    case ReviewThread => r.reviewThread
  }

  ghost predicate OffersItself(r: Registration, capability: Capability) {
    Declared(r, capability).supported && Declared(r, capability).autoPriority.Some?
  }

  /** A lower priority value comes first; between equal ones the locale decides. */
  ghost predicate ComesFirst(collate: Collation, a: Registration, b: Registration, capability: Capability)
    requires OffersItself(a, capability) && OffersItself(b, capability)
  {
    var first, second := Declared(a, capability).autoPriority.value, Declared(b, capability).autoPriority.value;
    first < second || (first == second && collate(a.id, b.id) <= 0)
  }

  lemma EntryIs(
    registrations: seq<Registration>, capability: Capability, providers: Providers, e: Entry
  )
    requires Holds(providers, registrations) && e in Eligible(registrations, capability)
    ensures e.id in providers && OffersItself(providers[e.id], capability) && providers[e.id].id == e.id
    ensures Declared(providers[e.id], capability).autoPriority == Some(e.priority)
  {
    hide Eligible;
    EligibleExactly(registrations, capability, e);
    var k :| 0 <= k < |registrations| && registrations[k].id == e.id
      && registrations[k].On(capability).supported && registrations[k].On(capability).autoPriority == Some(e.priority);
    assert providers[registrations[k].id] == registrations[k];
  }

  lemma OfferIs(registrations: seq<Registration>, capability: Capability, r: Registration)
    requires r in registrations && OffersItself(r, capability)
    ensures Entry(r.id, Declared(r, capability).autoPriority.value) in Eligible(registrations, capability)
  {
    hide Eligible;
    EligibleExactly(registrations, capability, Entry(r.id, Declared(r, capability).autoPriority.value));
  }

  /** Automatic routing is offered exactly the registrations that support the capability and give it a
      priority, those with a lower priority value first. */
  lemma {:induction false} CandidatesExactly(
    collate: Collation, registrations: seq<Registration>, capability: Capability, providers: Providers
  )
    requires Orders(collate) && Holds(providers, registrations)
    requires forall i :: 0 <= i < |registrations| ==> Objection(registrations[..i], registrations[i]) == None
    ensures
      match ResolveAuto(providers, OrderedAutoCandidates(collate, registrations, capability), capability)
      case Err(error) => error == NoProvider && forall r :: r in registrations ==> !OffersItself(r, capability)
      case Ok(candidates) =>
        && candidates != []
        && (forall i :: 0 <= i < |candidates| ==>
              candidates[i].registration in registrations && OffersItself(candidates[i].registration, capability))
        && (forall r :: r in registrations && OffersItself(r, capability) ==> Candidate(r, true) in candidates)
        && (forall i, j :: 0 <= i < j < |candidates| ==>
              ComesFirst(collate, candidates[i].registration, candidates[j].registration, capability))
  {
    hide Orders, Sort, Eligible, Holds, Objection, ResolveOne, ResolveEach, Declared;
    var order, eligible := ByPriority(collate), Eligible(registrations, capability);
    var sorted := Sort(order, eligible);
    var resolved := ResolveAuto(providers, OrderedAutoCandidates(collate, registrations, capability), capability);
    AutomaticOrder(collate, registrations, capability, providers);
    CandidatesAre(collate, registrations, capability, providers);
    forall r | r in registrations && OffersItself(r, capability)
      ensures resolved.Ok? && Candidate(r, true) in resolved.value
    {
      OfferIs(registrations, capability, r);
      var e := Entry(r.id, Declared(r, capability).autoPriority.value);
      assert e in multiset(eligible) && e in multiset(sorted);
      var i :| 0 <= i < |sorted| && sorted[i] == e;
      RegisteredOnce(registrations, providers, r);
      assert resolved.value[i] == Candidate(r, true);
    }
    if resolved.Ok? {
      forall i, j | 0 <= i < j < |resolved.value|
        ensures ComesFirst(collate, resolved.value[i].registration, resolved.value[j].registration, capability)
      {
        assert order(sorted[i], sorted[j]);
      }
    }
  }

  lemma RegisteredOnce(registrations: seq<Registration>, providers: Providers, r: Registration)
    requires Holds(providers, registrations) && r in registrations
    ensures r.id in providers && providers[r.id] == r
  {
  }

  lemma {:induction false} CandidatesAre(
    collate: Collation, registrations: seq<Registration>, capability: Capability, providers: Providers
  )
    requires Orders(collate) && Holds(providers, registrations)
    requires forall i :: 0 <= i < |registrations| ==> Objection(registrations[..i], registrations[i]) == None
    ensures
      var sorted := Sort(ByPriority(collate), Eligible(registrations, capability));
      var resolved := ResolveAuto(providers, OrderedAutoCandidates(collate, registrations, capability), capability);
      resolved.Ok? ==>
        && |resolved.value| == |sorted|
        && forall i :: 0 <= i < |sorted| ==>
             && sorted[i].id in providers && resolved.value[i] == Candidate(providers[sorted[i].id], true)
             && OffersItself(providers[sorted[i].id], capability) && providers[sorted[i].id].id == sorted[i].id
             && Declared(providers[sorted[i].id], capability).autoPriority == Some(sorted[i].priority)
  {
    hide Orders, Sorted, Sort, Eligible, Holds, Objection, ResolveOne, OffersItself, Declared;
    var sorted := Sort(ByPriority(collate), Eligible(registrations, capability));
    var ids := Ids(sorted);
    AutomaticOrderSorts(collate, registrations, capability);
    forall i | 0 <= i < |ids|
      ensures ids[i] in providers && ResolveOne(providers, ids[i], capability).Ok?
      ensures OffersItself(providers[ids[i]], capability) && providers[ids[i]].id == ids[i]
      ensures Declared(providers[ids[i]], capability).autoPriority == Some(sorted[i].priority)
    {
      assert sorted[i] in multiset(sorted);
      EntryIs(registrations, capability, providers, sorted[i]);
      EligibleResolves(registrations, capability, providers, sorted[i]);
    }
    ResolvesAll(providers, ids, capability);
  }
}
