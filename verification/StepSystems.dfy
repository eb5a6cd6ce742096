/** Runs of a system whose steps are given by a function: an event either happens or cannot. */
module StepSystems {
  import opened Wrappers

  type Steps<!S, !E> = (S, E) -> Option<S>

  /** The state after the events in turn, if each of them can happen. */
  function Run<S, E>(step: Steps<S, E>, s: S, events: seq<E>): Option<S>
    decreases |events|
  {
    if events == [] then Some(s) else
      var next := step(s, events[0]);
      if next.None? then None else Run(step, next.value, events[1..])
  }

  lemma {:induction false} RunStep<S, E>(step: Steps<S, E>, s: S, e: E, t: S, rest: seq<E>)
    requires step(s, e) == Some(t)
    ensures Run(step, s, [e] + rest) == Run(step, t, rest)
  {
    assert ([e] + rest)[1..] == rest;
  }

  lemma {:induction false} RunConcat<S, E>(step: Steps<S, E>, s: S, a: seq<E>, b: seq<E>)
    requires Run(step, s, a).Some?
    ensures Run(step, s, a + b) == Run(step, Run(step, s, a).value, b)
    decreases |a|
  {
    if a == [] {
      assert a + b == b;
    } else {
      assert (a + b)[1..] == a[1..] + b;
      RunConcat(step, step(s, a[0]).value, a[1..], b);
    }
  }

  lemma {:induction false} RunSplits<S, E>(step: Steps<S, E>, s: S, before: seq<E>, e: E)
    requires Run(step, s, before + [e]).Some?
    ensures Run(step, s, before).Some? && step(Run(step, s, before).value, e) == Run(step, s, before + [e])
    decreases |before|
  {
    if before == [] {
      assert before + [e] == [e];
    } else {
      assert (before + [e])[1..] == before[1..] + [e];
      RunSplits(step, step(s, before[0]).value, before[1..], e);
    }
  }
}
