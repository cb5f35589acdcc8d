/** Deterministic machines that consume a trace of events and append to an output trace. */
module Machine {

  type Step<!S, !E, !O> = (S, E) -> (S, seq<O>)

  /** The final state and everything output, one event after the other. */
  function Run<S, E, O>(step: Step<S, E, O>, s: S, events: seq<E>): (S, seq<O>) {
    if |events| == 0 then (s, [])
    else
      var (before, out) := Run(step, s, events[..|events| - 1]);
      var (after, more) := step(before, events[|events| - 1]);
      (after, out + more)
  }

  lemma RunSnoc<S, E, O>(step: Step<S, E, O>, s: S, events: seq<E>, e: E)
    ensures var (before, out) := Run(step, s, events);
            var (after, more) := step(before, e);
            Run(step, s, events + [e]) == (after, out + more)
  {
    assert (events + [e])[..|events|] == events;
  }

  /** Running a trace is running its first part and then the rest. */
  lemma {:induction false} RunConcat<S, E, O>(step: Step<S, E, O>, s: S, first: seq<E>, second: seq<E>)
    ensures var (t, out) := Run(step, s, first);
            var (u, more) := Run(step, t, second);
            Run(step, s, first + second) == (u, out + more)
    decreases |second|
  {
    if |second| == 0 {
      assert first + second == first;
      var out := Run(step, s, first).1;
      assert out + [] == out;
    } else {
      var init, last := second[..|second| - 1], second[|second| - 1];
      RunConcat(step, s, first, init);
      RunSnoc(step, s, first + init, last);
      assert first + second == (first + init) + [last];
      var (t, out) := Run(step, s, first);
      var (u, mid) := Run(step, t, init);
      var more := step(u, last).1;
      assert out + (mid + more) == (out + mid) + more;
    }
  }

  /** The state and the output trace after more events. */
  function Resume<S, E, O>(step: Step<S, E, O>, at: (S, seq<O>), events: seq<E>): (S, seq<O>) {
    var (after, more) := Run(step, at.0, events);
    (after, at.1 + more)
  }

  lemma ResumeNone<S, E, O>(step: Step<S, E, O>, at: (S, seq<O>))
    ensures Resume(step, at, []) == at
  {
    assert at.1 + [] == at.1;
  }

  lemma ResumeOne<S, E, O>(step: Step<S, E, O>, at: (S, seq<O>), e: E)
    ensures var (after, more) := step(at.0, e);
            Resume(step, at, [e]) == (after, at.1 + more)
  {
    RunSnoc(step, at.0, [], e);
    assert [] + [e] == [e];
    var more := step(at.0, e).1;
    assert [] + more == more;
  }

  lemma ResumeConcat<S, E, O>(step: Step<S, E, O>, at: (S, seq<O>), first: seq<E>, second: seq<E>)
    ensures Resume(step, at, first + second) == Resume(step, Resume(step, at, first), second)
  {
    RunConcat(step, at.0, first, second);
    var (t, out) := Run(step, at.0, first);
    var more := Run(step, t, second).1;
    assert at.1 + (out + more) == (at.1 + out) + more;
  }

  /** The events that satisfy `keep`, in order. */
  function Filter<E>(keep: E -> bool, events: seq<E>): seq<E> {
    if |events| == 0 then []
    else
      Filter(keep, events[..|events| - 1])
      + if keep(events[|events| - 1]) then [events[|events| - 1]] else []
  }

  /** Places in a trace, in order, that hold exactly the events that satisfy `keep`. */
  predicate AreKept<E>(keep: E -> bool, events: seq<E>, at: seq<nat>) {
    && (forall k | 0 <= k < |at| :: at[k] < |events| && keep(events[at[k]]))
    && (forall k, l | 0 <= k < l < |at| :: at[k] < at[l])
    && (forall i | 0 <= i < |events| && keep(events[i]) :: i in at)
  }

  lemma KeptExtend<E>(keep: E -> bool, init: seq<E>, e: E, at: seq<nat>)
    requires AreKept(keep, init, at)
    ensures AreKept(keep, init + [e], at + if keep(e) then [|init|] else [])
  {
    var more := at + if keep(e) then [|init|] else [];
    forall i | 0 <= i < |init + [e]| && keep((init + [e])[i])
      ensures i in more
    {
      if i < |init| {
        assert i in at;
      } else {
        assert more[|at|] == i;
      }
    }
  }

  /** Filtering keeps the events at these places and no others. */
  lemma {:induction false} FilterMeaning<E>(keep: E -> bool, events: seq<E>) returns (at: seq<nat>)
    ensures AreKept(keep, events, at) && |at| == |Filter(keep, events)|
    ensures forall k | 0 <= k < |at| :: Filter(keep, events)[k] == events[at[k]]
  {
    if |events| == 0 {
      at := [];
    } else {
      var n := |events| - 1;
      var before := FilterMeaning(keep, events[..n]);
      KeptExtend(keep, events[..n], events[n], before);
      assert events[..n] + [events[n]] == events;
      at := before + if keep(events[n]) then [n] else [];
    }
  }

  /** The event changes no state and outputs nothing. */
  ghost predicate Silent<S(!new), E, O>(step: Step<S, E, O>, e: E) {
    forall s: S :: step(s, e) == (s, [])
  }

  /** Events that are silent in every state can be deleted anywhere in a trace. */
  lemma {:induction false} SilentEventsDeletable<S(!new), E, O>(
      step: Step<S, E, O>, s: S, events: seq<E>, keep: E -> bool)
    requires forall i | 0 <= i < |events| && !keep(events[i]) :: Silent(step, events[i])
    ensures Run(step, s, Filter(keep, events)) == Run(step, s, events)
  {
    if |events| == 0 {
    } else {
      var init, last := events[..|events| - 1], events[|events| - 1];
      SilentEventsDeletable(step, s, init, keep);
      if keep(last) {
        RunSnoc(step, s, Filter(keep, init), last);
      } else {
        assert Silent(step, last);
        assert Filter(keep, init) + [] == Filter(keep, init);
        var out := Run(step, s, init).1;
        assert out + [] == out;
      }
    }
  }

  predicate Each<T>(p: T -> bool, s: seq<T>) {
    forall i | 0 <= i < |s| :: p(s[i])
  }
}
