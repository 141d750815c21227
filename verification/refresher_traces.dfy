/** Properties of whole event sequences driving `RefreshControlView`
    (Sources/Refresher/Refresher.swift): `onRefresh` is called at most once per
    admission cycle, and a cycle is closed only by a completion together with a
    sample near the resting position. */
module RefreshTraces {
  import opened RefreshControl

  function Ind(b: bool): nat { if b then 1 else 0 }

  /** A sample that reopens the admission gate, once the inset is known. */
  predicate Reopens(inset: real, e: Event) {
    e.OffsetChanged? && PullPercent(inset, e.value) <= ReopenPercent
  }

  function ReopenCount(inset: real, es: seq<Event>): nat {
    if es == [] then 0 else Ind(Reopens(inset, es[0])) + ReopenCount(inset, es[1..])
  }

  function HoldCount(es: seq<Event>): nat {
    if es == [] then 0 else Ind(es[0].HoldElapsed?) + HoldCount(es[1..])
  }

  /** Each call of `onRefresh` consumes the open gate, and only a reopening
      sample opens it again: calls plus a still-open gate never exceed the
      initially open gate plus the reopening samples. */
  lemma {:induction false} RefreshesBoundedByReopens(s: State, es: seq<Event>)
    requires s.headerInset.Some?
    ensures Count(Run(s, es).effects, OnRefresh) + Ind(Run(s, es).next.allowRefresh)
              <= Ind(s.allowRefresh) + ReopenCount(s.headerInset.value, es)
    decreases |es|
  {
    if es != [] {
      var first := Step(s, es[0]);
      RefreshesBoundedByReopens(first.next, es[1..]);
      CountAppend(first.effects, Run(first.next, es[1..]).effects, OnRefresh);
      if es[0].OffsetChanged? {
        assert first.next.percent == PullPercent(s.headerInset.value, es[0].value);
      }
    }
  }

  /** Each call of `onRefresh` starts a refresh, and only a completion ends
      one: calls plus an idle end state never exceed an idle start plus the
      completions. */
  lemma {:induction false} RefreshesBoundedByCompletions(s: State, es: seq<Event>)
    ensures Count(Run(s, es).effects, OnRefresh) + Ind(!Run(s, es).next.isRefreshing)
              <= Ind(!s.isRefreshing) + HoldCount(es)
    decreases |es|
  {
    if es != [] {
      var first := Step(s, es[0]);
      RefreshesBoundedByCompletions(first.next, es[1..]);
      CountAppend(first.effects, Run(first.next, es[1..]).effects, OnRefresh);
    }
  }

  lemma {:induction false} HoldWitness(es: seq<Event>) returns (i: nat)
    requires HoldCount(es) > 0
    ensures i < |es| && es[i].HoldElapsed?
  {
    if es[0].HoldElapsed? {
      i := 0;
    } else {
      var j := HoldWitness(es[1..]);
      i := j + 1;
    }
  }

  lemma {:induction false} ReopenWitness(inset: real, es: seq<Event>) returns (i: nat)
    requires ReopenCount(inset, es) > 0
    ensures i < |es| && Reopens(inset, es[i])
  {
    if Reopens(inset, es[0]) {
      i := 0;
    } else {
      var j := ReopenWitness(inset, es[1..]);
      i := j + 1;
    }
  }

  /** Right after a call of `onRefresh`, no further call happens unless the
      events include both a completion and a sample back near the rest position. */
  lemma NextRefreshNeedsCompletionAndRelease(s: State, es: seq<Event>)
    requires s.headerInset.Some? && s.isRefreshing && !s.allowRefresh
    requires OnRefresh in Run(s, es).effects
    ensures exists i :: 0 <= i < |es| && es[i].HoldElapsed?
    ensures exists j :: 0 <= j < |es| && Reopens(s.headerInset.value, es[j])
  {
    RefreshesBoundedByReopens(s, es);
    RefreshesBoundedByCompletions(s, es);
    var i := HoldWitness(es);
    var j := ReopenWitness(s.headerInset.value, es);
  }

  /** Between any two calls of `onRefresh`: if the step on `e` calls it and the
      following events `rest` call it again, then `rest` contains a completion
      and a sample with drag progress at most 0.1. */
  lemma BetweenTwoRefreshes(s: State, e: Event, rest: seq<Event>)
    requires OnRefresh in Step(s, e).effects
    requires OnRefresh in Run(Step(s, e).next, rest).effects
    ensures exists i :: 0 <= i < |rest| && rest[i].HoldElapsed?
    ensures exists j :: 0 <= j < |rest| && Reopens(Step(s, e).next.headerInset.value, rest[j])
  {
    NextRefreshNeedsCompletionAndRelease(Step(s, e).next, rest);
  }

  /** While a refresh is in flight or the gate is closed, samples at full
      progress call nothing and change nothing but the published percent. */
  lemma {:induction false} FullPullsAreQuiet(s: State, es: seq<Event>)
    requires s.headerInset.Some? && !Admits(s)
    requires forall i :: 0 <= i < |es| ==>
               es[i].OffsetChanged? && es[i].value - s.headerInset.value >= RefreshAt
    ensures Run(s, es).effects == []
    ensures es != [] ==> Run(s, es).next == s.(percent := 1.0)
    decreases |es|
  {
    if es != [] {
      var first := Step(s, es[0]);
      assert first == Transition(s.(percent := 1.0), []);
      assert es[1..] != [] ==> es[1..][0] == es[1];
      FullPullsAreQuiet(first.next, es[1..]);
    }
  }

  /** Delivering the same sample twice is the same as delivering it once.
      `onChange` itself never delivers an unchanged top twice in a row; the
      event stream here allows it, so this says that admitting such repeats
      costs the model nothing. */
  lemma SampleIdempotent(s: State, value: real)
    ensures OnOffsetChanged(OnOffsetChanged(s, value).next, value)
              == Transition(OnOffsetChanged(s, value).next, [])
  {
  }

  /** The first sample of a mounted view only captures the inset. */
  lemma FirstSampleOnlyCapturesInset(value: real)
    ensures OnOffsetChanged(Initial, value) == Transition(State(false, true, Some(value), 0.0), [])
  {
  }

  /** Unfolds `Run` by one event. */
  lemma RunCons(s: State, e: Event, rest: seq<Event>)
    ensures Run(s, [e] + rest).effects == Step(s, e).effects + Run(Step(s, e).next, rest).effects
    ensures Run(s, [e] + rest).next == Run(Step(s, e).next, rest).next
  {
    assert ([e] + rest)[0] == e;
    assert ([e] + rest)[1..] == rest;
  }

  /** A single pull past the threshold held there: one haptic and one call of
      `onRefresh`, both at the first sample at or past 140 points. */
  lemma SinglePullScenario()
    ensures Run(Initial, [OffsetChanged(0.0), OffsetChanged(40.0), OffsetChanged(80.0),
                          OffsetChanged(150.0), OffsetChanged(150.0), OffsetChanged(150.0)]).effects
              == [Haptic, OnRefresh]
  {
    var held := [OffsetChanged(150.0), OffsetChanged(150.0)];
    var s1 := State(false, true, Some(0.0), 0.0);
    var s2 := State(false, true, Some(0.0), 40.0 / 140.0);
    var s3 := State(false, true, Some(0.0), 80.0 / 140.0);
    var s4 := State(true, false, Some(0.0), 1.0);
    assert Step(Initial, OffsetChanged(0.0)) == Transition(s1, []);
    assert Step(s1, OffsetChanged(40.0)) == Transition(s2, []);
    assert Step(s2, OffsetChanged(80.0)) == Transition(s3, []);
    assert Step(s3, OffsetChanged(150.0)) == Transition(s4, [Haptic, OnRefresh]);
    FullPullsAreQuiet(s4, held);
    RunCons(s3, OffsetChanged(150.0), held);
    RunCons(s2, OffsetChanged(80.0), [OffsetChanged(150.0)] + held);
    RunCons(s1, OffsetChanged(40.0), [OffsetChanged(80.0), OffsetChanged(150.0)] + held);
    RunCons(Initial, OffsetChanged(0.0), [OffsetChanged(40.0), OffsetChanged(80.0), OffsetChanged(150.0)] + held);
    assert [OffsetChanged(150.0)] + held == [OffsetChanged(150.0), OffsetChanged(150.0), OffsetChanged(150.0)];
    assert [OffsetChanged(80.0)] + ([OffsetChanged(150.0)] + held)
        == [OffsetChanged(80.0), OffsetChanged(150.0)] + held;
    assert [OffsetChanged(40.0)] + ([OffsetChanged(80.0), OffsetChanged(150.0)] + held)
        == [OffsetChanged(40.0), OffsetChanged(80.0), OffsetChanged(150.0)] + held;
    assert [OffsetChanged(0.0)] + ([OffsetChanged(40.0), OffsetChanged(80.0), OffsetChanged(150.0)] + held)
        == [OffsetChanged(0.0), OffsetChanged(40.0), OffsetChanged(80.0),
            OffsetChanged(150.0), OffsetChanged(150.0), OffsetChanged(150.0)];
  }
}
