/** The refresh admission state machine of `RefreshControlView` and the two
    projections the views read from it (Sources/Refresher/Refresher.swift).

    The framework delivers the global top of the control each time it changes;
    here that is the `OffsetChanged` event. The deferred completion that runs
    300 ms after the caller signals the end of its refresh is the `HoldElapsed`
    event. The haptic and the call to the caller's `onRefresh` are recorded as
    effects of a transition. */
module RefreshControl {
  import opened RefreshMath

  datatype Option<T> = None | Some(value: T)

  /** Fixed geometry of `RefreshControlView` and `RefreshableScrollView`. */
  const RefreshAt: real := 140.0
  const StopPoint: real := -25.0
  const OffScreenPoint: real := -300.0
  const RefreshHoldPoint: real := 0.0
  const PullClipPoint: real := 0.2
  const HeaderShimMaxHeight: real := 50.0

  /** Drag progress at or below which a new refresh is admitted again. */
  const ReopenPercent: real := 0.1

  /** The state shared by the control and its scroll view: the `isRefreshing`
      and `percent` bindings, the captured `headerInset` and the admission gate
      `allowRefresh`. */
  datatype State = State(isRefreshing: bool, allowRefresh: bool, headerInset: Option<real>, percent: real)

  /** State of a freshly mounted scroll view. */
  const Initial: State := State(false, true, None, 0.0)

  datatype Event =
    | OffsetChanged(value: real)  // a new global top of the control
    | HoldElapsed                 // the deferred end of a refresh

  datatype Effect = Haptic | OnRefresh

  datatype Transition = Transition(next: State, effects: seq<Effect>)

  /** States reachable from `Initial`: the published percent is a clamped
      fraction, and before the first sample nothing has been refreshed and no
      refresh is in flight. */
  ghost predicate Inv(s: State) {
    && 0.0 <= s.percent <= 1.0
    && (s.headerInset.None? ==> s.allowRefresh && s.percent == 0.0 && !s.isRefreshing)
  }

  /** Drag progress of a sample relative to the captured inset. */
  function PullPercent(inset: real, value: real): (p: real)
    ensures 0.0 <= p <= 1.0
    ensures p == 0.0 <==> value <= inset
    ensures p >= 1.0 <==> value - inset >= RefreshAt
    ensures p <= ReopenPercent <==> value - inset <= ReopenPercent * RefreshAt
  {
    NormalizeAtMost(0.0, RefreshAt, value - inset, ReopenPercent);
    Normalize(0.0, RefreshAt, value - inset)
  }

  /** The guard of `refresh()`. */
  predicate Admits(s: State) {
    !s.isRefreshing && s.allowRefresh
  }

  /** `refresh()`: closes the gate, marks a refresh in flight, fires the haptic
      and calls `onRefresh`, but only when not refreshing and the gate is open. */
  function Refresh(s: State): (t: Transition)
    ensures t.effects != [] <==> Admits(s)
    ensures !Admits(s) ==> t.next == s
    ensures Admits(s) ==> t.effects == [Haptic, OnRefresh]
    ensures Admits(s) ==> t.next.isRefreshing && !t.next.allowRefresh
    ensures t.next.headerInset == s.headerInset && t.next.percent == s.percent
  {
    if !Admits(s) then Transition(s, [])
    else Transition(s.(allowRefresh := false, isRefreshing := true), [Haptic, OnRefresh])
  }

  /** The `onChange` handler: captures the inset on the first sample, publishes
      the drag progress, asks for a refresh at full progress and reopens the gate
      near the resting position. */
  function OnOffsetChanged(s: State, value: real): (t: Transition)
    ensures s.headerInset.Some? ==> t.next.headerInset == s.headerInset
    ensures s.headerInset.None? ==> t.next.headerInset == Some(value)
    ensures t.next.headerInset.Some?
    ensures t.next.percent == PullPercent(t.next.headerInset.value, value)
    ensures s.headerInset.None? ==> t.next.percent == 0.0 && t.effects == []
    ensures t.effects != [] <==>
              s.headerInset.Some? && value - s.headerInset.value >= RefreshAt && Admits(s)
    ensures t.effects != [] ==> t.effects == [Haptic, OnRefresh]
    ensures t.next.isRefreshing == (s.isRefreshing || t.effects != [])
    ensures t.next.allowRefresh == (t.next.percent <= ReopenPercent || (s.allowRefresh && t.effects == []))
  {
    var inset := match s.headerInset case Some(h) => h case None => value;
    var percent := PullPercent(inset, value);
    var published := s.(headerInset := Some(inset), percent := percent);
    var fired := if percent >= 1.0 then Refresh(published) else Transition(published, []);
    if percent <= ReopenPercent then Transition(fired.next.(allowRefresh := true), fired.effects)
    else fired
  }

  /** The deferred completion: it ends the refresh and touches nothing else. */
  function OnHoldElapsed(s: State): (t: Transition)
    ensures !t.next.isRefreshing && t.effects == []
    ensures t.next.allowRefresh == s.allowRefresh
    ensures t.next.headerInset == s.headerInset && t.next.percent == s.percent
  {
    Transition(s.(isRefreshing := false), [])
  }

  /** One event delivered to the control on the main queue. */
  function Step(s: State, e: Event): (t: Transition)
    ensures Inv(s) ==> Inv(t.next)
    ensures t.effects != [] ==> e.OffsetChanged? && t.effects == [Haptic, OnRefresh]
    ensures t.effects != [] ==> t.next.isRefreshing && !t.next.allowRefresh && t.next.headerInset.Some?
  {
    match e
    case OffsetChanged(v) => OnOffsetChanged(s, v)
    case HoldElapsed => OnHoldElapsed(s)
  }

  /** Number of occurrences of `x` in an effect log. */
  function Count(log: seq<Effect>, x: Effect): (n: nat)
    ensures n <= |log|
    ensures n == 0 <==> x !in log
  {
    if log == [] then 0
    else
      assert log == [log[0]] + log[1..];
      (if log[0] == x then 1 else 0) + Count(log[1..], x)
  }

  lemma {:induction false} CountAppend(a: seq<Effect>, b: seq<Effect>, x: Effect)
    ensures Count(a + b, x) == Count(a, x) + Count(b, x)
  {
    if a == [] {
      assert a + b == b;
    } else {
      assert (a + b)[0] == a[0];
      assert (a + b)[1..] == a[1..] + b;
      CountAppend(a[1..], b, x);
    }
  }

  /** Runs a sequence of events and concatenates their effects; reachable
      states stay reachable. */
  function Run(s: State, es: seq<Event>): (t: Transition)
    ensures Inv(s) ==> Inv(t.next)
    ensures es == [] ==> t == Transition(s, [])
    decreases |es|
  {
    if es == [] then Transition(s, [])
    else
      var first := Step(s, es[0]);
      var rest := Run(first.next, es[1..]);
      Transition(rest.next, first.effects + rest.effects)
  }

  /** Every haptic is paired with one call of `onRefresh`. */
  lemma {:induction false} HapticPairsWithRefresh(s: State, es: seq<Event>)
    ensures Count(Run(s, es).effects, Haptic) == Count(Run(s, es).effects, OnRefresh)
    decreases |es|
  {
    if es != [] {
      var first := Step(s, es[0]);
      var rest := Run(first.next, es[1..]);
      HapticPairsWithRefresh(first.next, es[1..]);
      CountAppend(first.effects, rest.effects, Haptic);
      CountAppend(first.effects, rest.effects, OnRefresh);
    }
  }

  /** `RefreshControlView.offset`: the vertical offset of the indicator for a
      pull `y` past the resting position. While refreshing it slides from the
      hold point to the stop point; otherwise it stays off screen until the pull
      clip point and then slides to the stop point. */
  function ControlOffset(isRefreshing: bool, y: real): (r: real)
    ensures y >= RefreshAt ==> r == StopPoint
    ensures isRefreshing && y <= 0.0 ==> r == RefreshHoldPoint
    ensures !isRefreshing && y <= PullClipPoint * RefreshAt ==> r == OffScreenPoint
    ensures isRefreshing ==> StopPoint <= r <= RefreshHoldPoint
    ensures !isRefreshing ==> OffScreenPoint <= r <= StopPoint
  {
    var percent := Normalize(0.0, RefreshAt, y);
    NormalizeAtMost(0.0, RefreshAt, y, PullClipPoint);
    var clipped := Normalize(PullClipPoint, 1.0, percent);
    LerpBetween(RefreshHoldPoint, StopPoint, percent);
    LerpBetween(OffScreenPoint, StopPoint, clipped);
    if isRefreshing then Lerp(RefreshHoldPoint, StopPoint, percent)
    else Lerp(OffScreenPoint, StopPoint, clipped)
  }

  /** Height of the clear shim `RefreshableScrollView` puts above its content;
      `None` when no shim is laid out. */
  function ShimHeight(isRefreshing: bool, overlay: bool, percent: real): (r: Option<real>)
    ensures r.Some? <==> isRefreshing && !overlay
    ensures r.Some? && 0.0 <= percent <= 1.0 ==> 0.0 <= r.value <= HeaderShimMaxHeight
    ensures r.Some? && percent == 0.0 ==> r.value == HeaderShimMaxHeight
    ensures r.Some? && percent == 1.0 ==> r.value == 0.0
  {
    if isRefreshing && !overlay then Some(HeaderShimMaxHeight * (1.0 - percent)) else None
  }

  /** The indicator moves monotonically with the pull: down towards the stop
      point while pulling, up from the hold point to the stop point while
      refreshing. */
  lemma ControlOffsetMonotone(isRefreshing: bool, y1: real, y2: real)
    requires y1 <= y2
    ensures !isRefreshing ==> ControlOffset(isRefreshing, y1) <= ControlOffset(isRefreshing, y2)
    ensures isRefreshing ==> ControlOffset(isRefreshing, y2) <= ControlOffset(isRefreshing, y1)
  {
    NormalizeMonotone(0.0, RefreshAt, y1, y2);
    var p1 := Normalize(0.0, RefreshAt, y1);
    var p2 := Normalize(0.0, RefreshAt, y2);
    NormalizeMonotone(PullClipPoint, 1.0, p1, p2);
    LerpMonotone(RefreshHoldPoint, StopPoint, p1, p2);
    LerpMonotone(OffScreenPoint, StopPoint, Normalize(PullClipPoint, 1.0, p1), Normalize(PullClipPoint, 1.0, p2));
  }

  /** The shim shrinks as the pull grows. */
  lemma ShimHeightAntitone(isRefreshing: bool, overlay: bool, p1: real, p2: real)
    requires p1 <= p2 && isRefreshing && !overlay
    ensures ShimHeight(isRefreshing, overlay, p2).value <= ShimHeight(isRefreshing, overlay, p1).value
  {
  }
}
