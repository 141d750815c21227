/** Placement and opacity formulas of the indicator views
    (Sources/Refresher/RefreshSpinner.swift): the default spinner's offset,
    the system-style spinner's position and the System2 spinner's offset, and
    the opacity both system-style spinners share. */
module RefreshSpinner {
  import opened RefreshMath

  datatype RefreshMode = NotRefreshing | Pulling | Refreshing

  /** The part of the shared refresher state the system-style spinners read:
      the logical mode, its animated copy and the drag progress. */
  datatype RefresherState = RefresherState(mode: RefreshMode, modeAnimated: RefreshMode, dragPosition: real)

  /** Construction parameters of `RefreshSpinnerView`. */
  datatype SpinnerPlacement = SpinnerPlacement(
    offScreenPoint: real,
    pullClipPoint: real,
    stopPoint: real,
    refreshHoldPoint: real,
    headerInset: real,
    refreshAt: real)
  {
    /** Both normalisations in `offset` have a non-empty range. */
    predicate Valid() {
      0.0 < refreshAt && pullClipPoint < 1.0
    }
  }

  /** `RefreshSpinnerView.offset` for a pull `y` past the resting position.
      While refreshing the spinner slides from the hold point to the stop point.
      Otherwise, up to the pull clip point it is held back so that it moves with
      the content without appearing; beyond it, it slides from the off-screen
      point to the stop point. */
  function SpinnerOffset(p: SpinnerPlacement, mode: RefreshMode, y: real): (r: real)
    requires p.Valid()
    ensures y >= p.refreshAt ==> r == p.stopPoint
    ensures mode == Refreshing && y <= 0.0 ==> r == p.refreshHoldPoint
    ensures mode == Refreshing ==> Min(p.refreshHoldPoint, p.stopPoint) <= r <= Max(p.refreshHoldPoint, p.stopPoint)
    ensures mode != Refreshing && 0.0 <= p.pullClipPoint && y <= p.pullClipPoint * p.refreshAt ==>
              r == -p.headerInset + p.offScreenPoint * (1.0 + Normalize(0.0, p.refreshAt, y))
    ensures mode != Refreshing && y > p.pullClipPoint * p.refreshAt ==>
              Min(-p.headerInset + p.offScreenPoint, p.stopPoint) <= r
              <= Max(-p.headerInset + p.offScreenPoint, p.stopPoint)
  {
    var percent := Normalize(0.0, p.refreshAt, y);
    var normalizedPercent := Normalize(p.pullClipPoint, 1.0, percent);
    SpinnerOffsetFacts(p, y);
    LerpBetween(p.refreshHoldPoint, p.stopPoint, percent);
    LerpBetween(-p.headerInset + p.offScreenPoint, p.stopPoint, normalizedPercent);
    if mode == Refreshing then Lerp(p.refreshHoldPoint, p.stopPoint, percent)
    else if normalizedPercent == 0.0 then -p.headerInset + p.offScreenPoint * (1.0 + percent)
    else Lerp(-p.headerInset + p.offScreenPoint, p.stopPoint, normalizedPercent)
  }

  /** Where the pull clip point falls in terms of the pull distance. */
  lemma SpinnerOffsetFacts(p: SpinnerPlacement, y: real)
    requires p.Valid()
    ensures 0.0 <= p.pullClipPoint && y <= p.pullClipPoint * p.refreshAt ==>
              Normalize(p.pullClipPoint, 1.0, Normalize(0.0, p.refreshAt, y)) == 0.0
    ensures y > p.pullClipPoint * p.refreshAt ==>
              Normalize(p.pullClipPoint, 1.0, Normalize(0.0, p.refreshAt, y)) != 0.0
    ensures p.pullClipPoint < 0.0 ==>
              Normalize(p.pullClipPoint, 1.0, Normalize(0.0, p.refreshAt, y)) != 0.0
  {
    var percent := Normalize(0.0, p.refreshAt, y);
    if 0.0 <= p.pullClipPoint {
      NormalizeAtMost(0.0, p.refreshAt, y, p.pullClipPoint);
    } else {
      assert p.pullClipPoint < percent;
    }
  }

  /** While refreshing, the spinner rises monotonically from the hold point
      towards the stop point as the pull grows (or falls, if the stop point lies
      below the hold point). */
  lemma RefreshingOffsetMonotone(p: SpinnerPlacement, y1: real, y2: real)
    requires p.Valid() && y1 <= y2
    ensures p.refreshHoldPoint <= p.stopPoint ==>
              SpinnerOffset(p, Refreshing, y1) <= SpinnerOffset(p, Refreshing, y2)
    ensures p.stopPoint <= p.refreshHoldPoint ==>
              SpinnerOffset(p, Refreshing, y2) <= SpinnerOffset(p, Refreshing, y1)
  {
    NormalizeMonotone(0.0, p.refreshAt, y1, y2);
    LerpMonotone(p.refreshHoldPoint, p.stopPoint, Normalize(0.0, p.refreshAt, y1), Normalize(0.0, p.refreshAt, y2));
  }

  /** Vertical position of the system-style spinner: it moves up by exactly the
      distance the content moves down. */
  function SystemSpinnerY(refreshHoldPoint: real, position: real): (r: real)
    ensures position == 0.0 ==> r == refreshHoldPoint
    ensures r + position == refreshHoldPoint
  {
    -position + refreshHoldPoint
  }

  /** Opacity of both system-style spinners: fully visible while the animated
      mode is refreshing, otherwise fading in from the opacity clip point to
      full drag progress. */
  function SpinnerOpacity(opacityClipPoint: real, state: RefresherState): (r: real)
    requires opacityClipPoint < 1.0
    ensures 0.0 <= r <= 1.0
    ensures state.modeAnimated == Refreshing ==> r == 1.0
    ensures state.modeAnimated != Refreshing ==> (r == 0.0 <==> state.dragPosition <= opacityClipPoint)
    ensures state.dragPosition >= 1.0 ==> r == 1.0
  {
    if state.modeAnimated == Refreshing then 1.0
    else Normalize(opacityClipPoint, 1.0, state.dragPosition)
  }

  /** The opacity never decreases as the drag progresses. */
  lemma SpinnerOpacityMonotone(opacityClipPoint: real, mode: RefreshMode, modeAnimated: RefreshMode, d1: real, d2: real)
    requires opacityClipPoint < 1.0 && d1 <= d2
    ensures SpinnerOpacity(opacityClipPoint, RefresherState(mode, modeAnimated, d1))
            <= SpinnerOpacity(opacityClipPoint, RefresherState(mode, modeAnimated, d2))
  {
    NormalizeMonotone(opacityClipPoint, 1.0, d1, d2);
  }

  /** `System2StyleRefreshSpinner.offset`: parked at the hold point unless
      pulling, when it travels from 0 to the hold point with the drag. */
  function System2Offset(state: RefresherState, refreshHoldPoint: real): (r: real)
    ensures state.mode != Pulling ==> r == refreshHoldPoint
    ensures state.mode == Pulling && state.dragPosition == 0.0 ==> r == 0.0
    ensures state.mode == Pulling && state.dragPosition == 1.0 ==> r == refreshHoldPoint
    ensures state.mode == Pulling && 0.0 <= state.dragPosition <= 1.0 ==>
              Min(0.0, refreshHoldPoint) <= r <= Max(0.0, refreshHoldPoint)
  {
    match state.mode
    case Refreshing => refreshHoldPoint
    case NotRefreshing => refreshHoldPoint
    case Pulling =>
      var r := Lerp(0.0, refreshHoldPoint, state.dragPosition);
      assert 0.0 <= state.dragPosition <= 1.0 ==> Min(0.0, refreshHoldPoint) <= r <= Max(0.0, refreshHoldPoint) by {
        if 0.0 <= state.dragPosition <= 1.0 {
          LerpBetween(0.0, refreshHoldPoint, state.dragPosition);
        }
      }
      r
  }

  /** While pulling, the System2 spinner moves towards the hold point as the
      drag progresses. */
  lemma System2OffsetMonotone(refreshHoldPoint: real, modeAnimated: RefreshMode, d1: real, d2: real)
    requires 0.0 <= refreshHoldPoint && d1 <= d2
    ensures System2Offset(RefresherState(Pulling, modeAnimated, d1), refreshHoldPoint)
            <= System2Offset(RefresherState(Pulling, modeAnimated, d2), refreshHoldPoint)
  {
    LerpMonotone(0.0, refreshHoldPoint, d1, d2);
  }
}
