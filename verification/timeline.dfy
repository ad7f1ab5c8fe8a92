/**
 The timeline: the mapping between a pixel offset on the track and a playback
 time, the mouse interaction that turns mouse events into seeks and new cut
 segments, the time markers along the track, and the bars drawn for segments
 and for the selection in progress.

 Every handler is modelled as one step of a machine over the component's four
 state slots (`isDragging`, `isSelecting`, `selectionStart`, `tempEnd`). Each
 step sees the state the previous event left behind. A mouse position is the
 event's `clientX` minus the track's left edge.
 */
module Timeline {
  import opened Prelude
  import opened Text
  import VideoPlayer

  /** The track's measured width in pixels and the video's duration in seconds. */
  datatype Track = Track(width: real, duration: real)

  // ---------------------------------------------------------------------------
  // Pixel <-> time

  /** `getTimeFromPosition`: the offset's fraction of the track, clamped to `[0, 1]`, times the duration. */
  function TimeFromPosition(track: Track, x: real): (t: real)
    requires track.width > 0.0
    ensures track.duration >= 0.0 ==> 0.0 <= t <= track.duration
    ensures x <= 0.0 ==> t == 0.0
    ensures x >= track.width ==> t == track.duration
  {
    var fraction := Max(0.0, Min(1.0, x / track.width));
    FractionOfDuration(fraction, track.duration);
    OffTrackFraction(x, track.width);
    fraction * track.duration
  }

  lemma OffTrackFraction(x: real, w: real)
    requires w > 0.0
    ensures x <= 0.0 ==> x / w <= 0.0
    ensures x >= w ==> x / w >= 1.0
  {
    if x <= 0.0 {
      DivLeft(x, 0.0, w);
    }
    if x >= w {
      DivLeft(w, x, w);
    }
  }

  lemma FractionOfDuration(f: real, d: real)
    requires 0.0 <= f <= 1.0
    ensures d >= 0.0 ==> 0.0 <= f * d <= d
  {
    if d >= 0.0 {
      MulLeft(0.0, f, d);
      MulLeft(f, 1.0, d);
      assert d * f == f * d;
    }
  }

  /** Further right on the track never means an earlier time. */
  lemma TimeFromPositionMonotone(track: Track, x1: real, x2: real)
    requires track.width > 0.0 && track.duration >= 0.0
    requires x1 <= x2
    ensures TimeFromPosition(track, x1) <= TimeFromPosition(track, x2)
  {
    var w := track.width;
    var d := track.duration;
    if 0.0 < x1 && x2 < w {
      // Strictly inside the track no clamping happens.
      DivLeft(x1, x2, w);
      UnitFraction(x1, w);
      UnitFraction(x2, w);
      calc {
        TimeFromPosition(track, x1);
        (x1 / w) * d;
      <= { ScaleMonotone(x1 / w, x2 / w, d); }
        (x2 / w) * d;
        TimeFromPosition(track, x2);
      }
    } else if x1 <= 0.0 {
      assert TimeFromPosition(track, x1) == 0.0;
      assert TimeFromPosition(track, x2) >= 0.0;
    } else {
      assert TimeFromPosition(track, x2) == d;
      assert TimeFromPosition(track, x1) <= d;
    }
  }

  lemma ScaleMonotone(a: real, b: real, d: real)
    requires a <= b && 0.0 <= d
    ensures a * d <= b * d
  {
    MulLeft(a, b, d);
    assert a * d == d * a && b * d == d * b;
  }

  /** `getPositionFromTime`: the time as a percentage of the duration. */
  function PercentFromTime(duration: real, time: real): (p: real)
    requires duration > 0.0
    ensures 0.0 <= time <= duration ==> 0.0 <= p <= 100.0
    ensures time == 0.0 ==> p == 0.0
    ensures time == duration ==> p == 100.0
  {
    UnitFraction(time, duration);
    (time / duration) * 100.0
  }

  lemma UnitFraction(time: real, duration: real)
    requires duration > 0.0
    ensures 0.0 <= time <= duration ==> 0.0 <= time / duration <= 1.0
  {
    if 0.0 <= time <= duration {
      DivLeft(0.0, time, duration);
      DivLeft(time, duration, duration);
    }
  }

  /**
   Mapping a time in `[0, duration]` to its pixel offset on the track and back
   gives the same time: the two conversions are inverse on the track.
   */
  lemma PositionRoundTrip(track: Track, time: real)
    requires track.width > 0.0 && track.duration > 0.0
    requires 0.0 <= time <= track.duration
    ensures TimeFromPosition(track, PercentFromTime(track.duration, time) / 100.0 * track.width) == time
  {
    var d := track.duration;
    var w := track.width;
    var p := PercentFromTime(d, time);
    var x := p / 100.0 * w;
    assert x / w == time / d;
    UnitFraction(time, d);
    assert (time / d) * d == time;
  }

  // ---------------------------------------------------------------------------
  // Mouse interaction

  datatype State = State(isDragging: bool, isSelecting: bool, selectionStart: Option<real>, tempEnd: Option<real>)

  /** The state at mount, and after a completed selection. */
  const Initial: State := State(false, false, None, None)

  datatype Event =
    | MouseDown(x: real, shift: bool)
    | MouseMove(x: real)
    | MouseUp
    | MouseLeave
    | Click(x: real)

  /** What a step asks of the session: `onTimeChange` or `onSegmentCreate`. */
  datatype Action = Seek(time: real) | CreateSegment(start: real, end: real)

  datatype Output = Output(state: State, actions: seq<Action>)

  /** A selection must span more than this many seconds to become a segment. */
  const MinSegmentSpan: real := 0.2

  /** The five mouse handlers of the track as one transition function. */
  function Step(track: Track, st: State, ev: Event): (out: Output)
    requires track.width > 0.0
    ensures |out.actions| <= 1
  {
    match ev
    case MouseDown(x, shift) =>
      var t := TimeFromPosition(track, x);
      if shift && !st.isSelecting then
        Output(State(true, true, Some(t), Some(t)), [])
      else
        Output(st.(isDragging := true), [Seek(t)])
    case MouseMove(x) =>
      if !st.isDragging then Output(st, [])
      else
        var t := TimeFromPosition(track, x);
        if st.isSelecting then Output(st.(tempEnd := Some(t)), [])
        else Output(st, [Seek(t)])
    case MouseUp =>
      if st.isSelecting && st.selectionStart.Some? && st.tempEnd.Some? then
        var start := Min(st.selectionStart.value, st.tempEnd.value);
        var end := Max(st.selectionStart.value, st.tempEnd.value);
        Output(Initial, if end - start > MinSegmentSpan then [CreateSegment(start, end)] else [])
      else
        Output(st.(isDragging := false), [])
    case MouseLeave =>
      if st.isDragging && !st.isSelecting then Output(st.(isDragging := false), [])
      else Output(st, [])
    case Click(x) =>
      Output(st, [Seek(TimeFromPosition(track, x))])
  }

  /** Feeds a sequence of events through `Step`, collecting the actions in order. */
  function Run(track: Track, st: State, events: seq<Event>): Output
    requires track.width > 0.0
    decreases |events|
  {
    if |events| == 0 then Output(st, [])
    else
      var first := Step(track, st, events[0]);
      var rest := Run(track, first.state, events[1..]);
      Output(rest.state, first.actions + rest.actions)
  }

  predicate OnTrack(duration: real, t: real) {
    0.0 <= t <= duration
  }

  /**
   The state the handlers keep: selecting exactly when both draft ends are set
   (they are set together and cleared together), selecting only while a drag
   is in progress, and draft ends on the track.
   */
  predicate Inv(duration: real, st: State) {
    && (st.isSelecting <==> st.selectionStart.Some? && st.tempEnd.Some?)
    && (st.isSelecting ==> st.isDragging)
    && (st.selectionStart.Some? ==> OnTrack(duration, st.selectionStart.value))
    && (st.tempEnd.Some? ==> OnTrack(duration, st.tempEnd.value))
  }

  /** Every step keeps the invariant, and every action it emits stays on the track. */
  lemma StepKeepsInv(track: Track, st: State, ev: Event)
    requires track.width > 0.0 && track.duration >= 0.0
    requires Inv(track.duration, st)
    ensures Inv(track.duration, Step(track, st, ev).state)
    ensures forall t :: Seek(t) in Step(track, st, ev).actions ==> OnTrack(track.duration, t)
    ensures forall s, e :: CreateSegment(s, e) in Step(track, st, ev).actions ==>
      0.0 <= s && s + MinSegmentSpan < e && e <= track.duration
  {
  }

  /** A whole run keeps the invariant from any state that has it. */
  lemma {:induction false} RunKeepsInv(track: Track, st: State, events: seq<Event>)
    requires track.width > 0.0 && track.duration >= 0.0
    requires Inv(track.duration, st)
    ensures Inv(track.duration, Run(track, st, events).state)
    ensures forall s, e :: CreateSegment(s, e) in Run(track, st, events).actions ==>
      0.0 <= s && s + MinSegmentSpan < e && e <= track.duration
    decreases |events|
  {
    if |events| > 0 {
      var first := Step(track, st, events[0]);
      StepKeepsInv(track, st, events[0]);
      RunKeepsInv(track, first.state, events[1..]);
      var rest := Run(track, first.state, events[1..]);
      assert Run(track, st, events).actions == first.actions + rest.actions;
    }
  }

  /** Each event contributes at most one action to a run. */
  lemma {:induction false} RunEmitsAtMostOnePerEvent(track: Track, st: State, events: seq<Event>)
    requires track.width > 0.0
    ensures |Run(track, st, events).actions| <= |events|
    decreases |events|
  {
    if |events| > 0 {
      RunEmitsAtMostOnePerEvent(track, Step(track, st, events[0]).state, events[1..]);
    }
  }

  // The interaction seen as three modes.

  datatype Mode = Idle | Scrubbing | Selecting

  function ModeOf(st: State): Mode {
    if st.isSelecting then Selecting else if st.isDragging then Scrubbing else Idle
  }

  /**
   The interaction's transition table: shift-press from a mode other than
   Selecting starts a selection, any other press scrubs (a selection already
   in progress stays one), release always returns to Idle, and leaving the
   track ends a scrub but not a selection.
   */
  function NextMode(m: Mode, ev: Event): Mode {
    match ev
    case MouseDown(_, shift) => if shift || m == Selecting then Selecting else Scrubbing
    case MouseMove(_) => m
    case MouseUp => Idle
    case MouseLeave => if m == Scrubbing then Idle else m
    case Click(_) => m
  }

  /** Which events move the playhead in which mode. */
  predicate SeeksIn(m: Mode, ev: Event) {
    match ev
    case MouseDown(_, shift) => !shift || m == Selecting
    case MouseMove(_) => m == Scrubbing
    case MouseUp => false
    case MouseLeave => false
    case Click(_) => true
  }

  /**
   `Step` follows the transition table: the next mode, whether a seek is
   emitted and to where, and that segments are created only on release of a
   selection.
   */
  lemma StepFollowsTable(track: Track, st: State, ev: Event)
    requires track.width > 0.0
    requires Inv(track.duration, st)
    ensures ModeOf(Step(track, st, ev).state) == NextMode(ModeOf(st), ev)
    ensures (exists t :: Seek(t) in Step(track, st, ev).actions) <==> SeeksIn(ModeOf(st), ev)
    ensures forall t :: Seek(t) in Step(track, st, ev).actions ==>
      !ev.MouseUp? && !ev.MouseLeave? && t == TimeFromPosition(track, ev.x)
    ensures forall s, e :: CreateSegment(s, e) in Step(track, st, ev).actions ==>
      ev.MouseUp? && ModeOf(st) == Selecting
  {
    var out := Step(track, st, ev);
    if SeeksIn(ModeOf(st), ev) {
      assert Seek(TimeFromPosition(track, ev.x)) in out.actions;
    }
  }

  /**
   A shift-press outside a selection starts a draft at the pressed time and
   does not seek; any other press, including a shift-press during a
   selection, seeks there and keeps the rest of the state. Both start a drag.
   */
  lemma MouseDownEffect(track: Track, st: State, x: real, shift: bool)
    requires track.width > 0.0
    ensures var out := Step(track, st, MouseDown(x, shift));
      var t := TimeFromPosition(track, x);
      && out.state.isDragging
      && (shift && !st.isSelecting ==>
            out.state.isSelecting && out.state.selectionStart == out.state.tempEnd == Some(t)
            && out.actions == [])
      && (!(shift && !st.isSelecting) ==>
            out.state == st.(isDragging := true) && out.actions == [Seek(t)])
  {
  }

  /**
   A move without a drag changes nothing; during a selection it moves only the
   draft's end and does not seek; during a scrub it seeks and changes no state.
   */
  lemma MouseMoveEffect(track: Track, st: State, x: real)
    requires track.width > 0.0
    ensures var out := Step(track, st, MouseMove(x));
      var t := TimeFromPosition(track, x);
      && (!st.isDragging ==> out == Output(st, []))
      && (st.isDragging && st.isSelecting ==> out == Output(st.(tempEnd := Some(t)), []))
      && (st.isDragging && !st.isSelecting ==> out == Output(st, [Seek(t)]))
  {
  }

  /**
   Releasing ends the drag. Releasing a selection clears the draft and emits
   one segment exactly when the draft spans more than `MinSegmentSpan`; the
   segment runs from the earlier draft end to the later one, so a backward
   drag gives the same segment as a forward one.
   */
  lemma MouseUpEffect(track: Track, st: State)
    requires track.width > 0.0
    requires Inv(track.duration, st)
    ensures var out := Step(track, st, MouseUp);
      && !out.state.isDragging
      && (!st.isSelecting ==> out == Output(st.(isDragging := false), []))
      && (st.isSelecting ==>
            var a := st.selectionStart.value;
            var b := st.tempEnd.value;
            && out.state == Initial
            && (|out.actions| == 1 <==> Abs(a - b) > MinSegmentSpan)
            && forall act :: act in out.actions ==>
                 && act.CreateSegment? && act.start <= act.end
                 && ((act.start == a && act.end == b) || (act.start == b && act.end == a)))
  {
  }

  /**
   Leaving the track ends a scrub, but a selection in progress survives with
   its draft untouched (and so does its drag). Nothing is emitted.
   */
  lemma MouseLeaveEffect(track: Track, st: State)
    requires track.width > 0.0
    ensures var out := Step(track, st, MouseLeave);
      && out.actions == []
      && (st.isSelecting ==> out.state == st)
      && (!st.isSelecting ==> out.state == st.(isDragging := false))
  {
  }

  /** A click always seeks to the clicked time and leaves the interaction state alone. */
  lemma ClickEffect(track: Track, st: State, x: real)
    requires track.width > 0.0
    ensures Step(track, st, Click(x)) == Output(st, [Seek(TimeFromPosition(track, x))])
  {
  }

  // Scenarios on a 100-pixel track showing a 10-second video.

  const Track10s: Track := Track(100.0, 10.0)

  /** Shift-dragging backward from 3.0s to 1.0s creates the segment 1.0s to 3.0s. */
  lemma ReverseDragIsNormalised()
    ensures Run(Track10s, Initial, [MouseDown(30.0, true), MouseMove(10.0), MouseUp])
         == Output(Initial, [CreateSegment(1.0, 3.0)])
  {
    var evs := [MouseDown(30.0, true), MouseMove(10.0), MouseUp];
    assert evs[1..] == [MouseMove(10.0), MouseUp];
    assert evs[1..][1..] == [MouseUp];
  }

  /** A drag from 2.00s to 2.15s is too short to create anything; one to 2.30s creates a segment. */
  lemma SpanThreshold()
    ensures Run(Track10s, Initial, [MouseDown(20.0, true), MouseMove(21.5), MouseUp]) == Output(Initial, [])
    ensures Run(Track10s, Initial, [MouseDown(20.0, true), MouseMove(23.0), MouseUp])
         == Output(Initial, [CreateSegment(2.0, 2.3)])
  {
    var short := [MouseDown(20.0, true), MouseMove(21.5), MouseUp];
    assert short[1..] == [MouseMove(21.5), MouseUp];
    assert short[1..][1..] == [MouseUp];
    var long := [MouseDown(20.0, true), MouseMove(23.0), MouseUp];
    assert long[1..] == [MouseMove(23.0), MouseUp];
    assert long[1..][1..] == [MouseUp];
  }

  /**
   A selection survives leaving the track: moves after re-entry still extend
   the draft, and the next release creates the segment.
   */
  lemma SelectionSurvivesLeave()
    ensures Run(Track10s, Initial, [MouseDown(30.0, true), MouseLeave, MouseMove(60.0), MouseUp])
         == Output(Initial, [CreateSegment(3.0, 6.0)])
  {
    var evs := [MouseDown(30.0, true), MouseLeave, MouseMove(60.0), MouseUp];
    assert evs[1..] == [MouseLeave, MouseMove(60.0), MouseUp];
    assert evs[1..][1..] == [MouseMove(60.0), MouseUp];
    assert evs[1..][1..][1..] == [MouseUp];
  }

  /** A plain drag ends on leaving the track: later moves no longer seek. */
  lemma ScrubEndsOnLeave()
    ensures Run(Track10s, Initial, [MouseDown(30.0, false), MouseLeave, MouseMove(60.0)])
         == Output(Initial, [Seek(3.0)])
  {
    var evs := [MouseDown(30.0, false), MouseLeave, MouseMove(60.0)];
    assert evs[1..] == [MouseLeave, MouseMove(60.0)];
    assert evs[1..][1..] == [MouseMove(60.0)];
  }

  /**
   The browser's click after a shift-drag moves the playhead to where the
   button was released, right after the segment is created.
   */
  lemma SelectionThenClickSeeks()
    ensures Run(Track10s, Initial, [MouseDown(30.0, true), MouseMove(10.0), MouseUp, Click(10.0)])
         == Output(Initial, [CreateSegment(1.0, 3.0), Seek(1.0)])
  {
    var evs := [MouseDown(30.0, true), MouseMove(10.0), MouseUp, Click(10.0)];
    assert evs[1..] == [MouseMove(10.0), MouseUp, Click(10.0)];
    assert evs[1..][1..] == [MouseUp, Click(10.0)];
    assert evs[1..][1..][1..] == [Click(10.0)];
  }

  // ---------------------------------------------------------------------------
  // Time markers

  /**
   A marker on the track: its time, its left offset in percent of the track,
   and its caption on the captioned ones.
   */
  datatype Marker = Marker(time: real, left: real, caption: Option<string>)

  /** Markers every second up to a minute of video, every five seconds beyond. */
  function MarkerStep(duration: real): (step: real)
    ensures step == 1.0 || step == 5.0
    ensures step == 1.0 <==> duration <= 60.0
  {
    if duration <= 60.0 then 1.0 else 5.0
  }

  /** `toFixed(0)` of a non-negative number: rounded to the nearest whole number, halves up. */
  function ToFixed0(x: real): string
    requires x >= 0.0
  {
    NatToDecimal(Floor(x + 0.5))
  }

  /** A marker's caption: whole minutes, a colon, and the seconds within the minute to two digits. */
  function MarkerCaption(time: real): string
    requires time >= 0.0
  {
    IntToDecimal(Floor(time / 60.0)) + ":" + PadStart2(ToFixed0(Rem(time, 60.0)))
  }

  /** The `i`-th marker: at `i` steps, captioned on every fifth step or throughout a video of 20s or less. */
  function MarkerAt(duration: real, i: nat): Marker
    requires duration > 0.0
  {
    var time := i as real * MarkerStep(duration);
    assert time >= 0.0 by { MulLeft(0.0, i as real, MarkerStep(duration)); }
    Marker(time, PercentFromTime(duration, time),
           if i % 5 == 0 || duration <= 20.0 then Some(MarkerCaption(time)) else None)
  }

  /** The number of markers: whole steps within the duration, plus the one at zero. */
  function MarkerCount(duration: real): nat {
    var n := Floor(duration / MarkerStep(duration));
    if n < 0 then 0 else n + 1
  }

  /** Every marker lies on the track, so its offset is a percentage. */
  lemma MarkerOnTrack(duration: real, i: nat)
    requires duration > 0.0
    requires i < MarkerCount(duration)
    ensures 0.0 <= MarkerAt(duration, i).time <= duration
    ensures 0.0 <= MarkerAt(duration, i).left <= 100.0
  {
    var step := MarkerStep(duration);
    var n := Floor(duration / step);
    MulLeft(0.0, i as real, step);
    MulLeft(i as real, n as real, step);
    MulLeft(n as real, duration / step, step);
    assert step * (duration / step) == duration;
    assert i as real * step == step * i as real;
  }

  /** Later markers sit at later times and further right. */
  lemma MarkersIncrease(duration: real, i: nat, j: nat)
    requires duration > 0.0
    requires i < j
    ensures MarkerAt(duration, i).time < MarkerAt(duration, j).time
    ensures MarkerAt(duration, i).left < MarkerAt(duration, j).left
  {
    var step := MarkerStep(duration);
    MulLeftStrict(i as real, j as real, step);
    assert i as real * step == step * i as real && j as real * step == step * j as real;
    var a := i as real * step;
    var b := j as real * step;
    DivLeftStrict(a, b, duration);
    assert a / duration * 100.0 < b / duration * 100.0;
  }

  /** `renderTimeMarkers`, one marker per loop iteration. */
  method RenderTimeMarkers(duration: real) returns (markers: seq<Marker>)
    requires duration > 0.0
    ensures |markers| == MarkerCount(duration)
    ensures forall i :: 0 <= i < |markers| ==> markers[i] == MarkerAt(duration, i)
    ensures forall i :: 0 <= i < |markers| ==> 0.0 <= markers[i].time <= duration
    ensures forall i :: 0 <= i < |markers| ==> 0.0 <= markers[i].left <= 100.0
    ensures forall i, j :: 0 <= i < j < |markers| ==> markers[i].time < markers[j].time
    ensures forall i :: 0 <= i < |markers| ==>
      (markers[i].caption.Some? <==> i % 5 == 0 || duration <= 20.0)
  {
    var step := MarkerStep(duration);
    var numMarkers := Floor(duration / step);
    markers := [];
    var i := 0;
    while i <= numMarkers
      invariant 0 <= i <= MarkerCount(duration)
      invariant |markers| == i
      invariant forall k :: 0 <= k < i ==> markers[k] == MarkerAt(duration, k)
    {
      markers := markers + [MarkerAt(duration, i)];
      i := i + 1;
    }
    forall k | 0 <= k < |markers|
      ensures 0.0 <= markers[k].time <= duration && 0.0 <= markers[k].left <= 100.0
    {
      MarkerOnTrack(duration, k);
    }
    forall k, l | 0 <= k < l < |markers|
      ensures markers[k].time < markers[l].time
    {
      MarkersIncrease(duration, k, l);
    }
  }

  /**
   Marker times are whole seconds, and for those the marker's caption is the
   player's `m:ss` clock text.
   */
  lemma MarkerCaptionIsClock(time: real)
    requires time >= 0.0
    requires time.Floor as real == time
    ensures MarkerCaption(time) == VideoPlayer.FormatClock(time)
  {
    var r := Rem(time, 60.0);
    var k := Floor(time / 60.0);
    var n := time.Floor;
    RemOfNonNegative(time, 60.0);
    assert r == (n - 60 * k) as real;
    WholeRounding(n - 60 * k);
  }

  /** Rounding a whole number changes nothing. */
  lemma WholeRounding(m: int)
    ensures Floor(m as real + 0.5) == m
    ensures Floor(m as real) == m
  {
    var r := Floor(m as real + 0.5);
    assert r as real <= m as real + 0.5 < r as real + 1.0;
    assert r <= m && r > m - 1;
  }

  // ---------------------------------------------------------------------------
  // Segment and selection bars

  /** A bar on the track, as left offset and width in percent of the track. */
  datatype Bar = Bar(left: real, width: real)

  /** The bar drawn for a stored segment. */
  function SegmentBar(duration: real, start: real, end: real): (b: Bar)
    requires duration > 0.0
  {
    Bar(PercentFromTime(duration, start), PercentFromTime(duration, end - start))
  }

  /** The bar drawn for the selection in progress, if any. */
  function DraftBar(duration: real, st: State): Option<Bar>
    requires duration > 0.0
  {
    if st.isSelecting && st.selectionStart.Some? && st.tempEnd.Some? then
      var a := st.selectionStart.value;
      var b := st.tempEnd.value;
      Some(Bar(PercentFromTime(duration, Min(a, b)), PercentFromTime(duration, Abs(b - a))))
    else None
  }

  /** A segment's bar ends where the segment's end time sits on the track. */
  lemma SegmentBarEndsAtEnd(duration: real, start: real, end: real)
    requires duration > 0.0
    ensures SegmentBar(duration, start, end).left + SegmentBar(duration, start, end).width
         == PercentFromTime(duration, end)
  {
    assert start / duration + (end - start) / duration == end / duration;
  }

  /**
   The selection bar previews the segment the release will create: when the
   release creates a segment, its bar is exactly the bar that was drawn for
   the draft.
   */
  lemma DraftBarPreviewsSegment(track: Track, st: State)
    requires track.width > 0.0 && track.duration > 0.0
    requires Inv(track.duration, st) && st.isSelecting
    ensures forall s, e :: CreateSegment(s, e) in Step(track, st, MouseUp).actions ==>
      DraftBar(track.duration, st) == Some(SegmentBar(track.duration, s, e))
  {
    var a := st.selectionStart.value;
    var b := st.tempEnd.value;
    assert Max(a, b) - Min(a, b) == Abs(b - a);
  }
}
