/**
 The video player component: how it keeps the media element in step with the
 session (the seek threshold and the play/pause effect), its own volume and
 mute state, the choice of overlays to draw at the current time, and its
 `m:ss` clock. The media element is represented by the values it reports and
 the commands it is given.
 */
module VideoPlayer {
  import opened Prelude
  import opened Text
  import opened Seqs
  import opened Media

  // ---------------------------------------------------------------------------
  // Position sync

  /** A session time closer than this to the element's own position is not pushed. */
  const SeekTolerance: real := 0.5

  /**
   The effect run when the session's `currentTime` changes: `Some(t)` means the
   element's position is overwritten with `t`, `None` that it is left alone.
   */
  function SeekPush(elementTime: real, currentTime: real): (push: Option<real>)
    ensures push.Some? <==> Abs(elementTime - currentTime) > SeekTolerance
    ensures push.Some? ==> push.value == currentTime
  {
    if Abs(elementTime - currentTime) > SeekTolerance then Some(currentTime) else None
  }

  /** The element's position once the sync effect has run. */
  function SyncedElementTime(elementTime: real, currentTime: real): real {
    match SeekPush(elementTime, currentTime)
    case Some(t) => t
    case None => elementTime
  }

  /**
   After the sync effect the element is within the tolerance of the session's
   time, it only ever moves to that time, and running the effect again pushes
   nothing.
   */
  lemma SyncSettles(elementTime: real, currentTime: real)
    ensures var e := SyncedElementTime(elementTime, currentTime);
      && Abs(e - currentTime) <= SeekTolerance
      && (e == elementTime || e == currentTime)
      && SeekPush(e, currentTime) == None
  {
  }

  // ---------------------------------------------------------------------------
  // Play / pause

  datatype MediaCommand = Play | Pause

  /**
   What the play-state effect does: the command sent to the element, and
   whether the player calls back `onPlayPause` because the element refused to
   play (its `play()` promise rejected). The effect also lists `onPlayPause`
   among its dependencies, a function the page makes afresh on every render,
   so it runs after every render of the page and not only when the play flag
   changes; running it again with the same flag sends the same command.
   */
  datatype PlaybackEffect = PlaybackEffect(command: MediaCommand, togglesBack: bool)

  function PlaybackOnChange(isPlaying: bool, refused: bool): (e: PlaybackEffect)
    ensures e.command == Play <==> isPlaying
    ensures e.togglesBack <==> isPlaying && refused
  {
    if isPlaying then PlaybackEffect(Play, refused) else PlaybackEffect(Pause, false)
  }

  // ---------------------------------------------------------------------------
  // Volume and mute

  /** The player's stored volume and mute flag, and the volume the element plays at. */
  datatype Audio = Audio(volume: real, isMuted: bool, elementVolume: real)

  const InitialAudio: Audio := Audio(1.0, false, 1.0)

  /** Volume used when unmuting with a stored volume of zero. */
  const FallbackVolume: real := 0.5

  /** The volume slider moved to `v`. */
  function ChangeVolume(a: Audio, v: real): (r: Audio)
    ensures r.volume == v && r.elementVolume == v
    ensures r.isMuted <==> v == 0.0
  {
    Audio(v, v == 0.0, v)
  }

  /** The mute button: muting silences the element, unmuting restores the stored volume. */
  function ToggleMute(a: Audio): (r: Audio)
    ensures r.isMuted == !a.isMuted
    ensures r.isMuted ==> r.volume == a.volume && r.elementVolume == 0.0
    ensures !r.isMuted ==> r.elementVolume == r.volume
    ensures !r.isMuted ==> r.volume == (if a.volume == 0.0 then FallbackVolume else a.volume)
  {
    if !a.isMuted then a.(isMuted := true, elementVolume := 0.0)
    else
      var v := if a.volume == 0.0 then FallbackVolume else a.volume;
      Audio(v, false, v)
  }

  /** The value the volume slider shows: zero while muted, the stored volume otherwise. */
  function SliderValue(a: Audio): (r: real)
    ensures a.isMuted ==> r == 0.0
    ensures !a.isMuted ==> r == a.volume
  {
    if a.isMuted then 0.0 else a.volume
  }

  /**
   The audio state the player keeps: a stored volume in the slider's range,
   audible whenever not muted, and an element playing at what the slider shows.
   */
  predicate AudioInv(a: Audio) {
    && 0.0 <= a.volume <= 1.0
    && (!a.isMuted ==> a.volume > 0.0)
    && a.elementVolume == SliderValue(a)
  }

  /** The player starts at full volume, unmuted: the invariant holds from the start. */
  lemma InitialAudioInv()
    ensures AudioInv(InitialAudio)
  {
  }

  /** Every control preserves the invariant: a slider move within 0..1 and a mute toggle. */
  lemma AudioInvPreserved(a: Audio, v: real)
    requires AudioInv(a)
    requires 0.0 <= v <= 1.0
    ensures AudioInv(ChangeVolume(a, v))
    ensures AudioInv(ToggleMute(a))
  {
  }

  /** Muting then unmuting restores the volume that was set before muting. */
  lemma MuteRoundTrip(a: Audio)
    requires AudioInv(a) && !a.isMuted
    ensures ToggleMute(ToggleMute(a)) == a
  {
  }

  /** Unmuting always leaves the element audible, even after the slider reached zero. */
  lemma UnmuteIsAudible(a: Audio)
    requires AudioInv(a) && a.isMuted
    ensures ToggleMute(a).volume > 0.0
    ensures ToggleMute(a).elementVolume == ToggleMute(a).volume
    ensures SliderValue(ToggleMute(a)) > 0.0
  {
  }

  // ---------------------------------------------------------------------------
  // Overlay visibility

  /** An overlay is drawn when the time lies in its window, both ends included. */
  predicate ShowsAt(o: TextOverlay, time: real) {
    o.timing.start <= time <= o.timing.end
  }

  function ShowsAtTime(time: real): TextOverlay -> bool {
    o => ShowsAt(o, time)
  }

  /** The overlays drawn at `time`, in list order. */
  function VisibleOverlays(overlays: seq<TextOverlay>, time: real): (r: seq<TextOverlay>)
    ensures forall i :: 0 <= i < |r| ==> ShowsAt(r[i], time) && r[i] in overlays
    ensures forall i :: 0 <= i < |overlays| && ShowsAt(overlays[i], time) ==> overlays[i] in r
  {
    Filter(overlays, ShowsAtTime(time))
  }

  /** Visibility keeps list order: the visible part of a concatenation is the concatenation of the visible parts. */
  lemma VisibleKeepsOrder(a: seq<TextOverlay>, b: seq<TextOverlay>, time: real)
    ensures VisibleOverlays(a + b, time) == VisibleOverlays(a, time) + VisibleOverlays(b, time)
  {
    FilterConcat(a, b, ShowsAtTime(time));
  }

  /** An overlay timed 1.0 to 3.0 shows at both ends of its window and not just outside it. */
  lemma InclusiveWindow(o: TextOverlay)
    requires o.timing == Timing(1.0, 3.0)
    ensures VisibleOverlays([o], 1.0) == [o] && VisibleOverlays([o], 3.0) == [o]
    ensures VisibleOverlays([o], 0.999) == [] && VisibleOverlays([o], 3.001) == []
  {
  }

  // ---------------------------------------------------------------------------
  // Clock

  /** The player's `formatTime`: whole minutes, a colon, and the whole seconds padded to two digits. */
  function FormatClock(time: real): string {
    IntToDecimal(Floor(time / 60.0)) + ":" + PadStart2(IntToDecimal(Floor(Rem(time, 60.0))))
  }

  /** For a non-negative time the seconds field is `Floor(time)` less the whole minutes. */
  lemma ClockFields(time: real)
    requires time >= 0.0
    ensures Floor(time / 60.0) >= 0
    ensures Floor(Rem(time, 60.0)) == Floor(time) - 60 * Floor(time / 60.0)
    ensures 0 <= Floor(Rem(time, 60.0)) < 60
  {
    var m := Floor(time / 60.0);
    RemOfNonNegative(time, 60.0);
    FloorShift(time, 60 * m);
  }

  /** The text before the seconds field of an `m:ss` clock. */
  function MinutesField(s: string): string
    requires |s| >= 3
  {
    s[..|s| - 3]
  }

  /** The last two characters of an `m:ss` clock. */
  function SecondsField(s: string): string
    requires |s| >= 2
  {
    s[|s| - 2..]
  }

  /** The text `m:ss` of whole minutes and seconds splits into those two decimal fields. */
  lemma ClockTextFields(m: int, sec: int)
    requires m >= 0 && 0 <= sec < 60
    ensures var s := IntToDecimal(m) + ":" + PadStart2(IntToDecimal(sec));
      && |s| >= 4 && s[|s| - 3] == ':'
      && s[..|s| - 3] == NatToDecimal(m) && s[|s| - 2..] == PadStart2(NatToDecimal(sec))
  {
    PaddedDecimal(sec);
    JoinedParts(IntToDecimal(m), ':', PadStart2(IntToDecimal(sec)));
  }

  /** The text `m:ss` of whole minutes and seconds reads back as those numbers. */
  lemma ClockTextReadsBack(m: int, sec: int)
    requires m >= 0 && 0 <= sec < 60
    ensures var s := IntToDecimal(m) + ":" + PadStart2(IntToDecimal(sec));
      && |s| >= 4 && s[|s| - 3] == ':'
      && IsDecimal(MinutesField(s)) && IsDecimal(SecondsField(s))
      && DecimalValue(MinutesField(s)) == m
      && DecimalValue(SecondsField(s)) == sec
  {
    ClockTextFields(m, sec);
    DecimalRoundTrip(m);
    PaddedDecimal(sec);
    var s := IntToDecimal(m) + ":" + PadStart2(IntToDecimal(sec));
    var x := s[..|s| - 3];
    var y := s[|s| - 2..];
    assert x == NatToDecimal(m);
    assert y == PadStart2(NatToDecimal(sec));
  }

  /**
   For a non-negative time the clock text reads back as minutes `m`, a colon
   and two digits `s` with `s < 60` and `60*m + s` the whole seconds elapsed.
   */
  lemma FormatClockReadsBack(time: real)
    requires time >= 0.0
    ensures |FormatClock(time)| >= 4
    ensures FormatClock(time)[|FormatClock(time)| - 3] == ':'
    ensures IsDecimal(MinutesField(FormatClock(time))) && IsDecimal(SecondsField(FormatClock(time)))
    ensures DecimalValue(MinutesField(FormatClock(time))) == Floor(time / 60.0)
    ensures DecimalValue(SecondsField(FormatClock(time))) < 60
    ensures 60 * DecimalValue(MinutesField(FormatClock(time))) + DecimalValue(SecondsField(FormatClock(time))) == Floor(time)
  {
    ClockFields(time);
    ClockTextReadsBack(Floor(time / 60.0), Floor(Rem(time, 60.0)));
  }
}
