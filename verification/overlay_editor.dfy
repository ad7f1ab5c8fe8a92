/**
 The text-overlay form: its fields, the controls that change them, the add
 button that turns the form into an overlay (without id) for the session, and
 the `m:ss.cc` clock shown under the timing inputs.
 */
module OverlayEditor {
  import opened Prelude
  import opened Text
  import opened Media
  import VideoPlayer

  /** The eight swatches of the color picker, in display order. */
  const TextColors: seq<string> :=
    ["#FFFFFF", "#000000", "#FF3B30", "#4CD964", "#007AFF", "#FFCC00", "#FF9500", "#5856D6"]

  const MinFontSize: int := 12
  const MaxFontSize: int := 72
  const DefaultFontSize: int := 24
  const DefaultColor: string := "#FFFFFF"

  /** How many seconds after the current time a new overlay ends by default. */
  const DefaultSpan: real := 5.0

  /** Where every new overlay is placed: the middle of the frame. */
  const Center: Position := Position(0.5, 0.5)

  /** The form's five state slots. */
  datatype Form = Form(text: string, fontSize: int, color: string, startTime: real, endTime: real)

  /**
   The form as the editor first renders it at playback time `currentTime`:
   empty text, default size and color, starting now and ending five seconds
   later or at the end of the video, whichever comes first.
   */
  function InitialForm(currentTime: real, duration: real): (f: Form)
    ensures f.text == "" && f.fontSize == DefaultFontSize && f.color == DefaultColor
    ensures f.startTime == currentTime
    ensures f.endTime <= currentTime + DefaultSpan && f.endTime <= duration
    ensures f.endTime == currentTime + DefaultSpan || f.endTime == duration
  {
    Form("", DefaultFontSize, DefaultColor, currentTime, Min(currentTime + DefaultSpan, duration))
  }

  /** What the user can do to the form's fields. */
  datatype FormEvent =
    | EditText(text: string)
    | SlideFontSize(size: int)
    | PickColor(color: string)
    | EditStart(time: real)
    | EditEnd(time: real)

  /**
   The values the controls can deliver: the slider whole sizes from 12 to 72,
   the swatches one of the eight colors. The text and the two number inputs
   take any value (their `min`/`max` are hints the browser does not enforce).
   */
  predicate Admissible(ev: FormEvent) {
    match ev
    case SlideFontSize(size) => MinFontSize <= size <= MaxFontSize
    case PickColor(color) => color in TextColors
    case _ => true
  }

  function ApplyFormEvent(f: Form, ev: FormEvent): (g: Form)
    ensures ev.EditText? ==> g == f.(text := ev.text)
    ensures ev.SlideFontSize? ==> g == f.(fontSize := ev.size)
    ensures ev.PickColor? ==> g == f.(color := ev.color)
    ensures ev.EditStart? ==> g == f.(startTime := ev.time)
    ensures ev.EditEnd? ==> g == f.(endTime := ev.time)
  {
    match ev
    case EditText(text) => f.(text := text)
    case SlideFontSize(size) => f.(fontSize := size)
    case PickColor(color) => f.(color := color)
    case EditStart(time) => f.(startTime := time)
    case EditEnd(time) => f.(endTime := time)
  }

  /** A size the slider allows and a color from the swatches. */
  predicate WellFormed(f: Form) {
    MinFontSize <= f.fontSize <= MaxFontSize && f.color in TextColors
  }

  /** The form starts well formed, whatever the time and duration it is opened with. */
  lemma InitialFormWellFormed(currentTime: real, duration: real)
    ensures WellFormed(InitialForm(currentTime, duration))
  {
    assert TextColors[0] == DefaultColor;
  }

  /** Every control input keeps the form well formed. */
  lemma FormStaysWellFormed(f: Form, ev: FormEvent)
    requires WellFormed(f) && Admissible(ev)
    ensures WellFormed(ApplyFormEvent(f, ev))
  {
  }

  /** The add button's effect: the form afterwards and the overlay handed to `onAddOverlay`, if any. */
  datatype AddOutcome = AddOutcome(form: Form, emitted: Option<OverlayDraft>)

  /**
   `handleAddText`. A text that is empty or only whitespace emits nothing and
   leaves the form alone. Otherwise the overlay carries the text as typed, the
   center position, the chosen color and size and the two times exactly as
   entered, and only the text field is cleared.
   */
  function AddText(f: Form): (r: AddOutcome)
    ensures r.emitted.None? <==> IsBlank(f.text)
    ensures r.emitted.None? ==> r.form == f
    ensures r.emitted.Some? ==>
      && r.emitted.value.text == f.text
      && r.emitted.value.position == Center
      && r.emitted.value.style == Style(f.color, f.fontSize)
      && r.emitted.value.timing == Timing(f.startTime, f.endTime)
    ensures r.emitted.Some? ==>
      r.form.text == "" && r.form == f.(text := "")
  {
    TrimEmptyIffBlank(f.text);
    if Trim(f.text) == "" then AddOutcome(f, None)
    else
      AddOutcome(f.(text := ""),
                 Some(OverlayDraft(f.text, Center, Style(f.color, f.fontSize), Timing(f.startTime, f.endTime))))
  }

  /** The add button is enabled exactly when pressing it would emit an overlay. */
  predicate AddEnabled(f: Form) {
    Trim(f.text) != ""
  }

  lemma AddEnabledIffEmits(f: Form)
    ensures AddEnabled(f) <==> AddText(f).emitted.Some?
    ensures AddEnabled(f) <==> !IsBlank(f.text)
  {
    TrimEmptyIffBlank(f.text);
  }

  /**
   Pressing add twice emits at most one overlay: the first successful press
   clears the text, so the second emits nothing and changes nothing.
   */
  lemma {:induction false} SecondAddEmitsNothing(f: Form)
    requires !IsBlank(f.text)
    ensures AddText(AddText(f).form).emitted == None
    ensures AddText(AddText(f).form).form == AddText(f).form
  {
    var g := AddText(f).form;
    assert IsBlank(g.text);
  }

  /** Adding keeps the form well formed, and an emitted overlay has an allowed size and color. */
  lemma AddKeepsWellFormed(f: Form)
    requires WellFormed(f)
    ensures WellFormed(AddText(f).form)
    ensures AddText(f).emitted.Some? ==>
      var o := AddText(f).emitted.value;
      MinFontSize <= o.style.fontSize <= MaxFontSize && o.style.color in TextColors
  {
  }

  // ---------------------------------------------------------------------------
  // Clock with hundredths

  /**
   The editor's `formatTime`: the player's minutes and seconds, then a point
   and the hundredths of the second (`time % 1` scaled and floored), padded to
   two digits.
   */
  function FormatPrecise(time: real): string {
    var minutes := Floor(time / 60.0);
    var seconds := Floor(Rem(time, 60.0));
    var hundredths := Floor(Rem(time, 1.0) * 100.0);
    IntToDecimal(minutes) + ":" + PadStart2(IntToDecimal(seconds)) + "." + PadStart2(IntToDecimal(hundredths))
  }

  /** The whole hundredths in the fractional part of a non-negative time. */
  function Hundredths(time: real): (c: int)
    requires time >= 0.0
    ensures 0 <= c < 100
  {
    var frac := time - Floor(time) as real;
    MulLeft(0.0, frac, 100.0);
    MulLeftStrict(frac, 1.0, 100.0);
    Floor(frac * 100.0)
  }

  lemma FractionalRem(time: real)
    requires time >= 0.0
    ensures Rem(time, 1.0) == time - Floor(time) as real
  {
    RemOfNonNegative(time, 1.0);
    assert time / 1.0 == time;
  }

  /**
   For a non-negative time the precise clock is the player's `m:ss` clock, a
   point and two digits that read back as the whole hundredths of the second.
   */
  lemma FormatPreciseExtendsClock(time: real)
    requires time >= 0.0
    ensures |FormatPrecise(time)| >= 3
    ensures FormatPrecise(time)[..|FormatPrecise(time)| - 3] == VideoPlayer.FormatClock(time)
    ensures FormatPrecise(time)[|FormatPrecise(time)| - 3] == '.'
    ensures IsDecimal(FormatPrecise(time)[|FormatPrecise(time)| - 2..])
    ensures DecimalValue(FormatPrecise(time)[|FormatPrecise(time)| - 2..]) == Hundredths(time)
  {
    var c := Hundredths(time);
    FractionalRem(time);
    assert Floor(Rem(time, 1.0) * 100.0) == c;
    PaddedDecimal(c);
    var clock := VideoPlayer.FormatClock(time);
    var tail := PadStart2(IntToDecimal(c));
    assert FormatPrecise(time) == clock + "." + tail;
    JoinedParts(clock, '.', tail);
  }
}
