# Video editor core in Dafny

A model of the editing logic of a small browser video editor, written as pure
functions over immutable records with the properties the components promise
proved about them. The editor is a React page (`Index.tsx`) that holds the
session and four children:

- the **video player** keeps the media element in step with the session's
  playback position and play flag, owns its volume and mute state, draws the
  text overlays whose time window contains the current time, and shows an
  `m:ss` clock;
- the **timeline** maps mouse positions to times and back, turns mouse
  events into seeks and, with shift held, into new cut segments, and draws
  time markers and segment bars;
- the **text-overlay form** builds an overlay from its fields when its text
  is not blank, and shows `m:ss.cc` clocks;
- the **uploader** accepts a chosen file when its declared media type begins
  with `video/`.

The session appends cut segments and overlays as given, removes them by list
position or by id, and exports when a video is loaded, naming the result after
the upload with its last extension removed and `_edited.mp4` appended.

Modules, one per component plus shared vocabulary:

| file | module | contents |
|---|---|---|
| prelude.dfy | `Prelude` | `Option`, `Math.min/max/abs/floor`, the JavaScript `%` on reals |
| text.dfy | `Text` | decimal `toString`, `padStart(2, '0')`, `startsWith`, `trim` |
| seqs.dfy | `Seqs` | `filter` by element and by position |
| media.dfy | `Media` | cut segments, overlays, overlay drafts, files |
| player.dfy | `VideoPlayer` | seek sync, play/pause, volume and mute, visible overlays, `m:ss` |
| timeline.dfy | `Timeline` | pixel/time maps, the mouse state machine, markers, bars |
| overlay_editor.dfy | `OverlayEditor` | the form, its controls, the add button, `m:ss.cc` |
| uploader.dfy | `VideoUploader` | the accept/refuse decision |
| session.dfy | `EditorSession` | the page's state and commands, the export guard and file name |

Times are exact reals. React's state updates are modelled as steps that each
see the state the previous one left. Browser facilities become parameters:
the object URL made for an upload (`url`), the clock reading used for overlay
ids (`now`), whether the element refuses to play (`refused`), and the
element's own playback position (`elementTime`).

## Model

| member | source | states |
|---|---|---|
| Prelude.Floor | src/components/VideoPlayer.tsx:126 | `Math.floor`: the greatest whole number not above the argument |
| Prelude.Rem | src/components/VideoPlayer.tsx:127 | JavaScript `%` on reals: the remainder has the dividend's sign, is smaller than the divisor in size, and leaves a whole multiple of the divisor |
| Prelude.Min | src/components/Timeline.tsx:38 | `Math.min`: the result is one of the two arguments and not above either |
| Prelude.Max | src/components/Timeline.tsx:38 | `Math.max`: the result is one of the two arguments and not below either |
| Prelude.Abs | src/components/VideoPlayer.tsx:98 | `Math.abs`: the argument or its negation, never negative |
| Text.NatToDecimal | src/components/VideoPlayer.tsx:128 | `toString()` of a whole number gives decimal digits, with no leading zero, one digit exactly below 10 |
| Text.DecimalRoundTrip | src/components/VideoPlayer.tsx:128 | reading back the digits of `n` gives `n` |
| Text.DecimalInjective | src/pages/Index.tsx:61 | two numbers have the same digits exactly when they are equal |
| Text.PadStart2 | src/components/VideoPlayer.tsx:128 | `padStart(2, '0')` keeps the text as its tail and fills zeros in front up to two characters |
| Text.PaddedDecimal | src/components/VideoPlayer.tsx:128 | a number below 100 padded to two digits is two decimal digits reading back as the number |
| Text.IntToDecimal | src/components/VideoPlayer.tsx:128 | `toString()` of a whole number: a minus sign exactly for negatives, decimal digits otherwise |
| Text.TrimStart | src/components/TextOverlayEditor.tsx:67 | the leading-trim result is a suffix, what was dropped is blank, and it starts with a non-blank |
| Text.TrimEnd | src/components/TextOverlayEditor.tsx:67 | the trailing-trim result is a prefix, what was dropped is blank, and it ends with a non-blank |
| Text.TrimEmptyIffBlank | src/components/TextOverlayEditor.tsx:67 | `trim()` gives the empty string exactly when every character is whitespace |
| Text.StartsWith | src/components/VideoUploader.tsx:23 | `startsWith`: the prefix fits and the string's first characters are the prefix; its use is the `VideoUploader.HandleFileChange` row |
| Text.Trim | src/components/TextOverlayEditor.tsx:67 | `trim()`: the trailing trim of the leading trim; its properties are the rows for `TrimStart`, `TrimEnd` and `TrimEmptyIffBlank` |
| Seqs.Filter | src/pages/Index.tsx:74 | `filter` keeps only elements satisfying the predicate, all drawn from the input, and every satisfying element survives |
| Seqs.FilterConcat | src/components/VideoPlayer.tsx:153-155 | filtering preserves relative order: filtering a concatenation concatenates the filtered parts |
| Seqs.FilterKeepsAll | src/pages/Index.tsx:74 | filtering with a predicate that holds of every element changes nothing |
| Seqs.FilterIdempotent | src/pages/Index.tsx:74 | filtering twice is filtering once |
| Seqs.RemoveAt | src/pages/Index.tsx:70 | dropping position `i` gives the elements before and after it; an index off the list drops nothing |
| Media.WithId | src/pages/Index.tsx:62 | `{ ...overlay, id }` carries the given id and every field of the draft |
| VideoPlayer.SeekPush | src/components/VideoPlayer.tsx:94-101 | the element is moved to the session time exactly when the two differ by more than half a second |
| VideoPlayer.SyncSettles | src/components/VideoPlayer.tsx:94-101 | after the sync the element is within half a second of the session time, moved only to that time, and a second sync pushes nothing |
| VideoPlayer.PlaybackOnChange | src/components/VideoPlayer.tsx:80-92 | the element is told to play exactly when the flag says playing, and the flag is toggled back exactly when playing was refused |
| VideoPlayer.ChangeVolume | src/components/VideoPlayer.tsx:103-110 | the slider stores the volume and plays at it, and mutes exactly when it is zero |
| VideoPlayer.ToggleMute | src/components/VideoPlayer.tsx:112-123 | muting silences the element and keeps the stored volume; unmuting plays at the stored volume, or at 0.5 when that was zero |
| VideoPlayer.InitialAudioInv | src/components/VideoPlayer.tsx:45-46 | the player starts with the audio invariant holding: full volume, unmuted, the element at the slider's value |
| VideoPlayer.AudioInvPreserved | src/components/VideoPlayer.tsx:103-123 | slider moves within 0..1 and mute toggles keep the volume in range, audible when unmuted, and the element at the slider's value |
| VideoPlayer.MuteRoundTrip | src/components/VideoPlayer.tsx:112-123 | muting then unmuting restores the audio state |
| VideoPlayer.UnmuteIsAudible | src/components/VideoPlayer.tsx:212 | after unmuting the volume, element volume and the slider's value are all above zero |
| VideoPlayer.SliderValue | src/components/VideoPlayer.tsx:212 | the slider shows zero while muted and the stored volume otherwise |
| VideoPlayer.VisibleOverlays | src/components/VideoPlayer.tsx:153-155 | the overlays drawn are exactly those whose window contains the time, both ends included |
| VideoPlayer.VisibleKeepsOrder | src/components/VideoPlayer.tsx:153-155 | overlays are drawn in list order |
| VideoPlayer.InclusiveWindow | src/components/VideoPlayer.tsx:154-155 | an overlay timed 1.0 to 3.0 shows at 1.0 and 3.0 but not at 0.999 or 3.001 |
| VideoPlayer.ClockFields | src/components/VideoPlayer.tsx:125-129 | for a non-negative time, whole minutes are non-negative and the seconds field lies in 0..59 and equals the whole seconds less sixty per minute |
| VideoPlayer.ClockTextReadsBack | src/components/VideoPlayer.tsx:128 | `m:ss` text splits at its colon into two decimal fields reading back as the minutes and seconds |
| VideoPlayer.FormatClock | src/components/VideoPlayer.tsx:125-129 | the player's `m:ss` clock; its properties are the rows for `ClockFields`, `ClockTextReadsBack` and `FormatClockReadsBack` |
| VideoPlayer.FormatClockReadsBack | src/components/VideoPlayer.tsx:125-129 | the player's clock reads back as minutes and two-digit seconds below 60 with `60*m + s` the whole seconds elapsed |
| Timeline.TimeFromPosition | src/components/Timeline.tsx:34-40 | a pixel offset maps into `[0, duration]`, to 0 left of the track and to the duration right of it |
| Timeline.TimeFromPositionMonotone | src/components/Timeline.tsx:34-40 | further right never maps to an earlier time |
| Timeline.PercentFromTime | src/components/Timeline.tsx:30-32 | a time on the track is a percentage from 0 at the start to 100 at the end |
| Timeline.PositionRoundTrip | src/components/Timeline.tsx:30-40 | mapping a time on the track to its pixel offset and back gives the same time |
| Timeline.Step | src/components/Timeline.tsx:52-103 | each mouse event emits at most one action |
| Timeline.Run | src/components/Timeline.tsx:52-103 | the handlers applied to a sequence of mouse events in order; its properties are the `RunEmitsAtMostOnePerEvent` and `RunKeepsInv` rows |
| Timeline.RunEmitsAtMostOnePerEvent | src/components/Timeline.tsx:52-103 | a sequence of mouse events emits at most one action per event |
| Timeline.StepKeepsInv | src/components/Timeline.tsx:52-103 | every event keeps "selecting exactly when both draft ends are set", "selecting only while dragging", and draft ends on the track; seeks and new segments stay on the track and segments span more than 0.2 s |
| Timeline.RunKeepsInv | src/components/Timeline.tsx:52-103 | any sequence of events keeps the invariant and creates only segments on the track longer than 0.2 s |
| Timeline.StepFollowsTable | src/components/Timeline.tsx:42-103 | the handlers follow the Idle/Scrubbing/Selecting transition table, seek exactly where the table says to the mouse's time, and create segments only on release of a selection |
| Timeline.MouseDownEffect | src/components/Timeline.tsx:52-65 | a shift-press outside a selection starts a draft at the pressed time without seeking; any other press seeks there; both start a drag |
| Timeline.MouseMoveEffect | src/components/Timeline.tsx:67-79 | a move without a drag does nothing; in a selection it moves only the draft end; in a scrub it seeks |
| Timeline.MouseUpEffect | src/components/Timeline.tsx:81-97 | release ends the drag; releasing a selection clears it and creates one segment exactly when the draft spans more than 0.2 s, ordered earlier end first |
| Timeline.MouseLeaveEffect | src/components/Timeline.tsx:99-103 | leaving ends a scrub but keeps a selection in progress untouched |
| Timeline.ClickEffect | src/components/Timeline.tsx:42-50 | a click seeks to the clicked time in every mode and changes no state |
| Timeline.ReverseDragIsNormalised | src/components/Timeline.tsx:81-89 | shift-dragging from 3 s back to 1 s creates the segment 1 s to 3 s |
| Timeline.SpanThreshold | src/components/Timeline.tsx:86 | a 0.15 s selection creates nothing and a 0.3 s one creates its segment |
| Timeline.SelectionSurvivesLeave | src/components/Timeline.tsx:99-103 | a selection continues after leaving and re-entering the track and the next release creates the segment |
| Timeline.ScrubEndsOnLeave | src/components/Timeline.tsx:99-103 | after leaving the track a scrub no longer seeks on move |
| Timeline.SelectionThenClickSeeks | src/components/Timeline.tsx:148-151 | the click that follows a shift-drag seeks to the release point right after the segment is created |
| Timeline.MarkerStep | src/components/Timeline.tsx:108 | markers are one second apart exactly when the video lasts 60 s or less, and five seconds apart otherwise |
| Timeline.MarkerOnTrack | src/components/Timeline.tsx:109-113 | every marker's time lies in `[0, duration]` and its offset in 0..100 percent |
| Timeline.MarkersIncrease | src/components/Timeline.tsx:111-113 | later markers have later times and larger offsets |
| Timeline.ToFixed0 | src/components/Timeline.tsx:123 | `toFixed(0)` of a non-negative number, rounding halves up; its property is the `MarkerCaptionIsClock` row |
| Timeline.MarkerCaption | src/components/Timeline.tsx:123 | a marker's `m:ss` caption; the `MarkerCaptionIsClock` row states what it shows |
| Timeline.RenderTimeMarkers | src/components/Timeline.tsx:106-131 | there are `floor(duration/step)+1` markers at `i*step`, on the track, strictly increasing, captioned exactly on every fifth or throughout a video of 20 s or less |
| Timeline.MarkerCaptionIsClock | src/components/Timeline.tsx:123 | for a whole-second time the marker caption is the player's `m:ss` clock text |
| Timeline.SegmentBar | src/components/Timeline.tsx:160-168 | the bar of a stored segment; its property is the `SegmentBarEndsAtEnd` row |
| Timeline.DraftBar | src/components/Timeline.tsx:172-180 | the bar of a selection in progress; its property is the `DraftBarPreviewsSegment` row |
| Timeline.SegmentBarEndsAtEnd | src/components/Timeline.tsx:160-168 | a segment's bar ends at the position of the segment's end time |
| Timeline.DraftBarPreviewsSegment | src/components/Timeline.tsx:172-180 | the bar drawn for a selection is the bar of the segment its release creates |
| OverlayEditor.InitialForm | src/components/TextOverlayEditor.tsx:60-64 | the form starts empty, at size 24 and white, from the current time to five seconds later or the end of the video, whichever is earlier |
| OverlayEditor.ApplyFormEvent | src/components/TextOverlayEditor.tsx:107-178 | each control changes its own field and no other |
| OverlayEditor.InitialFormWellFormed | src/components/TextOverlayEditor.tsx:60-62 | the form starts with size 24, inside 12..72, and white, the first swatch |
| OverlayEditor.FormStaysWellFormed | src/components/TextOverlayEditor.tsx:44-53 | every slider and swatch input keep the size in 12..72 and the color among the eight swatches |
| OverlayEditor.AddText | src/components/TextOverlayEditor.tsx:66-84 | a blank text emits nothing and leaves the form; otherwise the overlay carries the text, the center, the color and size and both times as entered, and only the text is cleared |
| OverlayEditor.AddEnabledIffEmits | src/components/TextOverlayEditor.tsx:190 | the add button is enabled exactly when pressing it emits an overlay, that is when the text is not blank |
| OverlayEditor.SecondAddEmitsNothing | src/components/TextOverlayEditor.tsx:83 | a second press right after a successful one emits nothing and changes nothing |
| OverlayEditor.AddKeepsWellFormed | src/components/TextOverlayEditor.tsx:69-80 | adding keeps the form well formed and emits only allowed sizes and colors |
| OverlayEditor.Hundredths | src/components/TextOverlayEditor.tsx:89 | the hundredths of a non-negative time lie in 0..99 |
| OverlayEditor.FormatPrecise | src/components/TextOverlayEditor.tsx:86-91 | the form's `m:ss.cc` clock; its property is the `FormatPreciseExtendsClock` row |
| OverlayEditor.FormatPreciseExtendsClock | src/components/TextOverlayEditor.tsx:86-91 | the form's clock is the player's `m:ss` clock, a point and two digits reading back as the hundredths of the second |
| VideoUploader.HandleFileChange | src/components/VideoUploader.tsx:18-28 | no file does nothing; the first file is accepted exactly when its type starts with `video/` and refused otherwise |
| VideoUploader.OnlyFirstFileCounts | src/components/VideoUploader.tsx:19 | files after the first never affect the decision |
| VideoUploader.TypicalTypes | src/components/VideoUploader.tsx:23 | `video/mp4` and `video/webm` pass; audio, image, empty, upper-case and slash-less types are refused |
| EditorSession.Upload | src/pages/Index.tsx:28-36 | an upload sets file and source, stops playback at 0 and empties segments and overlays, leaving the duration |
| EditorSession.UploadForgetsPriorSession | src/pages/Index.tsx:28-36 | the session after an upload is the same from any prior session, duration aside |
| EditorSession.ChooseFiles | src/components/VideoUploader.tsx:18-28 | no file or a refused file leaves the whole session unchanged; an accepted file starts a fresh session on it |
| EditorSession.TogglePlayPause | src/pages/Index.tsx:39-41 | flips the play flag and nothing else |
| EditorSession.ToggleTwiceIsIdentity | src/pages/Index.tsx:39-41 | toggling twice restores the session |
| EditorSession.TimeUpdate | src/pages/Index.tsx:43-45 | sets the playback position to exactly the reported time and nothing else |
| EditorSession.LoadedMetadata | src/pages/Index.tsx:47-49 | sets the duration and nothing else |
| EditorSession.ReportedTimeIsNotPushedBack | src/components/VideoPlayer.tsx:94-101 | a position the element reports is never pushed back to it |
| EditorSession.TimelineSeekReachesElement | src/components/VideoPlayer.tsx:98 | a timeline seek moves the element exactly when it is more than half a second away |
| EditorSession.AfterPlaybackEffect | src/components/VideoPlayer.tsx:84-88 | after the play effect the flag says playing exactly when it did and the element did not refuse |
| EditorSession.PlaybackEffectSettles | src/components/VideoPlayer.tsx:84-88 | once a refusal has flipped the flag back, running the effect again changes nothing |
| EditorSession.PlayRejected | src/components/VideoPlayer.tsx:85-88 | a late rejection of `play()` flips the play flag as it stands when the rejection arrives, and changes nothing else |
| EditorSession.LateRejectionUndoesPause | src/components/VideoPlayer.tsx:84-90 | play, then pause while `play()` is pending, then its rejection: the session is playing again |
| EditorSession.PlayRefused | src/components/VideoPlayer.tsx:85-88 | the corrected refusal leaves the session paused and changes nothing else |
| EditorSession.RefusalAgreesWithEffect | src/components/VideoPlayer.tsx:84-88 | the corrected refusal equals the modelled effect when it arrives at once, keeps a paused session, and is idempotent |
| EditorSession.RefusalKeepsPause | src/components/VideoPlayer.tsx:84-90 | with the corrected refusal, a pause pressed while `play()` is pending stays a pause |
| EditorSession.AddCutSegment | src/pages/Index.tsx:52-53 | the pair is appended as given and earlier segments are unchanged |
| EditorSession.RemoveCutSegment | src/pages/Index.tsx:69-71 | the segment at the index is dropped with the others kept in order; an index off the list changes nothing |
| EditorSession.RemoveUndoesAddSegment | src/pages/Index.tsx:52-71 | removing the segment just added restores the session |
| EditorSession.CreatedSegments | src/pages/Index.tsx:168 | the segments a list of timeline actions creates each come from one of the actions |
| EditorSession.ApplyActions | src/pages/Index.tsx:167-168 | the session after the timeline's actions in order; its property is the `ApplyActionsAppendsSegments` row |
| EditorSession.ApplyActionsAppendsSegments | src/pages/Index.tsx:167-168 | feeding timeline actions to the session appends exactly the created segments in order and leaves video, play flag, duration and overlays alone |
| EditorSession.TimelineSegmentsOnTrack | src/components/Timeline.tsx:81-89 | segments created by mouse input lie on the track and span more than 0.2 s, while stored ones stay in place |
| EditorSession.OverlayId | src/pages/Index.tsx:61 | an overlay id is `text-` followed by at least one character |
| EditorSession.OverlayIdInjective | src/pages/Index.tsx:61 | ids made at different milliseconds differ |
| EditorSession.AddTextOverlay | src/pages/Index.tsx:60-62 | the draft is appended with its id and earlier overlays are unchanged |
| EditorSession.RemoveTextOverlay | src/pages/Index.tsx:73-75 | every overlay with the id is dropped, every other one is kept, and nothing else changes; order and multiplicity are the next two rows |
| EditorSession.RemoveKeepsOrder | src/pages/Index.tsx:74 | removing from a concatenation removes from each part and joins the results, so the remaining overlays keep their order one for one |
| EditorSession.RemoveFromOne | src/pages/Index.tsx:74 | a single overlay goes exactly when it carries the id |
| EditorSession.RemoveAbsentIdIsNoOp | src/pages/Index.tsx:73-75 | removing an id nobody carries changes nothing |
| EditorSession.RemovePresentIdShrinks | src/pages/Index.tsx:73-75 | removing an id somebody carries shortens the list |
| EditorSession.RemoveUndoesAddOverlay | src/pages/Index.tsx:60-75 | adding an overlay with a fresh id and removing that id restores the session |
| EditorSession.SameMillisecondCollides | src/pages/Index.tsx:61 | two overlays added in the same millisecond share an id and are removed together |
| EditorSession.ExtensionRun | src/pages/Index.tsx:94 | the run of non-dot, non-slash characters at the end of a name is maximal |
| EditorSession.StripExtension | src/pages/Index.tsx:94 | the result is a prefix of the name; it differs from the name exactly when the name ends in a dot and one or more characters that are neither dot nor slash, and then the cut is at that dot |
| EditorSession.ExtensionDotUnique | src/pages/Index.tsx:94 | a name has at most one extension dot |
| EditorSession.ExportFileName | src/pages/Index.tsx:94 | the export name ends with `_edited.mp4` after the stripped name |
| EditorSession.StripExtensionOf | src/pages/Index.tsx:94 | a stem, a dot and an extension strip back to the stem |
| EditorSession.OnlyLastExtensionGoes | src/pages/Index.tsx:94 | `clip.mov` exports as `clip_edited.mp4` and `a.tar.gz` as `a.tar_edited.mp4` |
| EditorSession.TrailingDotStays | src/pages/Index.tsx:94 | `name.` exports as `name._edited.mp4` |
| EditorSession.NamesWithoutExtension | src/pages/Index.tsx:94 | `noext` and `v1.0/clip` keep their whole name |
| EditorSession.NoDotNoExtension | src/pages/Index.tsx:94 | a name with no dot is not shortened |
| EditorSession.DotBeforeSlashIsNoExtension | src/pages/Index.tsx:94 | a dot before the last slash is not an extension |
| EditorSession.Export | src/pages/Index.tsx:78-95 | nothing is exported exactly when there is no file or no source; otherwise the source, the edits in order and the rewritten name go out |
| EditorSession.ExportAfterUpload | src/pages/Index.tsx:28-36 | right after an upload the export is available and carries no edits; the fresh page exports nothing |
| EditorSession.FirstFormIsInstant | src/components/TextOverlayEditor.tsx:63-64 | the text form mounted at the first upload has start and end time 0, so an overlay added with the default times shows at time 0 only |
| EditorSession.FormDefaults | src/components/TextOverlayEditor.tsx:63-64 | the form's defaults read from the session as it stands; the window is non-empty whenever the video has time left after the current position |
| EditorSession.LoadedFormSpansDefault | src/components/TextOverlayEditor.tsx:63-64 | once the metadata has loaded, the defaults span the first five seconds or the whole shorter video, and an overlay added with them shows throughout that window |

## Left out

- IEEE floating point: times are exact reals, so rounding effects such as `1.15 % 1 * 100` giving 14 rather than 15 hundredths are not reproduced.
- Timeline.TimeFromPosition: requires a track wider than zero pixels. At width zero the source's fraction is NaN at offset 0, so the time is NaN there; a positive offset gives +Infinity, clamped to 1, so the time is the duration; a negative offset gives -Infinity, clamped to 0, so the time is 0.
- Timeline.PercentFromTime: requires a positive duration; before the metadata arrives the duration is 0 and the source's percentages are NaN. The same precondition carries over to `RenderTimeMarkers`, the marker and bar functions.
- Timeline.Step: the early returns for an unmounted track (`!rect`, `!trackRef.current`) are left out; the track is always mounted while it receives events. The duration is taken as fixed during a drag.
- The player's effects run only when the media element exists; an unmounted element is left out. The element's own `timeupdate` and `loadedmetadata` listeners are the `TimeUpdate` and `LoadedMetadata` commands.
- React's scheduling (batched updates, effects and stale closures) is not modelled: each handler sees the state the previous event left.
- EditorSession.AfterPlaybackEffect: takes a refused `play()` to be settled before any other event. In the source the rejection arrives later and flips whatever the flag is then, so a pause pressed while `play()` is pending is undone; `PlayRejected` and `LateRejectionUndoesPause` model that sequence (see Findings).
- EditorSession.PlaybackEffectSettles: holds only for a refusal settled at once. The effect re-runs after every render of the page, so several `play()` promises can be pending together, and each rejection toggles the flag once more.
- Toasts, `console.error`, the loading spinner, the thumbnail, JSX layout and styling are not modelled.
- `URL.createObjectURL` and `Date.now()` are not modelled: their results are the `url` and `now` parameters.
- `src/utils/videoProcessor.ts` is not part of this model beyond its record shapes: fetching, blob download and the placeholder export are I/O.
- Text.IsWhitespace: covers the ASCII blanks and line ends, no-break space, the line and paragraph separators and the byte-order mark, not every Unicode space separator `trim` removes.
- OverlayEditor.InitialForm: the form reads the current time and duration once, when it is mounted right after the first upload, at time 0 and before the metadata has set the duration; so its default end time is 0 for the life of the page, and an overlay added without editing the times shows at time 0 only (see Findings).
- Nothing orders an overlay's start before its end or keeps segments within the video: the end-time input's `min` is only a hint and segments are appended unchecked.

## Findings

| source | as written | input that shows it | evidently intended | confidence | as-written member | corrected member |
|---|---|---|---|---|---|---|
| src/components/TextOverlayEditor.tsx:64 | the default end time `Math.min(currentTime + 5, duration)` is read once, when the form mounts with the editing view right after the first upload (src/pages/Index.tsx:21, 28-36, 255-260), while the duration is still 0 | upload any video, type a text and press Add without touching the times: the overlay is timed 0 to 0 | the default window runs to five seconds after the current time or the loaded duration, whichever is earlier | not executed; high, the mount order is fixed by the page | EditorSession.FirstFormIsInstant | EditorSession.FormDefaults |
| src/components/VideoPlayer.tsx:85-88 | a refused `play()` calls `onPlayPause`, a toggle, whenever its promise rejects | press play, then pause before `play()` settles: the pause interrupts the pending play, its promise rejects, and the toggle turns the paused session back to playing | a refused play leaves the player paused | not executed; medium, it relies on the browser rejecting a pending `play()` when `pause()` is called, as the HTML standard's media element requires | EditorSession.LateRejectionUndoesPause | EditorSession.PlayRefused |
