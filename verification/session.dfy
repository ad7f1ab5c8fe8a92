/**
 The editor page's session: the chosen video, its object URL, the play flag,
 the playback position and duration, the cut segments and the text overlays,
 together with the commands the page's children send it and the export guard.
 */
module EditorSession {
  import opened Prelude
  import opened Text
  import opened Seqs
  import opened Media
  import Timeline
  import VideoPlayer
  import VideoUploader
  import OverlayEditor

  datatype Session = Session(
    file: Option<VideoFile>,
    src: string,
    isPlaying: bool,
    currentTime: real,
    duration: real,
    segments: seq<CutSegment>,
    overlays: seq<TextOverlay>)

  /** The page as first rendered: no video, no source URL, nothing edited. */
  const Initial: Session := Session(None, "", false, 0.0, 0.0, [], [])

  // ---------------------------------------------------------------------------
  // Upload and playback

  /**
   `handleVideoUpload` with `url` the object URL made for the file: a fresh
   editing session on the new video. The duration is left for the video's
   metadata to set.
   */
  function Upload(s: Session, file: VideoFile, url: string): (r: Session)
    ensures r.file == Some(file) && r.src == url
    ensures !r.isPlaying && r.currentTime == 0.0
    ensures r.segments == [] && r.overlays == []
    ensures r.duration == s.duration
  {
    s.(file := Some(file), src := url, isPlaying := false, currentTime := 0.0, segments := [], overlays := [])
  }

  /** Nothing of the previous video's edits survives an upload: only the duration carries over. */
  lemma UploadForgetsPriorSession(s1: Session, s2: Session, file: VideoFile, url: string)
    ensures Upload(s1, file, url).(duration := s2.duration) == Upload(s2, file, url)
    ensures Upload(s1, file, url) == Upload(Initial, file, url).(duration := s1.duration)
  {
  }

  /**
   The file picker wired to the session: an accepted file starts a new
   session; no file or a refused one leaves the session exactly as it was.
   */
  function ChooseFiles(s: Session, files: seq<VideoFile>, url: string): (r: Session)
    ensures |files| == 0 ==> r == s
    ensures |files| > 0 && !VideoUploader.IsVideoType(files[0].mimeType) ==> r == s
    ensures |files| > 0 && VideoUploader.IsVideoType(files[0].mimeType) ==> r == Upload(s, files[0], url)
  {
    match VideoUploader.HandleFileChange(files)
    case Accepted(f) => Upload(s, f, url)
    case _ => s
  }

  /** The play/pause button and the player's refusal callback: flips the play flag and nothing else. */
  function TogglePlayPause(s: Session): (r: Session)
    ensures r.isPlaying == !s.isPlaying
    ensures r.(isPlaying := s.isPlaying) == s
  {
    s.(isPlaying := !s.isPlaying)
  }

  lemma ToggleTwiceIsIdentity(s: Session)
    ensures TogglePlayPause(TogglePlayPause(s)) == s
  {
  }

  /** The playback position reported by the element, or a seek from the timeline. */
  function TimeUpdate(s: Session, time: real): (r: Session)
    ensures r.currentTime == time
    ensures r.(currentTime := s.currentTime) == s
  {
    s.(currentTime := time)
  }

  /** The duration read from the video's metadata. */
  function LoadedMetadata(s: Session, duration: real): (r: Session)
    ensures r.duration == duration
    ensures r.(duration := s.duration) == s
  {
    s.(duration := duration)
  }

  /**
   A position reported by the element never makes the player seek the element
   back: after the session takes over the element's time the sync effect has
   nothing to push.
   */
  lemma ReportedTimeIsNotPushedBack(s: Session, elementTime: real)
    ensures VideoPlayer.SeekPush(elementTime, TimeUpdate(s, elementTime).currentTime) == None
  {
  }

  /**
   A seek from the timeline reaches the element exactly when it is more than
   half a second away from where the element is.
   */
  lemma TimelineSeekReachesElement(s: Session, elementTime: real, t: real)
    ensures VideoPlayer.SeekPush(elementTime, TimeUpdate(s, t).currentTime) == Some(t)
       <==> Abs(elementTime - t) > VideoPlayer.SeekTolerance
  {
  }

  /**
   The play flag after the player's play/pause effect has run: when the
   element refuses to play, the player calls back `onPlayPause`, which flips
   the flag back.
   */
  function AfterPlaybackEffect(s: Session, refused: bool): (r: Session)
    ensures r.isPlaying <==> s.isPlaying && !refused
    ensures r.(isPlaying := s.isPlaying) == s
  {
    if VideoPlayer.PlaybackOnChange(s.isPlaying, refused).togglesBack then TogglePlayPause(s) else s
  }

  /**
   Once the effect has run, a second run changes nothing: the flag now says
   "paused", so the element is paused and never refuses.
   */
  lemma PlaybackEffectSettles(s: Session, refused: bool, refusedAgain: bool)
    ensures var r := AfterPlaybackEffect(s, refused);
      refused ==> AfterPlaybackEffect(r, refusedAgain) == r
    ensures !refused ==> AfterPlaybackEffect(s, refused) == s
  {
  }

  /**
   The rejection of a `play()` promise as an event of its own: the promise
   settles after the effect has run, and its `.catch` calls `onPlayPause`,
   which flips whatever the flag is when the rejection lands.
   */
  function PlayRejected(s: Session): (r: Session)
    ensures r.isPlaying == !s.isPlaying
    ensures r.(isPlaying := s.isPlaying) == s
  {
    TogglePlayPause(s)
  }

  /**
   Pressing pause while `play()` is still pending: the pause interrupts the
   pending play, whose promise then rejects, and the late toggle turns the
   paused session back to playing.
   */
  lemma LateRejectionUndoesPause(s: Session)
    requires !s.isPlaying
    ensures var played := TogglePlayPause(s);
      var paused := TogglePlayPause(played);
      && played.isPlaying && !paused.isPlaying
      && PlayRejected(paused).isPlaying
      && PlayRejected(paused) == played
  {
  }

  /**
   A refused play as the player evidently means it: the session is left
   paused, whenever the refusal arrives.
   */
  function PlayRefused(s: Session): (r: Session)
    ensures !r.isPlaying
    ensures r.(isPlaying := s.isPlaying) == s
  {
    s.(isPlaying := false)
  }

  /**
   The corrected refusal agrees with the effect when it arrives at once, leaves
   a paused session alone, and a second refusal changes nothing.
   */
  lemma RefusalAgreesWithEffect(s: Session)
    ensures s.isPlaying ==> PlayRefused(s) == AfterPlaybackEffect(s, true)
    ensures !s.isPlaying ==> PlayRefused(s) == s
    ensures PlayRefused(PlayRefused(s)) == PlayRefused(s)
  {
  }

  /** With the corrected refusal, a pause pressed while `play()` is pending stays a pause. */
  lemma RefusalKeepsPause(s: Session)
    requires !s.isPlaying
    ensures var paused := TogglePlayPause(TogglePlayPause(s));
      !paused.isPlaying && PlayRefused(paused) == paused
  {
  }

  // ---------------------------------------------------------------------------
  // Cut segments

  /** `handleAddCutSegment`: the pair is appended as given, unchecked. */
  function AddCutSegment(s: Session, start: real, end: real): (r: Session)
    ensures |r.segments| == |s.segments| + 1
    ensures r.segments[..|s.segments|] == s.segments
    ensures r.segments[|s.segments|] == CutSegment(start, end)
    ensures r.(segments := s.segments) == s
  {
    s.(segments := s.segments + [CutSegment(start, end)])
  }

  /** `handleRemoveCutSegment`: drops the segment at `index`; an index outside the list drops nothing. */
  function RemoveCutSegment(s: Session, index: int): (r: Session)
    ensures 0 <= index < |s.segments| ==>
      |r.segments| == |s.segments| - 1
      && r.segments[..index] == s.segments[..index]
      && r.segments[index..] == s.segments[index + 1..]
    ensures !(0 <= index < |s.segments|) ==> r == s
    ensures r.(segments := s.segments) == s
  {
    s.(segments := RemoveAt(s.segments, index))
  }

  /** Removing the segment just added restores the session. */
  lemma RemoveUndoesAddSegment(s: Session, start: real, end: real)
    ensures RemoveCutSegment(AddCutSegment(s, start, end), |s.segments|) == s
  {
    var segs := s.segments + [CutSegment(start, end)];
    assert segs[..|s.segments|] + segs[|s.segments| + 1..] == s.segments;
  }

  /** What the timeline's actions do to the session: seeks set the time, selections add segments. */
  function ApplyAction(s: Session, a: Timeline.Action): Session {
    match a
    case Seek(t) => TimeUpdate(s, t)
    case CreateSegment(start, end) => AddCutSegment(s, start, end)
  }

  function ApplyActions(s: Session, actions: seq<Timeline.Action>): Session
    decreases |actions|
  {
    if |actions| == 0 then s else ApplyActions(ApplyAction(s, actions[0]), actions[1..])
  }

  /** The segments the actions create, in order. */
  function CreatedSegments(actions: seq<Timeline.Action>): (r: seq<CutSegment>)
    ensures |r| <= |actions|
    ensures forall i :: 0 <= i < |r| ==> Timeline.CreateSegment(r[i].start, r[i].end) in actions
  {
    if |actions| == 0 then []
    else
      var rest := CreatedSegments(actions[1..]);
      match actions[0]
      case CreateSegment(start, end) => [CutSegment(start, end)] + rest
      case Seek(_) => rest
  }

  /**
   Feeding the timeline's actions to the session appends exactly the segments
   created, in order, and touches neither the video, the play flag nor the
   overlays.
   */
  lemma {:induction false} ApplyActionsAppendsSegments(s: Session, actions: seq<Timeline.Action>)
    ensures ApplyActions(s, actions).segments == s.segments + CreatedSegments(actions)
    ensures ApplyActions(s, actions).file == s.file && ApplyActions(s, actions).src == s.src
    ensures ApplyActions(s, actions).isPlaying == s.isPlaying
    ensures ApplyActions(s, actions).overlays == s.overlays
    ensures ApplyActions(s, actions).duration == s.duration
    decreases |actions|
  {
    if |actions| > 0 {
      var next := ApplyAction(s, actions[0]);
      ApplyActionsAppendsSegments(next, actions[1..]);
      match actions[0]
      case CreateSegment(start, end) =>
        assert s.segments + [CutSegment(start, end)] + CreatedSegments(actions[1..])
            == s.segments + CreatedSegments(actions);
      case Seek(_) =>
    }
  }

  /**
   Every segment a mouse interaction creates lies on the track and spans
   more than the minimum, whatever the segments already stored.
   */
  lemma TimelineSegmentsOnTrack(s: Session, track: Timeline.Track, events: seq<Timeline.Event>)
    requires track.width > 0.0 && track.duration >= 0.0
    ensures var r := ApplyActions(s, Timeline.Run(track, Timeline.Initial, events).actions);
      && |s.segments| <= |r.segments|
      && r.segments[..|s.segments|] == s.segments
      && forall i :: |s.segments| <= i < |r.segments| ==>
           0.0 <= r.segments[i].start
           && r.segments[i].start + Timeline.MinSegmentSpan < r.segments[i].end
           && r.segments[i].end <= track.duration
  {
    var actions := Timeline.Run(track, Timeline.Initial, events).actions;
    Timeline.RunKeepsInv(track, Timeline.Initial, events);
    ApplyActionsAppendsSegments(s, actions);
    var created := CreatedSegments(actions);
    var r := ApplyActions(s, actions);
    forall i | |s.segments| <= i < |r.segments|
      ensures 0.0 <= r.segments[i].start
      ensures r.segments[i].start + Timeline.MinSegmentSpan < r.segments[i].end
      ensures r.segments[i].end <= track.duration
    {
      var c := created[i - |s.segments|];
      assert r.segments[i] == c;
      assert Timeline.CreateSegment(c.start, c.end) in actions;
    }
  }

  // ---------------------------------------------------------------------------
  // Text overlays

  /** The id given to an overlay added at `now` milliseconds since the epoch. */
  function OverlayId(now: nat): (id: string)
    ensures |id| > 5 && id[..5] == "text-"
  {
    "text-" + NatToDecimal(now)
  }

  /** Ids made at different milliseconds differ, and only then. */
  lemma OverlayIdInjective(a: nat, b: nat)
    ensures OverlayId(a) == OverlayId(b) <==> a == b
  {
    if OverlayId(a) == OverlayId(b) {
      assert OverlayId(a)[5..] == NatToDecimal(a);
      assert OverlayId(b)[5..] == NatToDecimal(b);
      DecimalInjective(a, b);
    }
  }

  /** `handleAddTextOverlay`: the draft is appended with the id made at `now`. */
  function AddTextOverlay(s: Session, draft: OverlayDraft, now: nat): (r: Session)
    ensures |r.overlays| == |s.overlays| + 1
    ensures r.overlays[..|s.overlays|] == s.overlays
    ensures r.overlays[|s.overlays|] == WithId(draft, OverlayId(now))
    ensures r.(overlays := s.overlays) == s
  {
    s.(overlays := s.overlays + [WithId(draft, OverlayId(now))])
  }

  /** Keeps the overlays whose id differs from `id`. */
  function NotWithId(id: string): TextOverlay -> bool {
    (o: TextOverlay) => o.id != id
  }

  predicate HasOverlayId(overlays: seq<TextOverlay>, id: string) {
    exists i :: 0 <= i < |overlays| && overlays[i].id == id
  }

  /** `handleRemoveTextOverlay`: drops every overlay carrying `id`, keeping the rest in order. */
  function RemoveTextOverlay(s: Session, id: string): (r: Session)
    ensures forall i :: 0 <= i < |r.overlays| ==> r.overlays[i].id != id && r.overlays[i] in s.overlays
    ensures forall i :: 0 <= i < |s.overlays| && s.overlays[i].id != id ==> s.overlays[i] in r.overlays
    ensures !HasOverlayId(r.overlays, id)
    ensures r.(overlays := s.overlays) == s
  {
    s.(overlays := Filter(s.overlays, NotWithId(id)))
  }

  /**
   Removal keeps the remaining overlays in their order, one for one: removing
   from a concatenation removes from each part and joins the results.
   */
  lemma RemoveKeepsOrder(s: Session, a: seq<TextOverlay>, b: seq<TextOverlay>, id: string)
    ensures RemoveTextOverlay(s.(overlays := a + b), id).overlays
         == RemoveTextOverlay(s.(overlays := a), id).overlays + RemoveTextOverlay(s.(overlays := b), id).overlays
  {
    FilterConcat(a, b, NotWithId(id));
  }

  /** A single overlay goes exactly when it carries the id, and stays otherwise. */
  lemma RemoveFromOne(s: Session, o: TextOverlay, id: string)
    ensures RemoveTextOverlay(s.(overlays := [o]), id).overlays == if o.id == id then [] else [o]
  {
    assert [o][1..] == [];
  }

  /** Removing an id no overlay carries changes nothing. */
  lemma RemoveAbsentIdIsNoOp(s: Session, id: string)
    requires !HasOverlayId(s.overlays, id)
    ensures RemoveTextOverlay(s, id) == s
  {
    FilterKeepsAll(s.overlays, NotWithId(id));
  }

  /** Removing an id that is present shortens the list. */
  lemma RemovePresentIdShrinks(s: Session, id: string)
    requires HasOverlayId(s.overlays, id)
    ensures |RemoveTextOverlay(s, id).overlays| < |s.overlays|
  {
    var i :| 0 <= i < |s.overlays| && s.overlays[i].id == id;
    var xs := s.overlays;
    assert xs == xs[..i] + [xs[i]] + xs[i + 1..];
    FilterConcat(xs[..i] + [xs[i]], xs[i + 1..], NotWithId(id));
    FilterConcat(xs[..i], [xs[i]], NotWithId(id));
    assert Filter([xs[i]], NotWithId(id)) == [];
  }

  /**
   Adding an overlay and then removing it by its id restores the session,
   provided no earlier overlay got the same id.
   */
  lemma RemoveUndoesAddOverlay(s: Session, draft: OverlayDraft, now: nat)
    requires !HasOverlayId(s.overlays, OverlayId(now))
    ensures RemoveTextOverlay(AddTextOverlay(s, draft, now), OverlayId(now)) == s
  {
    var id := OverlayId(now);
    var o := WithId(draft, id);
    FilterConcat(s.overlays, [o], NotWithId(id));
    FilterKeepsAll(s.overlays, NotWithId(id));
    assert Filter([o], NotWithId(id)) == [];
  }

  /**
   Two overlays added in the same millisecond share an id, so removing the
   second one removes the first as well.
   */
  lemma SameMillisecondCollides(s: Session, d1: OverlayDraft, d2: OverlayDraft, now: nat)
    requires !HasOverlayId(s.overlays, OverlayId(now))
    ensures var both := AddTextOverlay(AddTextOverlay(s, d1, now), d2, now);
      RemoveTextOverlay(both, OverlayId(now)) == s
  {
    var id := OverlayId(now);
    var o1 := WithId(d1, id);
    var o2 := WithId(d2, id);
    FilterConcat(s.overlays, [o1, o2], NotWithId(id));
    FilterKeepsAll(s.overlays, NotWithId(id));
    assert [o1, o2][1..] == [o2];
    assert Filter([o1, o2], NotWithId(id)) == [];
    assert s.overlays + [o1] + [o2] == s.overlays + [o1, o2];
  }

  // ---------------------------------------------------------------------------
  // The text form's defaults

  /**
   The text form is mounted with the editing view, right after the first
   upload, when the playback position is 0 and the duration is still 0 because
   no metadata has arrived. The form reads its defaults only when mounted, so
   its end time stays 0 and an overlay added without editing the times shows
   at time 0 only.
   */
  lemma FirstFormIsInstant(file: VideoFile, url: string, text: string, id: string, t: real)
    requires !IsBlank(text)
    ensures var s := Upload(Initial, file, url);
      var f := OverlayEditor.InitialForm(s.currentTime, s.duration);
      && f.startTime == 0.0 && f.endTime == 0.0
      && var o := WithId(OverlayEditor.AddText(f.(text := text)).emitted.value, id);
         (VideoPlayer.VisibleOverlays([o], t) == [o] <==> t == 0.0)
  {
    var s := Upload(Initial, file, url);
    var f := OverlayEditor.InitialForm(s.currentTime, s.duration);
    var o := WithId(OverlayEditor.AddText(f.(text := text)).emitted.value, id);
    assert [o][1..] == [];
  }

  /**
   The form's defaults taken from the session as it stands: from the current
   position to five seconds later or the end of the video. Whenever the video
   has time left after the current position, the default window is not empty.
   */
  function FormDefaults(s: Session): (f: OverlayEditor.Form)
    ensures f.text == "" && f.startTime == s.currentTime
    ensures f.endTime <= s.currentTime + OverlayEditor.DefaultSpan && f.endTime <= s.duration
    ensures s.currentTime < s.duration ==> f.startTime < f.endTime
  {
    OverlayEditor.InitialForm(s.currentTime, s.duration)
  }

  /**
   Once the video's metadata has loaded, the defaults taken from the session
   span the first five seconds, or the whole video when it is shorter, and an
   overlay added without editing the times shows throughout that window.
   */
  lemma LoadedFormSpansDefault(file: VideoFile, url: string, duration: real, text: string, id: string, t: real)
    requires duration > 0.0
    requires !IsBlank(text)
    ensures var s := LoadedMetadata(Upload(Initial, file, url), duration);
      var f := FormDefaults(s);
      && f.startTime == 0.0 && f.endTime == Min(OverlayEditor.DefaultSpan, duration) && f.endTime > 0.0
      && var o := WithId(OverlayEditor.AddText(f.(text := text)).emitted.value, id);
         (VideoPlayer.VisibleOverlays([o], t) == [o] <==> 0.0 <= t <= f.endTime)
  {
    var s := LoadedMetadata(Upload(Initial, file, url), duration);
    var f := FormDefaults(s);
    var o := WithId(OverlayEditor.AddText(f.(text := text)).emitted.value, id);
    assert [o][1..] == [];
  }

  // ---------------------------------------------------------------------------
  // Export

  /** The characters a file extension may contain: anything but `.` and `/`. */
  predicate IsExtensionChar(c: char) {
    c != '.' && c != '/'
  }

  /** The length of the longest tail of `s` made only of extension characters. */
  function ExtensionRun(s: string): (n: nat)
    ensures n <= |s|
    ensures forall i :: |s| - n <= i < |s| ==> IsExtensionChar(s[i])
    ensures n < |s| ==> !IsExtensionChar(s[|s| - n - 1])
  {
    if |s| == 0 || !IsExtensionChar(s[|s| - 1]) then 0
    else
      var n := ExtensionRun(s[..|s| - 1]);
      assert forall i :: |s| - 1 - n <= i < |s| - 1 ==> s[i] == s[..|s| - 1][i];
      n + 1
  }

  /**
   `s` ends in an extension, as the pattern `/\.[^/.]+$/` finds one: a dot
   followed by at least one character and by no dot or slash up to the end.
   */
  predicate HasExtensionAt(s: string, k: int) {
    0 <= k < |s| - 1 && s[k] == '.' && forall i :: k < i < |s| ==> IsExtensionChar(s[i])
  }

  predicate HasExtension(s: string) {
    exists k :: 0 <= k < |s| && HasExtensionAt(s, k)
  }

  /** `name.replace(/\.[^/.]+$/, '')`: drops the extension, if there is one. */
  function StripExtension(name: string): (r: string)
    ensures |r| <= |name| && r == name[..|r|]
    ensures r != name <==> HasExtension(name)
    ensures r != name ==> HasExtensionAt(name, |r|)
  {
    var n := ExtensionRun(name);
    if 0 < n < |name| && name[|name| - n - 1] == '.' then
      var r := name[..|name| - n - 1];
      assert HasExtensionAt(name, |r|);
      r
    else
      NoExtension(name);
      name
  }

  /** When the run of extension characters at the end is not preceded by a dot, no extension exists. */
  lemma NoExtension(name: string)
    requires var n := ExtensionRun(name); !(0 < n < |name| && name[|name| - n - 1] == '.')
    ensures !HasExtension(name)
  {
    var n := ExtensionRun(name);
    forall k | 0 <= k < |name| - 1 && name[k] == '.'
      ensures !HasExtensionAt(name, k)
    {
      // The dot at k ends the run, and the character before the run is no
      // dot, so it sits after k and is a dot or slash following the dot.
      var j := |name| - n - 1;
      assert k < |name| - n;
      assert k < j;
      assert !IsExtensionChar(name[j]);
    }
  }

  /** A name has at most one extension: no dot of an extension is followed by another. */
  lemma ExtensionDotUnique(s: string, k1: int, k2: int)
    requires HasExtensionAt(s, k1) && HasExtensionAt(s, k2)
    ensures k1 == k2
  {
  }

  /** The name given to the exported file. */
  function ExportFileName(name: string): (r: string)
    ensures EndsWith(r, "_edited.mp4")
    ensures r[..|r| - |"_edited.mp4"|] == StripExtension(name)
  {
    var r := StripExtension(name) + "_edited.mp4";
    assert r[|r| - |"_edited.mp4"|..] == "_edited.mp4";
    r
  }

  /** A stem, a dot and an extension: the stem is what remains. */
  lemma StripExtensionOf(stem: string, ext: string)
    requires |ext| > 0
    requires forall i :: 0 <= i < |ext| ==> IsExtensionChar(ext[i])
    ensures StripExtension(stem + "." + ext) == stem
  {
    var name := stem + "." + ext;
    assert HasExtensionAt(name, |stem|);
    var r := StripExtension(name);
    ExtensionDotUnique(name, |r|, |stem|);
    assert name[..|stem|] == stem;
  }

  /** Only the last extension goes: `a.tar.gz` is exported as `a.tar_edited.mp4`. */
  lemma OnlyLastExtensionGoes()
    ensures ExportFileName("clip.mov") == "clip_edited.mp4"
    ensures ExportFileName("a.tar.gz") == "a.tar_edited.mp4"
  {
    StripExtensionOf("clip", "mov");
    assert "clip" + "." + "mov" == "clip.mov";
    StripExtensionOf("a.tar", "gz");
    assert "a.tar" + "." + "gz" == "a.tar.gz";
  }

  /** A trailing dot is no extension: `name.` is exported as `name._edited.mp4`. */
  lemma TrailingDotStays()
    ensures ExportFileName("name.") == "name._edited.mp4"
  {
    assert ExtensionRun("name.") == 0;
    assert StripExtension("name.") == "name.";
  }

  /** A name without an extension is kept whole, even with a dot in a directory. */
  lemma NamesWithoutExtension()
    ensures ExportFileName("noext") == "noext_edited.mp4"
    ensures ExportFileName("v1.0/clip") == "v1.0/clip_edited.mp4"
  {
    NoDotNoExtension("noext");
    assert "noext" + "_edited.mp4" == "noext_edited.mp4";
    DotBeforeSlashIsNoExtension("v1.0/clip", 4);
    assert "v1.0/clip" + "_edited.mp4" == "v1.0/clip_edited.mp4";
  }

  /** A name without a dot keeps its name. */
  lemma NoDotNoExtension(name: string)
    requires forall i :: 0 <= i < |name| ==> name[i] != '.'
    ensures StripExtension(name) == name
  {
  }

  /** Dots before the last slash belong to a directory, not to an extension. */
  lemma DotBeforeSlashIsNoExtension(name: string, slash: int)
    requires 0 <= slash < |name| && name[slash] == '/'
    requires forall i :: slash < i < |name| ==> name[i] != '.'
    ensures StripExtension(name) == name
  {
    assert forall k :: 0 <= k < slash ==> !HasExtensionAt(name, k);
  }

  /** What the export hands to the video processor. */
  datatype ExportRequest = ExportRequest(source: string, segments: seq<CutSegment>, overlays: seq<TextOverlay>, fileName: string)

  /**
   `handleExportVideo`'s guard: with no file or no source URL nothing is
   exported; otherwise the processor gets the source, the edits in order and
   the rewritten name. The session itself is never changed by an export.
   */
  function Export(s: Session): (r: Option<ExportRequest>)
    ensures r.None? <==> s.file.None? || s.src == ""
    ensures r.Some? ==> r.value.source == s.src
    ensures r.Some? ==> r.value.segments == s.segments && r.value.overlays == s.overlays
    ensures r.Some? ==> EndsWith(r.value.fileName, "_edited.mp4")
    ensures r.Some? ==> r.value.fileName == ExportFileName(s.file.value.name)
  {
    if s.file.None? || s.src == "" then None
    else Some(ExportRequest(s.src, s.segments, s.overlays, ExportFileName(s.file.value.name)))
  }

  /**
   Exporting is possible from the moment a video is uploaded (its object URL
   is never empty) and stays possible whatever edits follow; the fresh
   session exports no edits.
   */
  lemma ExportAfterUpload(s: Session, file: VideoFile, url: string)
    requires url != ""
    ensures Export(Upload(s, file, url)) == Some(ExportRequest(url, [], [], ExportFileName(file.name)))
    ensures Export(Initial) == None
  {
  }
}
