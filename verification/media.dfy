/**
 The records the editor passes between its components: cut segments, text
 overlays (with and without their id) and the chosen video file.
 */
module Media {

  /** A time range marked for removal; nothing orders `start` and `end`. */
  datatype CutSegment = CutSegment(start: real, end: real)

  /** Fractional placement of an overlay inside the frame. */
  datatype Position = Position(x: real, y: real)

  datatype Style = Style(color: string, fontSize: int)

  /** When an overlay shows; nothing orders `start` and `end`. */
  datatype Timing = Timing(start: real, end: real)

  datatype TextOverlay = TextOverlay(id: string, text: string, position: Position, style: Style, timing: Timing)

  /** A text overlay before the session gives it an id (`Omit<TextOverlay, 'id'>`). */
  datatype OverlayDraft = OverlayDraft(text: string, position: Position, style: Style, timing: Timing)

  /** The parts of a browser `File` the editor reads: its name and declared media type. */
  datatype VideoFile = VideoFile(name: string, mimeType: string)

  /** `{ ...draft, id }`: the draft's fields with the id attached. */
  function WithId(d: OverlayDraft, id: string): (o: TextOverlay)
    ensures o.id == id
    ensures OverlayDraft(o.text, o.position, o.style, o.timing) == d
  {
    TextOverlay(id, d.text, d.position, d.style, d.timing)
  }
}
