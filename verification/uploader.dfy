/**
 The upload control's decision on the files the browser's file picker
 returns: nothing chosen, a file refused because it does not declare a video
 media type, or a file handed on to the editor.
 */
module VideoUploader {
  import opened Text
  import opened Media

  /** The media-type prefix every accepted file must declare. */
  const VideoPrefix: string := "video/"

  datatype Decision = NoFile | Rejected(file: VideoFile) | Accepted(file: VideoFile)

  /** The declared media type names a video: it begins with `video/`, letter case included. */
  predicate IsVideoType(mimeType: string) {
    |mimeType| >= 6 && mimeType[..6] == VideoPrefix
  }

  /**
   `handleFileChange` on the chosen files: only the first is looked at; with
   none nothing happens, otherwise it is passed to `onVideoUploaded` exactly
   when its type is a video type, and refused (with an error toast) when not.
   */
  function HandleFileChange(files: seq<VideoFile>): (d: Decision)
    ensures d.NoFile? <==> |files| == 0
    ensures d.Accepted? <==> |files| > 0 && IsVideoType(files[0].mimeType)
    ensures d.Rejected? <==> |files| > 0 && !IsVideoType(files[0].mimeType)
    ensures !d.NoFile? ==> d.file == files[0]
  {
    if |files| == 0 then NoFile
    else if StartsWith(files[0].mimeType, VideoPrefix) then Accepted(files[0])
    else Rejected(files[0])
  }

  /** The decision only depends on the first file: later files are never examined. */
  lemma OnlyFirstFileCounts(files: seq<VideoFile>, more: seq<VideoFile>)
    requires |files| > 0
    ensures HandleFileChange(files + more) == HandleFileChange(files[..1])
  {
    assert (files + more)[0] == files[0] == files[..1][0];
  }

  /** Typical declared types: video containers pass; audio, images, an empty or upper-case type do not. */
  lemma TypicalTypes(name: string)
    ensures HandleFileChange([VideoFile(name, "video/mp4")]).Accepted?
    ensures HandleFileChange([VideoFile(name, "video/webm")]).Accepted?
    ensures HandleFileChange([VideoFile(name, "audio/mpeg")]).Rejected?
    ensures HandleFileChange([VideoFile(name, "image/png")]).Rejected?
    ensures HandleFileChange([VideoFile(name, "")]).Rejected?
    ensures HandleFileChange([VideoFile(name, "VIDEO/MP4")]).Rejected?
    ensures HandleFileChange([VideoFile(name, "video")]).Rejected?
  {
    assert "video/mp4"[..6] == VideoPrefix;
    assert "video/webm"[..6] == VideoPrefix;
    assert "audio/mpeg"[0] != VideoPrefix[0];
    assert "image/png"[0] != VideoPrefix[0];
    assert "VIDEO/MP4"[0] != VideoPrefix[0];
  }
}
