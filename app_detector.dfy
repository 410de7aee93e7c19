/**
 * The web service's `PersonDetector`: loads the reference face, then scans
 * the video, writing every sampled frame to an output video (with an H.264
 * then MPEG-4 codec fallback), collecting one timestamp per matching face and
 * saving one snapshot at the first match.
 */
module AppDetector {
  import opened Common
  import opened Text
  import opened Scanning

  const NoFaceMessage := "No face found in the person's image. Please use an image with a clear face."
  const LoadedMessage := "Successfully loaded person's face encoding."
  const LoadErrorPrefix := "Error loading person's image: "
  const NotLoadedMessage := "Person encoding not loaded."
  const VideoOpenMessage := "Could not open video file."

  datatype Codec = Avc1 | Mp4v

  /** What constructing `cv2.VideoWriter` with one codec does: an open writer, a closed one, or an exception. */
  datatype WriterInit = InitOpened | InitNotOpened | InitRaised

  /** The writer the scan ends up with, or the exception that escapes its construction. */
  datatype VideoWriter = Writer(codec: Codec, isOpen: bool) | WriterFault

  /**
   * The codec fallback: H.264 first; MPEG-4 when H.264 gives a closed writer
   * or raises. A closed MPEG-4 writer is kept (the scan goes on); only an
   * exception from MPEG-4 escapes. Construction is taken to be deterministic
   * per codec, so when MPEG-4 raises inside the first attempt, the retry in
   * the exception handler raises again.
   */
  function OpenWriter(attempt: Codec -> WriterInit): (w: VideoWriter)
    ensures w == Writer(Avc1, true) <==> attempt(Avc1) == InitOpened
    ensures attempt(Avc1) != InitOpened ==> (w == WriterFault <==> attempt(Mp4v) == InitRaised)
    ensures attempt(Avc1) != InitOpened && w.Writer? ==> w.codec == Mp4v && (w.isOpen <==> attempt(Mp4v) == InitOpened)
  {
    match attempt(Avc1)
    case InitOpened => Writer(Avc1, true)
    case InitNotOpened => Mp4vAttempt(attempt)
    case InitRaised => Mp4vAttempt(attempt)
  }

  function Mp4vAttempt(attempt: Codec -> WriterInit): VideoWriter {
    match attempt(Mp4v)
    case InitOpened => Writer(Mp4v, true)
    case InitNotOpened => Writer(Mp4v, false)
    case InitRaised => WriterFault
  }

  /** `output_video_path.replace('.mp4', '_detection_frame.jpg')`. */
  function SnapshotPath(outputVideoPath: string): (r: string)
    ensures !Occurs(outputVideoPath, ".mp4") ==> r == outputVideoPath
  {
    ReplaceAll(outputVideoPath, ".mp4", "_detection_frame.jpg")
  }

  /**
   * For the output paths the service generates (a dot-free stem ending in
   * `.mp4`), the snapshot is the sibling `<stem>_detection_frame.jpg`.
   */
  lemma SnapshotOfGeneratedPath(stem: string)
    requires '.' !in stem
    ensures SnapshotPath(stem + ".mp4") == stem + "_detection_frame.jpg"
    ensures SnapshotPath(stem + ".mp4") != stem + ".mp4"
  {
    ReplaceDotFreeStem(stem, ".mp4", "_detection_frame.jpg");
    assert (stem + "_detection_frame.jpg")[|stem|] == '_';
    assert (stem + ".mp4")[|stem|] == '.';
  }

  /** No `.mp4` starts inside the replacement text `_detection_frame.jpg`. */
  lemma SnapshotSuffixNoMp4Start(t: string, i: nat)
    requires i < |"_detection_frame.jpg"|
    ensures !OccursAt("_detection_frame.jpg" + t, ".mp4", i)
  {
    var rep := "_detection_frame.jpg";
    var u := rep + t;
    if i + 4 <= |u| {
      if i == 16 {
        assert u[i + 1] == 'j';
        assert u[i..i + 4][1] != ".mp4"[1];
      } else {
        assert u[i] == rep[i] != '.';
        assert u[i..i + 4][0] != ".mp4"[0];
      }
    }
  }

  /** Replacing every `.mp4` leaves none: the snapshot path never names an MPEG-4 file. */
  lemma {:induction false} SnapshotPathHasNoMp4(outputVideoPath: string)
    ensures !Occurs(SnapshotPath(outputVideoPath), ".mp4")
    decreases |outputVideoPath|
  {
    var s := outputVideoPath;
    if |s| < 4 {
      assert SnapshotPath(s) == s;
    } else if s[..4] == ".mp4" {
      SnapshotPathHasNoMp4(s[4..]);
      assert SnapshotPath(s) == "_detection_frame.jpg" + SnapshotPath(s[4..]);
      NoMp4AfterReplacement(SnapshotPath(s[4..]));
    } else {
      SnapshotPathHasNoMp4(s[1..]);
      NoMp4AfterCopiedChar(s);
    }
  }

  /** The replacement text followed by a text without `.mp4` has no `.mp4`. */
  lemma NoMp4AfterReplacement(t: string)
    requires !Occurs(t, ".mp4")
    ensures !Occurs("_detection_frame.jpg" + t, ".mp4")
  {
    var rep := "_detection_frame.jpg";
    var r := rep + t;
    forall i: nat | i + 4 <= |r| ensures !OccursAt(r, ".mp4", i) {
      if i >= |rep| {
        assert r[i..i + 4] == t[i - |rep|..i - |rep| + 4];
        assert !OccursAt(t, ".mp4", i - |rep|);
      } else {
        SnapshotSuffixNoMp4Start(t, i);
      }
    }
  }

  /** Copying a character that does not start `.mp4` in front of the replaced rest adds no `.mp4`. */
  lemma NoMp4AfterCopiedChar(s: string)
    requires |s| >= 4 && s[..4] != ".mp4"
    requires !Occurs(SnapshotPath(s[1..]), ".mp4")
    ensures !Occurs(SnapshotPath(s), ".mp4")
  {
    var t := SnapshotPath(s[1..]);
    var r := SnapshotPath(s);
    assert r == [s[0]] + t;
    forall i: nat | i + 4 <= |r| ensures !OccursAt(r, ".mp4", i) {
      if i >= 1 {
        assert r[i..i + 4] == t[i - 1..i + 3];
        assert !OccursAt(t, ".mp4", i - 1);
      } else if r[1..4] == "mp4" {
        assert "mp4" <= t by {
          assert t[..3] == r[1..4];
        }
        ReplacePrefixCopied(s[1..], ".mp4", "_detection_frame.jpg", "mp4");
        assert s[..4] == [s[0]] + s[1..][..3];
      }
    }
  }

  /** The image saved at the first detection: that frame, drawn as it was at that moment. */
  function FirstSnapshot(ds: seq<Detection>, outputVideoPath: string): Option<SavedImage> {
    if ds == [] then None
    else Some(SavedImage(SnapshotPath(outputVideoPath), Image(ds[0].frameIndex, ds[0].drawn)))
  }

  datatype Summary = Summary(totalFrames: nat, detectedFrames: nat, detectionTimestamps: seq<real>,
                             outputVideoPath: string, detectionFramePath: Option<string>)

  /** `ZeroDivisionError` (from `% frame_skip`, `/ fps` or `/ total_frames`), or the writer's exception. */
  datatype Fault = ZeroDivision | WriterInitFault

  /** `(False, message)`, an exception that escapes the method, or `(True, summary)`. */
  datatype DetectOutcome = Refused(message: string) | Raised(fault: Fault) | Completed(summary: Summary)

  /** The result `detect_person_in_video` returns for the given encoding and inputs. */
  function ScanOutcome(encoding: Option<Encoding>, video: VideoSource, attempt: Codec -> WriterInit,
                       compare: CompareFaces, outputVideoPath: string, tolerance: real, frameSkip: int): (r: DetectOutcome)
    ensures encoding.None? ==> r == Refused(NotLoadedMessage)
    ensures r == Raised(ZeroDivision) ==>
      video.Opened? && (frameSkip == 0 || video.reportedFrameCount == 0 || video.fps == 0)
    ensures r.Completed? ==>
      video.Opened? && (video.frames == [] || (frameSkip != 0 && video.reportedFrameCount != 0))
    ensures encoding.Some? && video.Opened? && video.frames == [] && OpenWriter(attempt) != WriterFault ==> r.Completed?
  {
    if encoding.None? then Refused(NotLoadedMessage)
    else if video.Unopenable? then Refused(VideoOpenMessage)
    else if OpenWriter(attempt) == WriterFault then Raised(WriterInitFault)
    else if |video.frames| > 0 && (frameSkip == 0 || video.reportedFrameCount == 0) then Raised(ZeroDivision)
    else
      var ds := Detections(video.frames, frameSkip, Search(encoding.value, tolerance, compare));
      if video.fps == 0 && ds != [] then Raised(ZeroDivision)
      else
        Completed(Summary(|video.frames|, |ds|, Timestamps(ds, video.fps), outputVideoPath,
                          if ds == [] then None else Some(SnapshotPath(outputVideoPath))))
  }

  /**
   * What a completed scan reports: every raw frame counted, one timestamp per
   * matching face in non-decreasing order, and a snapshot path exactly when
   * some sampled frame had a match.
   */
  lemma CompletedSummary(encoding: Option<Encoding>, video: VideoSource, attempt: Codec -> WriterInit,
                         compare: CompareFaces, outputVideoPath: string, tolerance: real, frameSkip: int)
    requires ScanOutcome(encoding, video, attempt, compare, outputVideoPath, tolerance, frameSkip).Completed?
    ensures encoding.Some? && video.Opened?
    ensures var s := ScanOutcome(encoding, video, attempt, compare, outputVideoPath, tolerance, frameSkip).summary;
      && s.totalFrames == |video.frames|
      && s.detectedFrames == |s.detectionTimestamps|
      && s.outputVideoPath == outputVideoPath
      && (forall a, b :: 0 <= a <= b < |s.detectionTimestamps| ==> s.detectionTimestamps[a] <= s.detectionTimestamps[b])
      && (s.detectionFramePath.None? <==>
            forall i :: 0 <= i < |video.frames| && Sampled(i, frameSkip) ==>
              MatchedBoxes(video.frames[i], Search(encoding.value, tolerance, compare)) == [])
      && (s.detectionFramePath.Some? ==> s.detectionFramePath.value == SnapshotPath(outputVideoPath))
  {
    var search := Search(encoding.value, tolerance, compare);
    var ds := Detections(video.frames, frameSkip, search);
    NoDetections(video.frames, frameSkip, search);
    if ds != [] {
      DetectionsOrdered(video.frames, frameSkip, search);
      TimestampsOrdered(ds, video.fps);
    }
  }

  /**
   * The snapshot is the frame of the first match of the whole scan, with only
   * that face boxed, saved next to the output video; there is none when no
   * sampled frame matched.
   */
  lemma SnapshotAtFirstMatch(frames: seq<Frame>, frameSkip: int, search: Search, outputVideoPath: string)
    ensures var snapshot := FirstSnapshot(Detections(frames, frameSkip, search), outputVideoPath);
      && (snapshot.None? <==> forall i :: 0 <= i < |frames| && Sampled(i, frameSkip) ==> MatchedBoxes(frames[i], search) == [])
      && (snapshot.Some? ==>
            var f := snapshot.value.image.frameIndex;
            && snapshot.value.path == SnapshotPath(outputVideoPath)
            && f < |frames| && Sampled(f, frameSkip)
            && MatchedBoxes(frames[f], search) != []
            && snapshot.value.image.boxes == [MatchedBoxes(frames[f], search)[0]]
            && forall i :: 0 <= i < f && Sampled(i, frameSkip) ==> MatchedBoxes(frames[i], search) == [])
  {
    NoDetections(frames, frameSkip, search);
    if Detections(frames, frameSkip, search) != [] {
      FirstDetection(frames, frameSkip, search);
      FirstMatchEarliest(frames, frameSkip, search);
    }
  }

  /**
   * A zero frame rate only fails the scan when a face matches: the timestamp
   * division is reached only then.
   */
  lemma ZeroRateFaultsOnMatch(encoding: Encoding, reportedFrameCount: int, frames: seq<Frame>, attempt: Codec -> WriterInit,
                              compare: CompareFaces, outputVideoPath: string, tolerance: real, frameSkip: int)
    requires OpenWriter(attempt) != WriterFault && frameSkip != 0 && reportedFrameCount != 0
    ensures (ScanOutcome(Some(encoding), Opened(0, reportedFrameCount, frames), attempt, compare, outputVideoPath, tolerance, frameSkip) ==
             Raised(ZeroDivision)) <==>
      exists i :: 0 <= i < |frames| && Sampled(i, frameSkip) && MatchedBoxes(frames[i], Search(encoding, tolerance, compare)) != []
  {
    NoDetections(frames, frameSkip, Search(encoding, tolerance, compare));
  }

  /** The running totals of one scan: the counters and list the scanning loop updates. */
  datatype Tally = Tally(detectedFrames: nat, detectionTimestamps: seq<real>,
                         detectionFramePath: Option<string>, snapshot: Option<SavedImage>)

  /** `tally` is what the detections `ds` have produced so far. */
  ghost predicate TallyOf(tally: Tally, ds: seq<Detection>, fps: nat, outputVideoPath: string) {
    && (fps > 0 || ds == [])
    && tally.detectedFrames == |ds|
    && tally.detectionTimestamps == Timestamps(ds, fps)
    && tally.detectionFramePath == (if ds == [] then None else Some(SnapshotPath(outputVideoPath)))
    && tally.snapshot == FirstSnapshot(ds, outputVideoPath)
  }

  /**
   * Recording one more matching face of frame `frameCount` keeps the totals
   * in step with the detections: one more count, its timestamp, and the
   * snapshot path and image set on the first match only.
   */
  lemma RecordDetection(tally: Tally, before: seq<Detection>, frameCount: nat, boxes: seq<Box>, box: Box,
                        fps: nat, outputVideoPath: string, path: Option<string>, snapshot: Option<SavedImage>)
    requires TallyOf(tally, before + FrameDetections(frameCount, boxes), fps, outputVideoPath) && fps > 0
    requires path == if tally.detectionFramePath.None? then Some(SnapshotPath(outputVideoPath)) else tally.detectionFramePath
    requires snapshot == if tally.detectionFramePath.None?
                         then Some(SavedImage(SnapshotPath(outputVideoPath), Image(frameCount, boxes + [box])))
                         else tally.snapshot
    ensures TallyOf(Tally(tally.detectedFrames + 1, tally.detectionTimestamps + [Timestamp(frameCount, fps)], path, snapshot),
                    before + FrameDetections(frameCount, boxes + [box]), fps, outputVideoPath)
  {
    var ds := before + FrameDetections(frameCount, boxes);
    var d := Detection(frameCount, box, boxes + [box]);
    FrameDetectionsStep(frameCount, boxes, box);
    assert before + FrameDetections(frameCount, boxes + [box]) == ds + [d];
    TimestampsStep(ds, d, fps);
  }

  /**
   * The per-face loop over one sampled frame: each matching face is boxed on
   * the frame buffer, counted and timestamped, and the first match of the
   * whole scan saves the snapshot. Faults when a face matches and the rate is 0.
   * Returns the boxes drawn on the frame and the updated totals.
   */
  method ScanFaces(frame: Frame, frameCount: nat, fps: nat, search: Search, outputVideoPath: string,
                   tally: Tally, ghost before: seq<Detection>)
    returns (faulted: bool, boxes: seq<Box>, next: Tally)
    requires TallyOf(tally, before, fps, outputVideoPath)
    ensures faulted <==> fps == 0 && MatchedBoxes(frame, search) != []
    ensures !faulted ==> boxes == MatchedBoxes(frame, search)
    ensures !faulted ==> TallyOf(next, before + FrameDetections(frameCount, boxes), fps, outputVideoPath)
  {
    var detectedFrames := tally.detectedFrames;
    var detectionTimestamps := tally.detectionTimestamps;
    var detectionFramePath := tally.detectionFramePath;
    var snapshot := tally.snapshot;
    boxes := [];
    var i := 0;
    assert frame[..0] == [];
    assert before + FrameDetections(frameCount, boxes) == before;
    while i < |frame|
      invariant i <= |frame|
      invariant boxes == MatchedBoxes(frame[..i], search)
      invariant TallyOf(Tally(detectedFrames, detectionTimestamps, detectionFramePath, snapshot),
                        before + FrameDetections(frameCount, boxes), fps, outputVideoPath)
    {
      MatchedBoxesStep(frame, i, search);
      if IsMatch(search, frame[i]) {
        if fps == 0 {
          assert MatchedBoxes(frame, search) != [];
          faulted, next := true, tally;
          return;
        }
        var timestamp := frameCount as real / fps as real;
        ghost var previous := Tally(detectedFrames, detectionTimestamps, detectionFramePath, snapshot);
        detectedFrames := detectedFrames + 1;
        detectionTimestamps := detectionTimestamps + [timestamp];
        if detectionFramePath.None? {
          detectionFramePath := Some(SnapshotPath(outputVideoPath));
          snapshot := Some(SavedImage(detectionFramePath.value, Image(frameCount, boxes + [frame[i].location])));
        }
        RecordDetection(previous, before, frameCount, boxes, frame[i].location, fps, outputVideoPath,
                        detectionFramePath, snapshot);
        boxes := boxes + [frame[i].location];
      }
      i := i + 1;
    }
    assert frame[..i] == frame;
    faulted := false;
    next := Tally(detectedFrames, detectionTimestamps, detectionFramePath, snapshot);
  }

  /** After `n` raw frames, the totals and the frames written are those of the first `n` frames. */
  ghost predicate ScannedUpTo(frames: seq<Frame>, n: nat, frameSkip: int, search: Search, fps: nat,
                              outputVideoPath: string, tally: Tally, written: seq<Image>)
  {
    && n <= |frames|
    && TallyOf(tally, Detections(frames[..n], frameSkip, search), fps, outputVideoPath)
    && written == Written(frames[..n], frameSkip, search)
  }

  /**
   * One more raw frame: a skipped frame changes nothing; a sampled frame adds
   * its matching faces' detections and is written with their boxes.
   */
  lemma AdvanceFrame(frames: seq<Frame>, n: nat, frameSkip: int, search: Search, fps: nat, outputVideoPath: string,
                     tally: Tally, written: seq<Image>, next: Tally, boxes: seq<Box>)
    requires ScannedUpTo(frames, n, frameSkip, search, fps, outputVideoPath, tally, written) && n < |frames|
    requires Sampled(n, frameSkip) ==>
      && boxes == MatchedBoxes(frames[n], search)
      && TallyOf(next, Detections(frames[..n], frameSkip, search) + FrameDetections(n, boxes), fps, outputVideoPath)
    requires !Sampled(n, frameSkip) ==> next == tally
    ensures ScannedUpTo(frames, n + 1, frameSkip, search, fps, outputVideoPath, next,
                        if Sampled(n, frameSkip) then written + [Image(n, boxes)] else written)
  {
    DetectionsStep(frames, n, frameSkip, search);
  }

  /** A sampled frame with a matching face makes the whole scan's detections non-empty. */
  lemma MatchMakesDetections(frames: seq<Frame>, n: nat, frameSkip: int, search: Search)
    requires n < |frames| && Sampled(n, frameSkip) && MatchedBoxes(frames[n], search) != []
    ensures Detections(frames, frameSkip, search) != []
  {
    DetectionsStep(frames, n, frameSkip, search);
    DetectionsGrow(frames, n + 1, frameSkip, search);
  }

  /**
   * The frame loop of the scan: reads every raw frame, counts it, and hands
   * each sampled frame to the per-face loop before writing it; a sampled
   * frame whose raw index is a multiple of 100 then reports progress against
   * the reported frame count. Raises `ZeroDivisionError` on the first frame when
   * the stride is 0, at the first matching face when the rate is 0, and after
   * writing the first frame when the reported count is 0 (by then the first
   * frame's match, if any, has been saved as the snapshot). Returns whether
   * it faulted, the totals and the frames written.
   */
  method ScanFrames(frames: seq<Frame>, fps: nat, totalFrames: int, frameSkip: int, search: Search,
                    outputVideoPath: string)
    returns (faulted: bool, tally: Tally, written: seq<Image>)
    ensures faulted <==>
      || (|frames| > 0 && (frameSkip == 0 || totalFrames == 0))
      || (fps == 0 && Detections(frames, frameSkip, search) != [])
    ensures faulted ==>
      tally.snapshot ==
        (if frameSkip != 0 && fps > 0 then FirstSnapshot(Detections(frames[..1], frameSkip, search), outputVideoPath) else None)
    ensures !faulted ==>
      && TallyOf(tally, Detections(frames, frameSkip, search), fps, outputVideoPath)
      && written == Written(frames, frameSkip, search)
  {
    var frameCount: nat := 0;
    tally, written := Tally(0, [], None, None), [];
    assert frames[..0] == [];

    while frameCount < |frames|
      invariant frameCount > 0 ==> frameSkip != 0 && totalFrames != 0
      invariant ScannedUpTo(frames, frameCount, frameSkip, search, fps, outputVideoPath, tally, written)
    {
      var frame := frames[frameCount];
      if frameSkip == 0 {
        faulted := true;
        return;
      }
      if frameCount % frameSkip == 0 {
        var failed, boxes, next := ScanFaces(frame, frameCount, fps, search, outputVideoPath, tally,
                                             Detections(frames[..frameCount], frameSkip, search));
        if failed {
          MatchMakesDetections(frames, frameCount, frameSkip, search);
          faulted := true;
          return;
        }
        AdvanceFrame(frames, frameCount, frameSkip, search, fps, outputVideoPath, tally, written, next, boxes);
        tally := next;
        written := written + [Image(frameCount, boxes)];
        if frameCount % 100 == 0 && totalFrames == 0 {
          faulted := true;
          return;
        }
      } else {
        AdvanceFrame(frames, frameCount, frameSkip, search, fps, outputVideoPath, tally, written, tally, []);
      }
      frameCount := frameCount + 1;
    }
    assert frames[..frameCount] == frames;
    faulted := false;
  }

  class PersonDetector {
    const personImagePath: string
    const videoPath: string
    var personEncoding: Option<Encoding>

    constructor (personImagePath: string, videoPath: string)
      ensures this.personImagePath == personImagePath && this.videoPath == videoPath
      ensures personEncoding == None
    {
      this.personImagePath := personImagePath;
      this.videoPath := videoPath;
      personEncoding := None;
    }

    /**
     * Loads the reference face from what reading `personImagePath` yields.
     * The first face found wins; with no face, or when loading raises, the
     * encoding is left as it was.
     */
    method LoadPersonEncoding(image: ImageLoad) returns (success: bool, message: string)
      modifies this
      ensures image.LoadError? ==>
        !success && message == LoadErrorPrefix + image.reason && personEncoding == old(personEncoding)
      ensures image.Decoded? && image.faceEncodings == [] ==>
        !success && message == NoFaceMessage && personEncoding == old(personEncoding)
      ensures image.Decoded? && image.faceEncodings != [] ==>
        success && message == LoadedMessage && personEncoding == Some(image.faceEncodings[0])
    {
      match image
      case LoadError(reason) =>
        success, message := false, LoadErrorPrefix + reason;
      case Decoded(faceEncodings) =>
        if |faceEncodings| == 0 {
          success, message := false, NoFaceMessage;
          return;
        }
        personEncoding := Some(faceEncodings[0]);
        success, message := true, LoadedMessage;
    }

    /**
     * Scans `video`: every raw frame is counted; each sampled frame has its
     * matching faces boxed and is written; each matching face adds one
     * timestamp; the first matching face also saves the snapshot. Returns the
     * outcome, the writer, the frames written and the snapshot saved.
     */
    method DetectPersonInVideo(video: VideoSource, attempt: Codec -> WriterInit, compare: CompareFaces,
                               outputVideoPath: string, tolerance: real, frameSkip: int)
      returns (outcome: DetectOutcome, writer: Option<VideoWriter>, written: seq<Image>, snapshot: Option<SavedImage>)
      ensures outcome == ScanOutcome(personEncoding, video, attempt, compare, outputVideoPath, tolerance, frameSkip)
      ensures personEncoding.None? ==> outcome == Refused(NotLoadedMessage) && writer.None? && written == []
      ensures outcome.Refused? ==> writer.None? && written == [] && snapshot.None?
      ensures outcome.Completed? ==>
        && personEncoding.Some? && video.Opened?
        && var search := Search(personEncoding.value, tolerance, compare);
           && writer == Some(OpenWriter(attempt))
           && written == Written(video.frames, frameSkip, search)
           && snapshot == FirstSnapshot(Detections(video.frames, frameSkip, search), outputVideoPath)
      ensures snapshot.Some? ==>
        && personEncoding.Some? && video.Opened?
        && snapshot == FirstSnapshot(Detections(video.frames, frameSkip, Search(personEncoding.value, tolerance, compare)),
                                     outputVideoPath)
      ensures outcome.Raised? && video.Opened? && (video.fps == 0 || frameSkip == 0) ==> snapshot.None?
      ensures outcome == Raised(WriterInitFault) ==> snapshot.None?
      ensures outcome == Raised(ZeroDivision) && personEncoding.Some? && video.Opened? && |video.frames| > 0 ==>
        snapshot ==
          (if frameSkip != 0 && video.fps > 0
           then FirstSnapshot(Detections(video.frames[..1], frameSkip, Search(personEncoding.value, tolerance, compare)),
                              outputVideoPath)
           else None)
    {
      written, snapshot := [], None;
      writer := None;
      if personEncoding.None? {
        outcome := Refused(NotLoadedMessage);
        return;
      }
      if video.Unopenable? {
        outcome := Refused(VideoOpenMessage);
        return;
      }
      var frames := video.frames;
      var fps := video.fps;
      var out := OpenWriter(attempt);
      writer := Some(out);
      if out == WriterFault {
        outcome := Raised(WriterInitFault);
        return;
      }
      var search := Search(personEncoding.value, tolerance, compare);
      var faulted, tally;
      faulted, tally, written := ScanFrames(frames, fps, video.reportedFrameCount, frameSkip, search, outputVideoPath);
      snapshot := tally.snapshot;
      if snapshot.Some? && faulted {
        DetectionsGrow(frames, 1, frameSkip, search);
      }
      if faulted {
        outcome := Raised(ZeroDivision);
        return;
      }
      outcome := Completed(Summary(|frames|, tally.detectedFrames, tally.detectionTimestamps, outputVideoPath,
                                   tally.detectionFramePath));
    }
  }
}
