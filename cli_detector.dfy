/**
 * The command-line `PersonDetector`: loads the reference face, then scans
 * the video and, for every matching face of a sampled frame, saves the frame
 * as drawn so far under a name carrying the frame number and the detection
 * number.
 */
module CliDetector {
  import opened Common
  import opened Text
  import opened Scanning

  const OutputDir := "detected_frames"

  /**
   * How `detect_person_in_video` ends: an early return (no encoding, or the
   * video does not open), the `ZeroDivisionError` of a zero stride, or a
   * finished scan with the two totals it prints.
   */
  datatype CliOutcome = NotLoaded | VideoNotOpened | Crashed | Finished(totalFrames: nat, detectedFrames: nat)

  /** `f"frame_{frame_count:06d}_detection_{detected_frames:03d}.jpg"`. */
  function FrameFileName(frameCount: nat, detection: nat): (r: string)
    ensures |r| >= 30 && r[..6] == "frame_" && r[|r| - 4..] == ".jpg"
  {
    "frame_" + ZeroPad(frameCount, 6) + "_detection_" + ZeroPad(detection, 3) + ".jpg"
  }

  /** The two digit fields of a saved name are delimited by the literal text around them. */
  lemma NameFieldsSplit(a1: string, b1: string, a2: string, b2: string)
    requires AllDigits(a1) && AllDigits(b1) && AllDigits(a2) && AllDigits(b2)
    requires "frame_" + a1 + "_detection_" + b1 + ".jpg" == "frame_" + a2 + "_detection_" + b2 + ".jpg"
    ensures a1 == a2 && b1 == b2
  {
    var x1, x2 := "_detection_" + b1 + ".jpg", "_detection_" + b2 + ".jpg";
    assert a1 + x1 == ("frame_" + a1 + "_detection_" + b1 + ".jpg")[6..];
    assert a2 + x2 == ("frame_" + a2 + "_detection_" + b2 + ".jpg")[6..];
    assert x1[0] == '_' && x2[0] == '_';
    DigitRunSplit(a1, x1, a2, x2);
    assert b1 + ".jpg" == x1[11..];
    assert b2 + ".jpg" == x2[11..];
    DigitRunSplit(b1, ".jpg", b2, ".jpg");
  }

  /** A saved name gives back both its numbers: different detections never share a name. */
  lemma FrameFileNameInjective(f1: nat, d1: nat, f2: nat, d2: nat)
    requires FrameFileName(f1, d1) == FrameFileName(f2, d2)
    ensures f1 == f2 && d1 == d2
  {
    NameFieldsSplit(ZeroPad(f1, 6), ZeroPad(d1, 3), ZeroPad(f2, 6), ZeroPad(d2, 3));
    ZeroPadRoundTrip(f1, 6);
    ZeroPadRoundTrip(f2, 6);
    ZeroPadRoundTrip(d1, 3);
    ZeroPadRoundTrip(d2, 3);
  }

  /** The files a scan saves: the k-th detection under detection number k, as drawn at that moment. */
  function SavedImages(ds: seq<Detection>, directory: string): (r: seq<SavedImage>)
    ensures |r| == |ds|
  {
    if ds == [] then []
    else
      var n := |ds| - 1;
      SavedImages(ds[..n], directory) +
        [SavedImage(JoinPath(directory, FrameFileName(ds[n].frameIndex, n)), Image(ds[n].frameIndex, ds[n].drawn))]
  }

  /** The k-th saved file holds the k-th detection's frame, named after its frame and detection numbers. */
  lemma {:induction false} SavedImagesAt(ds: seq<Detection>, directory: string)
    ensures forall k :: 0 <= k < |ds| ==>
      SavedImages(ds, directory)[k] ==
        SavedImage(JoinPath(directory, FrameFileName(ds[k].frameIndex, k)), Image(ds[k].frameIndex, ds[k].drawn))
  {
    if ds != [] {
      SavedImagesAt(ds[..|ds| - 1], directory);
    }
  }

  lemma SavedImagesStep(ds: seq<Detection>, d: Detection, directory: string)
    ensures SavedImages(ds + [d], directory) ==
      SavedImages(ds, directory) + [SavedImage(JoinPath(directory, FrameFileName(d.frameIndex, |ds|)), Image(d.frameIndex, d.drawn))]
  {
    assert (ds + [d])[..|ds|] == ds;
  }

  /** No saved file overwrites another: the detection numbers, hence the paths, are all different. */
  lemma SavedPathsDistinct(ds: seq<Detection>, directory: string)
    ensures forall a, b :: 0 <= a < b < |ds| ==> SavedImages(ds, directory)[a].path != SavedImages(ds, directory)[b].path
  {
    var r := SavedImages(ds, directory);
    SavedImagesAt(ds, directory);
    forall a, b | 0 <= a < b < |ds| ensures r[a].path != r[b].path {
      if r[a].path == r[b].path {
        JoinPathInjective(directory, FrameFileName(ds[a].frameIndex, a), FrameFileName(ds[b].frameIndex, b));
        FrameFileNameInjective(ds[a].frameIndex, a, ds[b].frameIndex, b);
      }
    }
  }

  /**
   * What the saved images show: each is a sampled frame with a non-empty
   * prefix of its matching boxes drawn, ending with the face that triggered
   * the save; a later save of the same frame shows strictly more boxes.
   */
  lemma SavedImagesCumulative(frames: seq<Frame>, frameSkip: int, search: Search, directory: string)
    ensures var r := SavedImages(Detections(frames, frameSkip, search), directory);
      && (forall k :: 0 <= k < |r| ==>
            && r[k].image.frameIndex < |frames|
            && Sampled(r[k].image.frameIndex, frameSkip)
            && r[k].image.boxes != []
            && r[k].image.boxes <= MatchedBoxes(frames[r[k].image.frameIndex], search))
      && (forall a, b :: 0 <= a < b < |r| && r[a].image.frameIndex == r[b].image.frameIndex ==>
            r[a].image.boxes < r[b].image.boxes)
  {
    SavedImagesAt(Detections(frames, frameSkip, search), directory);
    DetectionsSampled(frames, frameSkip, search);
    DrawnAccumulates(frames, frameSkip, search);
  }

  /** What `detect_person_in_video` ends with, for the given encoding and inputs. */
  function ScanOutcome(encoding: Option<Encoding>, video: VideoSource, compare: CompareFaces,
                       tolerance: real, frameSkip: int): (r: CliOutcome)
    ensures encoding.None? ==> r == NotLoaded
    ensures r == Crashed ==> frameSkip == 0 && video.Opened? && video.frames != []
    ensures encoding.Some? && video.Opened? && frameSkip != 0 ==> r.Finished?
    ensures r.Finished? ==> video.Opened? && r.totalFrames == |video.frames|
  {
    if encoding.None? then NotLoaded
    else if video.Unopenable? then VideoNotOpened
    else if |video.frames| > 0 && frameSkip == 0 then Crashed
    else Finished(|video.frames|, |Detections(video.frames, frameSkip, Search(encoding.value, tolerance, compare))|)
  }

  /**
   * A finished scan reports as many detections as files saved, and none
   * exactly when no sampled frame has a matching face.
   */
  lemma FinishedCounts(encoding: Option<Encoding>, video: VideoSource, compare: CompareFaces,
                       tolerance: real, frameSkip: int)
    requires ScanOutcome(encoding, video, compare, tolerance, frameSkip).Finished?
    ensures encoding.Some? && video.Opened?
    ensures var r := ScanOutcome(encoding, video, compare, tolerance, frameSkip);
      var search := Search(encoding.value, tolerance, compare);
      && r.detectedFrames == |SavedImages(Detections(video.frames, frameSkip, search), OutputDir)|
      && (r.detectedFrames == 0 <==>
          forall i :: 0 <= i < |video.frames| && Sampled(i, frameSkip) ==> MatchedBoxes(video.frames[i], search) == [])
  {
    NoDetections(video.frames, frameSkip, Search(encoding.value, tolerance, compare));
  }

  /** The files saved and the detection counter agree with the detections made so far. */
  ghost predicate SavesOf(saved: seq<SavedImage>, detectedFrames: nat, ds: seq<Detection>, directory: string) {
    saved == SavedImages(ds, directory) && detectedFrames == |ds|
  }

  /** Saving the frame for one more matching face of frame `frameCount` keeps the saved files in step. */
  lemma RecordSave(saved: seq<SavedImage>, detectedFrames: nat, before: seq<Detection>, directory: string,
                   frameCount: nat, boxes: seq<Box>, box: Box)
    requires SavesOf(saved, detectedFrames, before + FrameDetections(frameCount, boxes), directory)
    ensures SavesOf(saved + [SavedImage(JoinPath(directory, FrameFileName(frameCount, detectedFrames)), Image(frameCount, boxes + [box]))],
                    detectedFrames + 1, before + FrameDetections(frameCount, boxes + [box]), directory)
  {
    var ds := before + FrameDetections(frameCount, boxes);
    FrameDetectionsStep(frameCount, boxes, box);
    assert before + FrameDetections(frameCount, boxes + [box]) == ds + [Detection(frameCount, box, boxes + [box])];
    SavedImagesStep(ds, Detection(frameCount, box, boxes + [box]), directory);
  }

  /**
   * The inner loop of the scan over one sampled frame: each matching face
   * is drawn onto the frame and the frame, as drawn so far, is saved under
   * the next detection number.
   */
  method SaveFrameMatches(frame: Frame, frameCount: nat, search: Search, directory: string,
                          ghost before: seq<Detection>, saved: seq<SavedImage>, detectedFrames: nat)
    returns (savedAfter: seq<SavedImage>, detectedAfter: nat)
    requires SavesOf(saved, detectedFrames, before, directory)
    ensures SavesOf(savedAfter, detectedAfter, before + FrameDetections(frameCount, MatchedBoxes(frame, search)), directory)
  {
    savedAfter, detectedAfter := saved, detectedFrames;
    var boxes: seq<Box> := [];
    var i := 0;
    assert frame[..0] == [];
    assert before + FrameDetections(frameCount, boxes) == before;
    while i < |frame|
      invariant i <= |frame|
      invariant boxes == MatchedBoxes(frame[..i], search)
      invariant SavesOf(savedAfter, detectedAfter, before + FrameDetections(frameCount, boxes), directory)
    {
      MatchedBoxesStep(frame, i, search);
      if IsMatch(search, frame[i]) {
        var frameFilename := FrameFileName(frameCount, detectedAfter);
        var framePath := JoinPath(directory, frameFilename);
        RecordSave(savedAfter, detectedAfter, before, directory, frameCount, boxes, frame[i].location);
        boxes := boxes + [frame[i].location];
        savedAfter := savedAfter + [SavedImage(framePath, Image(frameCount, boxes))];
        detectedAfter := detectedAfter + 1;
      }
      i := i + 1;
    }
    assert frame[..i] == frame;
  }

  /** After `n` raw frames, the files saved are those of the first `n` frames' detections. */
  ghost predicate ScannedUpTo(frames: seq<Frame>, n: nat, frameSkip: int, search: Search, directory: string,
                              saved: seq<SavedImage>, detectedFrames: nat)
  {
    n <= |frames| && SavesOf(saved, detectedFrames, Detections(frames[..n], frameSkip, search), directory)
  }

  /** A frame that is not sampled saves nothing. */
  lemma SkipFrame(frames: seq<Frame>, n: nat, frameSkip: int, search: Search, directory: string,
                  saved: seq<SavedImage>, detectedFrames: nat)
    requires ScannedUpTo(frames, n, frameSkip, search, directory, saved, detectedFrames)
    requires n < |frames| && !Sampled(n, frameSkip)
    ensures ScannedUpTo(frames, n + 1, frameSkip, search, directory, saved, detectedFrames)
  {
    DetectionsStep(frames, n, frameSkip, search);
    var prev := Detections(frames[..n], frameSkip, search);
    assert prev + FrameHits(n, frames[n], frameSkip, search) == prev;
  }

  /**
   * The frame loop of the scan: reads and counts every raw frame and hands
   * each sampled one to the per-face loop. A stride of 0 raises
   * `ZeroDivisionError` on the first frame, before anything is saved.
   * Returns whether it crashed, the detection count and the files saved.
   */
  method ScanFrames(frames: seq<Frame>, frameSkip: int, search: Search, directory: string)
    returns (crashed: bool, detectedFrames: nat, saved: seq<SavedImage>)
    ensures crashed <==> |frames| > 0 && frameSkip == 0
    ensures crashed ==> saved == []
    ensures !crashed ==> SavesOf(saved, detectedFrames, Detections(frames, frameSkip, search), directory)
  {
    var frameCount: nat := 0;
    detectedFrames, saved := 0, [];
    assert frames[..0] == [];

    while frameCount < |frames|
      invariant frameCount > 0 ==> frameSkip != 0
      invariant ScannedUpTo(frames, frameCount, frameSkip, search, directory, saved, detectedFrames)
    {
      if frameSkip == 0 {
        crashed := true;
        return;
      }
      if frameCount % frameSkip == 0 {
        DetectionsStep(frames, frameCount, frameSkip, search);
        saved, detectedFrames := SaveFrameMatches(frames[frameCount], frameCount, search, directory,
                                                  Detections(frames[..frameCount], frameSkip, search), saved, detectedFrames);
      } else {
        SkipFrame(frames, frameCount, frameSkip, search, directory, saved, detectedFrames);
      }
      frameCount := frameCount + 1;
    }
    assert frames[..frameCount] == frames;
    crashed := false;
  }

  class PersonDetector {
    const personImagePath: string
    const videoPath: string
    const outputDir: string
    var personEncoding: Option<Encoding>

    constructor (personImagePath: string, videoPath: string)
      ensures this.personImagePath == personImagePath && this.videoPath == videoPath
      ensures outputDir == OutputDir && personEncoding == None
    {
      this.personImagePath := personImagePath;
      this.videoPath := videoPath;
      outputDir := OutputDir;
      personEncoding := None;
    }

    /**
     * Loads the reference face: the first face found wins; with no face, or
     * when loading raises, returns false and leaves the encoding as it was.
     */
    method LoadPersonEncoding(image: ImageLoad) returns (success: bool)
      modifies this
      ensures success <==> image.Decoded? && image.faceEncodings != []
      ensures success ==> personEncoding == Some(image.faceEncodings[0])
      ensures !success ==> personEncoding == old(personEncoding)
    {
      match image
      case LoadError(_) =>
        success := false;
      case Decoded(faceEncodings) =>
        if |faceEncodings| == 0 {
          success := false;
          return;
        }
        personEncoding := Some(faceEncodings[0]);
        success := true;
    }

    /**
     * Scans `video`: counts every raw frame and, in each sampled frame, saves
     * one image per matching face. Returns how the scan ended and the files
     * saved, in order.
     */
    method DetectPersonInVideo(video: VideoSource, compare: CompareFaces, tolerance: real, frameSkip: int)
      returns (outcome: CliOutcome, saved: seq<SavedImage>)
      ensures outcome == ScanOutcome(personEncoding, video, compare, tolerance, frameSkip)
      ensures personEncoding.None? ==> outcome == NotLoaded && saved == []
      ensures outcome.Finished? ==>
        && personEncoding.Some? && video.Opened?
        && saved == SavedImages(Detections(video.frames, frameSkip, Search(personEncoding.value, tolerance, compare)), outputDir)
      ensures !outcome.Finished? ==> saved == []
    {
      saved := [];
      if personEncoding.None? {
        outcome := NotLoaded;
        return;
      }
      if video.Unopenable? {
        outcome := VideoNotOpened;
        return;
      }
      var frames := video.frames;
      var search := Search(personEncoding.value, tolerance, compare);
      var crashed, detectedFrames;
      crashed, detectedFrames, saved := ScanFrames(frames, frameSkip, search, outputDir);
      if crashed {
        outcome := Crashed;
        return;
      }
      outcome := Finished(|frames|, detectedFrames);
    }

    /**
     * Loads the reference face and scans only when that succeeds. Returns the
     * scan's outcome (absent when no scan ran) and the files saved.
     */
    method RunDetection(image: ImageLoad, video: VideoSource, compare: CompareFaces, tolerance: real, frameSkip: int)
      returns (outcome: Option<CliOutcome>, saved: seq<SavedImage>)
      modifies this
      ensures outcome.None? <==> !(image.Decoded? && image.faceEncodings != [])
      ensures outcome.None? ==> saved == [] && personEncoding == old(personEncoding)
      ensures outcome.Some? ==>
        && image.Decoded? && image.faceEncodings != []
        && personEncoding == Some(image.faceEncodings[0])
        && outcome.value == ScanOutcome(personEncoding, video, compare, tolerance, frameSkip)
        && outcome.value != NotLoaded
        && (outcome.value.Finished? ==>
              saved == SavedImages(Detections(video.frames, frameSkip, Search(image.faceEncodings[0], tolerance, compare)), outputDir))
    {
      var loaded := LoadPersonEncoding(image);
      if !loaded {
        outcome, saved := None, [];
        return;
      }
      var result;
      result, saved := DetectPersonInVideo(video, compare, tolerance, frameSkip);
      outcome := Some(result);
    }
  }
}
