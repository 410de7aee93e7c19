/**
 * The frame-scanning rules both `PersonDetector` classes share, stated on
 * values: which raw frames are sampled, which faces of a sampled frame match
 * the reference, the detection events that result (one per matching face) and
 * the images that are drawn from them.
 *
 * The face library is abstract here. A decoded frame is the list of faces
 * that `face_locations` and `face_encodings` report for it, in their order,
 * and `compare_faces([reference], candidate, tolerance)[0]` is a given
 * total function.
 */
module Scanning {
  import opened Common

  /** A face location as `(top, right, bottom, left)` pixel coordinates. */
  datatype Box = Box(top: int, right: int, bottom: int, left: int)

  type Encoding = seq<real>

  datatype Face = Face(location: Box, encoding: Encoding)

  /** One raw video frame, seen through the faces found in it. */
  type Frame = seq<Face>

  /** `compare_faces([reference], candidate, tolerance=tolerance)[0]`. */
  type CompareFaces = (Encoding, Encoding, real) -> bool

  /** What a scan looks for: the reference encoding, the tolerance and the comparison. */
  datatype Search = Search(reference: Encoding, tolerance: real, compare: CompareFaces)

  /**
   * What `cv2.VideoCapture(path)` yields: nothing, or the rate and the frame
   * count the container reports (after `int(...)`) and every raw frame read.
   * The reported count need not be the number of frames actually read.
   */
  datatype VideoSource = Unopenable | Opened(fps: nat, reportedFrameCount: int, frames: seq<Frame>)

  /** What loading the reference image yields: an exception text, or the encodings of its faces. */
  datatype ImageLoad = LoadError(reason: string) | Decoded(faceEncodings: seq<Encoding>)

  /**
   * One matching face: the raw frame it is in, its box, and the boxes drawn on
   * that frame's buffer once it has been drawn (the earlier matches of the
   * same frame, then this one).
   */
  datatype Detection = Detection(frameIndex: nat, location: Box, drawn: seq<Box>)

  /** A frame buffer as written out: raw frame `frameIndex` with `boxes` drawn on it. */
  datatype Image = Image(frameIndex: nat, boxes: seq<Box>)

  datatype SavedImage = SavedImage(path: string, image: Image)

  /**
   * `frame_count % frame_skip == 0`. Python's `%` yields 0 exactly when the
   * divisor divides the index, whatever the divisor's sign, and so does
   * Dafny's; a zero stride raises instead and samples nothing.
   */
  predicate Sampled(index: nat, frameSkip: int) {
    frameSkip != 0 && index % frameSkip == 0
  }

  predicate IsMatch(search: Search, face: Face) {
    search.compare(search.reference, face.encoding, search.tolerance)
  }

  /** The boxes of the matching faces of a frame, in the library's enumeration order. */
  function MatchedBoxes(faces: seq<Face>, search: Search): (r: seq<Box>)
    ensures |r| <= |faces|
    ensures r == [] <==> forall j :: 0 <= j < |faces| ==> !IsMatch(search, faces[j])
  {
    if faces == [] then []
    else
      var n := |faces| - 1;
      assert forall j :: 0 <= j < n ==> faces[..n][j] == faces[j];
      MatchedBoxes(faces[..n], search) + (if IsMatch(search, faces[n]) then [faces[n].location] else [])
  }

  /** The positions of the matching faces of a frame, in increasing order. */
  function MatchIndices(faces: seq<Face>, search: Search): (r: seq<nat>)
    ensures forall k :: 0 <= k < |r| ==> r[k] < |faces| && IsMatch(search, faces[r[k]])
    ensures forall a, b :: 0 <= a < b < |r| ==> r[a] < r[b]
    ensures forall j :: 0 <= j < |faces| && IsMatch(search, faces[j]) ==> j in r
  {
    if faces == [] then []
    else
      var n := |faces| - 1;
      assert forall j :: 0 <= j < n ==> faces[..n][j] == faces[j];
      MatchIndices(faces[..n], search) + (if IsMatch(search, faces[n]) then [n] else [])
  }

  /**
   * `MatchedBoxes` holds exactly one box per matching face, in face order: its
   * k-th box is the box of the k-th matching face.
   */
  lemma {:induction false} MatchedBoxesByIndex(faces: seq<Face>, search: Search)
    ensures |MatchedBoxes(faces, search)| == |MatchIndices(faces, search)|
    ensures forall k :: 0 <= k < |MatchedBoxes(faces, search)| ==>
      MatchedBoxes(faces, search)[k] == faces[MatchIndices(faces, search)[k]].location
  {
    if faces != [] {
      var n := |faces| - 1;
      MatchedBoxesByIndex(faces[..n], search);
      MatchedBoxesByIndexStep(faces, search);
    }
  }

  lemma MatchedBoxesByIndexStep(faces: seq<Face>, search: Search)
    requires faces != []
    requires var n := |faces| - 1;
      && |MatchedBoxes(faces[..n], search)| == |MatchIndices(faces[..n], search)|
      && forall k :: 0 <= k < |MatchedBoxes(faces[..n], search)| ==>
        MatchedBoxes(faces[..n], search)[k] == faces[..n][MatchIndices(faces[..n], search)[k]].location
    ensures |MatchedBoxes(faces, search)| == |MatchIndices(faces, search)|
    ensures forall k :: 0 <= k < |MatchedBoxes(faces, search)| ==>
      MatchedBoxes(faces, search)[k] == faces[MatchIndices(faces, search)[k]].location
  {
    var n := |faces| - 1;
    var prevBoxes, prevIndices := MatchedBoxes(faces[..n], search), MatchIndices(faces[..n], search);
    forall k | 0 <= k < |prevBoxes| ensures prevBoxes[k] == faces[prevIndices[k]].location {
      assert faces[..n][prevIndices[k]] == faces[prevIndices[k]];
    }
    if IsMatch(search, faces[n]) {
      assert MatchedBoxes(faces, search) == prevBoxes + [faces[n].location];
      assert MatchIndices(faces, search) == prevIndices + [n];
    } else {
      assert MatchedBoxes(faces, search) == prevBoxes;
      assert MatchIndices(faces, search) == prevIndices;
    }
  }

  /** Every matching face of a frame has its box among the frame's matched boxes. */
  lemma {:induction false} EveryMatchBoxed(faces: seq<Face>, search: Search)
    ensures forall j :: 0 <= j < |faces| && IsMatch(search, faces[j]) ==>
      faces[j].location in MatchedBoxes(faces, search)
  {
    MatchedBoxesByIndex(faces, search);
    var boxes, indices := MatchedBoxes(faces, search), MatchIndices(faces, search);
    forall j | 0 <= j < |faces| && IsMatch(search, faces[j]) ensures faces[j].location in boxes {
      var k :| 0 <= k < |indices| && indices[k] == j;
      assert boxes[k] == faces[j].location;
    }
  }

  /** The detections a frame contributes: one per matching box, each drawn on top of the earlier ones. */
  function FrameDetections(index: nat, boxes: seq<Box>): (r: seq<Detection>)
    ensures |r| == |boxes|
    ensures forall j :: 0 <= j < |r| ==> r[j] == Detection(index, boxes[j], boxes[..j + 1])
  {
    if boxes == [] then []
    else
      var n := |boxes| - 1;
      assert boxes[..n + 1] == boxes;
      FrameDetections(index, boxes[..n]) + [Detection(index, boxes[n], boxes)]
  }

  /** The detections raw frame `index` contributes: none unless it is sampled. */
  function FrameHits(index: nat, frame: Frame, frameSkip: int, search: Search): seq<Detection> {
    if Sampled(index, frameSkip) then FrameDetections(index, MatchedBoxes(frame, search)) else []
  }

  /** Every detection of a scan over `frames`, in processing order. */
  function Detections(frames: seq<Frame>, frameSkip: int, search: Search): seq<Detection> {
    if frames == [] then []
    else
      var n := |frames| - 1;
      Detections(frames[..n], frameSkip, search) + FrameHits(n, frames[n], frameSkip, search)
  }

  /** The frames handed to the output writer: every sampled frame, with its matching faces boxed. */
  function Written(frames: seq<Frame>, frameSkip: int, search: Search): seq<Image> {
    if frames == [] then []
    else
      var n := |frames| - 1;
      Written(frames[..n], frameSkip, search)
        + (if Sampled(n, frameSkip) then [Image(n, MatchedBoxes(frames[n], search))] else [])
  }

  /** The indices below `n` that the stride samples, in increasing order. */
  function SampledIndices(n: nat, frameSkip: int): seq<nat> {
    if n == 0 then []
    else SampledIndices(n - 1, frameSkip) + (if Sampled(n - 1, frameSkip) then [n - 1] else [])
  }

  /** The detections among `ds` that belong to raw frame `index`, in order. */
  function DetectionsAt(ds: seq<Detection>, index: nat): seq<Detection> {
    if ds == [] then []
    else
      var n := |ds| - 1;
      DetectionsAt(ds[..n], index) + (if ds[n].frameIndex == index then [ds[n]] else [])
  }

  /** `frame_count / fps`, the seconds at which raw frame `frameIndex` is shown. */
  function Timestamp(frameIndex: nat, fps: nat): real
    requires fps > 0
  {
    frameIndex as real / fps as real
  }

  /** The timestamp list: one entry per detection, the time of its frame. */
  function Timestamps(ds: seq<Detection>, fps: nat): (r: seq<real>)
    requires fps > 0 || ds == []
    ensures |r| == |ds|
    ensures forall j :: 0 <= j < |ds| ==> r[j] == Timestamp(ds[j].frameIndex, fps)
  {
    if ds == [] then []
    else
      var n := |ds| - 1;
      assert forall j :: 0 <= j < n ==> ds[..n][j] == ds[j];
      Timestamps(ds[..n], fps) + [Timestamp(ds[n].frameIndex, fps)]
  }

  // ---------------------------------------------------------------------------
  // One step of each definition, as the scanning loops take it
  // ---------------------------------------------------------------------------

  lemma MatchedBoxesStep(faces: seq<Face>, i: nat, search: Search)
    requires i < |faces|
    ensures MatchedBoxes(faces[..i + 1], search) ==
      MatchedBoxes(faces[..i], search) + (if IsMatch(search, faces[i]) then [faces[i].location] else [])
  {
    assert faces[..i + 1][..i] == faces[..i];
  }

  lemma FrameDetectionsStep(index: nat, boxes: seq<Box>, box: Box)
    ensures FrameDetections(index, boxes + [box]) == FrameDetections(index, boxes) + [Detection(index, box, boxes + [box])]
  {
    assert (boxes + [box])[..|boxes|] == boxes;
  }

  lemma DetectionsStep(frames: seq<Frame>, n: nat, frameSkip: int, search: Search)
    requires n < |frames|
    ensures Detections(frames[..n + 1], frameSkip, search) ==
      Detections(frames[..n], frameSkip, search) + FrameHits(n, frames[n], frameSkip, search)
    ensures Written(frames[..n + 1], frameSkip, search) ==
      Written(frames[..n], frameSkip, search) + (if Sampled(n, frameSkip) then [Image(n, MatchedBoxes(frames[n], search))] else [])
  {
    assert frames[..n + 1][..n] == frames[..n];
  }

  lemma TimestampsStep(ds: seq<Detection>, d: Detection, fps: nat)
    requires fps > 0
    ensures Timestamps(ds + [d], fps) == Timestamps(ds, fps) + [Timestamp(d.frameIndex, fps)]
  {
    assert (ds + [d])[..|ds|] == ds;
  }

  // ---------------------------------------------------------------------------
  // Properties of the scan
  // ---------------------------------------------------------------------------

  /** Scanning more frames only appends: what was recorded for a prefix never changes. */
  lemma {:induction false} DetectionsGrow(frames: seq<Frame>, m: nat, frameSkip: int, search: Search)
    requires m <= |frames|
    ensures Detections(frames[..m], frameSkip, search) <= Detections(frames, frameSkip, search)
    decreases |frames|
  {
    if m < |frames| {
      var n := |frames| - 1;
      assert frames[..n][..m] == frames[..m];
      DetectionsGrow(frames[..n], m, frameSkip, search);
    } else {
      assert frames[..m] == frames;
    }
  }

  /**
   * Every detection comes from a sampled raw frame of the video, and what is
   * drawn when it is recorded is a non-empty prefix of that frame's matching
   * boxes ending with its own box.
   */
  lemma {:induction false} DetectionsSampled(frames: seq<Frame>, frameSkip: int, search: Search)
    ensures forall j :: 0 <= j < |Detections(frames, frameSkip, search)| ==>
      var d := Detections(frames, frameSkip, search)[j];
      && d.frameIndex < |frames|
      && Sampled(d.frameIndex, frameSkip)
      && d.drawn != []
      && d.drawn[|d.drawn| - 1] == d.location
      && d.drawn <= MatchedBoxes(frames[d.frameIndex], search)
    decreases |frames|
  {
    if frames != [] {
      var n := |frames| - 1;
      DetectionsSampled(frames[..n], frameSkip, search);
      var ds := Detections(frames, frameSkip, search);
      var prev := Detections(frames[..n], frameSkip, search);
      var hits := FrameHits(n, frames[n], frameSkip, search);
      FrameHitsSampled(n, frames[n], frameSkip, search);
      assert ds == prev + hits;
      forall j | 0 <= j < |ds|
        ensures ds[j].frameIndex < |frames| && Sampled(ds[j].frameIndex, frameSkip)
        ensures ds[j].drawn != [] && ds[j].drawn[|ds[j].drawn| - 1] == ds[j].location
        ensures ds[j].drawn <= MatchedBoxes(frames[ds[j].frameIndex], search)
      {
        if j < |prev| {
          assert ds[j] == prev[j];
          assert frames[..n][prev[j].frameIndex] == frames[prev[j].frameIndex];
        } else {
          assert ds[j] == hits[j - |prev|];
        }
      }
    }
  }

  /** The detections of one raw frame: all of a sampled frame, each drawing a prefix of its matches. */
  lemma FrameHitsSampled(index: nat, frame: Frame, frameSkip: int, search: Search)
    ensures forall j :: 0 <= j < |FrameHits(index, frame, frameSkip, search)| ==>
      var d := FrameHits(index, frame, frameSkip, search)[j];
      && d.frameIndex == index
      && Sampled(index, frameSkip)
      && d.drawn != []
      && d.drawn[|d.drawn| - 1] == d.location
      && d.drawn <= MatchedBoxes(frame, search)
  {
    var boxes := MatchedBoxes(frame, search);
    var hits := FrameHits(index, frame, frameSkip, search);
    forall j | 0 <= j < |hits|
      ensures hits[j].frameIndex == index && Sampled(index, frameSkip)
      ensures hits[j].drawn != [] && hits[j].drawn[|hits[j].drawn| - 1] == hits[j].location
      ensures hits[j].drawn <= boxes
    {
      assert hits == FrameDetections(index, boxes);
      assert hits[j] == Detection(index, boxes[j], boxes[..j + 1]);
      assert boxes[..j + 1][j] == boxes[j];
    }
  }

  /** Detections are recorded in processing order: their frame indices never decrease. */
  lemma {:induction false} DetectionsOrdered(frames: seq<Frame>, frameSkip: int, search: Search)
    ensures forall a, b :: 0 <= a <= b < |Detections(frames, frameSkip, search)| ==>
      Detections(frames, frameSkip, search)[a].frameIndex <= Detections(frames, frameSkip, search)[b].frameIndex
    decreases |frames|
  {
    if frames != [] {
      var n := |frames| - 1;
      DetectionsOrdered(frames[..n], frameSkip, search);
      DetectionsSampled(frames[..n], frameSkip, search);
      var ds := Detections(frames, frameSkip, search);
      var prev := Detections(frames[..n], frameSkip, search);
      var hits := FrameHits(n, frames[n], frameSkip, search);
      assert ds == prev + hits;
      forall a, b | 0 <= a <= b < |ds| ensures ds[a].frameIndex <= ds[b].frameIndex {
        if b < |prev| {
          assert ds[a] == prev[a] && ds[b] == prev[b];
        } else if a < |prev| {
          assert ds[a] == prev[a] && ds[b] == hits[b - |prev|];
        } else {
          assert ds[a] == hits[a - |prev|] && ds[b] == hits[b - |prev|];
        }
      }
    }
  }

  /**
   * Boxes are drawn cumulatively on one buffer: a later match of the same
   * frame is recorded with every earlier match of that frame already drawn.
   */
  lemma DrawnAccumulates(frames: seq<Frame>, frameSkip: int, search: Search)
    ensures forall a, b ::
      (0 <= a < b < |Detections(frames, frameSkip, search)| &&
       Detections(frames, frameSkip, search)[a].frameIndex == Detections(frames, frameSkip, search)[b].frameIndex) ==>
      Detections(frames, frameSkip, search)[a].drawn < Detections(frames, frameSkip, search)[b].drawn
    decreases |frames|
  {
    if frames != [] {
      var n := |frames| - 1;
      DrawnAccumulates(frames[..n], frameSkip, search);
      DetectionsSampled(frames[..n], frameSkip, search);
      var ds := Detections(frames, frameSkip, search);
      var prev := Detections(frames[..n], frameSkip, search);
      var hits := FrameHits(n, frames[n], frameSkip, search);
      assert ds == prev + hits;
      forall a, b | 0 <= a < b < |ds| && ds[a].frameIndex == ds[b].frameIndex
        ensures ds[a].drawn < ds[b].drawn
      {
        if b < |prev| {
          assert ds[a] == prev[a] && ds[b] == prev[b];
        } else if a >= |prev| {
          assert ds[a] == hits[a - |prev|] && ds[b] == hits[b - |prev|];
        }
      }
    }
  }

  lemma {:induction false} DetectionsAtAppend(xs: seq<Detection>, ys: seq<Detection>, index: nat)
    ensures DetectionsAt(xs + ys, index) == DetectionsAt(xs, index) + DetectionsAt(ys, index)
    decreases |ys|
  {
    if ys == [] {
      assert xs + ys == xs;
    } else {
      var n := |ys| - 1;
      assert (xs + ys)[..|xs + ys| - 1] == xs + ys[..n];
      DetectionsAtAppend(xs, ys[..n], index);
    }
  }

  lemma {:induction false} DetectionsAtNone(ds: seq<Detection>, index: nat)
    requires forall j :: 0 <= j < |ds| ==> ds[j].frameIndex != index
    ensures DetectionsAt(ds, index) == []
    decreases |ds|
  {
    if ds != [] {
      DetectionsAtNone(ds[..|ds| - 1], index);
    }
  }

  lemma {:induction false} DetectionsAtAll(ds: seq<Detection>, index: nat)
    requires forall j :: 0 <= j < |ds| ==> ds[j].frameIndex == index
    ensures DetectionsAt(ds, index) == ds
    decreases |ds|
  {
    if ds != [] {
      DetectionsAtAll(ds[..|ds| - 1], index);
    }
  }

  /**
   * Aggregation is per face, not per frame: the detections of raw frame `i`
   * are exactly one per matching face when `i` is sampled, and none otherwise.
   */
  lemma {:induction false} DetectionsOfFrame(frames: seq<Frame>, frameSkip: int, search: Search, i: nat)
    requires i < |frames|
    ensures DetectionsAt(Detections(frames, frameSkip, search), i) == FrameHits(i, frames[i], frameSkip, search)
    ensures |DetectionsAt(Detections(frames, frameSkip, search), i)| ==
      if Sampled(i, frameSkip) then |MatchedBoxes(frames[i], search)| else 0
    decreases |frames|
  {
    var n := |frames| - 1;
    var prev := Detections(frames[..n], frameSkip, search);
    var hits := FrameHits(n, frames[n], frameSkip, search);
    DetectionsAtAppend(prev, hits, i);
    DetectionsSampled(frames[..n], frameSkip, search);
    if i < n {
      DetectionsOfFrame(frames[..n], frameSkip, search, i);
      assert frames[..n][i] == frames[i];
      DetectionsAtNone(hits, i);
    } else {
      DetectionsAtNone(prev, i);
      DetectionsAtAll(hits, i);
    }
  }

  /** A scan records nothing exactly when no sampled frame has a matching face. */
  lemma {:induction false} NoDetections(frames: seq<Frame>, frameSkip: int, search: Search)
    ensures Detections(frames, frameSkip, search) == [] <==>
      forall i :: 0 <= i < |frames| && Sampled(i, frameSkip) ==> MatchedBoxes(frames[i], search) == []
    decreases |frames|
  {
    if frames != [] {
      var n := |frames| - 1;
      var prev := Detections(frames[..n], frameSkip, search);
      var hits := FrameHits(n, frames[n], frameSkip, search);
      NoDetections(frames[..n], frameSkip, search);
      assert Detections(frames, frameSkip, search) == prev + hits;
      if prev + hits == [] {
        forall i | 0 <= i < |frames| && Sampled(i, frameSkip) ensures MatchedBoxes(frames[i], search) == [] {
          if i < n {
            assert frames[..n][i] == frames[i];
          }
        }
      } else if prev != [] {
        var i :| 0 <= i < n && Sampled(i, frameSkip) && MatchedBoxes(frames[..n][i], search) != [];
        assert frames[..n][i] == frames[i];
      }
    }
  }

  /**
   * The first detection is the first matching face of a sampled frame, and
   * nothing else is drawn when it is recorded.
   */
  lemma {:induction false} FirstDetection(frames: seq<Frame>, frameSkip: int, search: Search)
    requires Detections(frames, frameSkip, search) != []
    ensures var d := Detections(frames, frameSkip, search)[0];
      && d.frameIndex < |frames|
      && Sampled(d.frameIndex, frameSkip)
      && MatchedBoxes(frames[d.frameIndex], search) != []
      && d.location == MatchedBoxes(frames[d.frameIndex], search)[0]
      && d.drawn == [d.location]
    decreases |frames|
  {
    var n := |frames| - 1;
    var prev := Detections(frames[..n], frameSkip, search);
    var hits := FrameHits(n, frames[n], frameSkip, search);
    assert Detections(frames, frameSkip, search) == prev + hits;
    if prev != [] {
      FirstDetection(frames[..n], frameSkip, search);
      assert Detections(frames, frameSkip, search)[0] == prev[0];
      assert frames[..n][prev[0].frameIndex] == frames[prev[0].frameIndex];
    } else {
      var boxes := MatchedBoxes(frames[n], search);
      assert hits == FrameDetections(n, boxes);
      assert Detections(frames, frameSkip, search)[0] == Detection(n, boxes[0], boxes[..1]);
      assert boxes[..1] == [boxes[0]];
    }
  }

  /** No sampled frame before the first detection's frame has a matching face. */
  lemma FirstMatchEarliest(frames: seq<Frame>, frameSkip: int, search: Search)
    requires Detections(frames, frameSkip, search) != []
    ensures var f := Detections(frames, frameSkip, search)[0].frameIndex;
      forall i :: 0 <= i < f && i < |frames| && Sampled(i, frameSkip) ==> MatchedBoxes(frames[i], search) == []
  {
    var ds := Detections(frames, frameSkip, search);
    var f := ds[0].frameIndex;
    DetectionsSampled(frames, frameSkip, search);
    var early := Detections(frames[..f], frameSkip, search);
    DetectionsGrow(frames, f, frameSkip, search);
    DetectionsSampled(frames[..f], frameSkip, search);
    if early != [] {
      assert false;
    }
    NoDetections(frames[..f], frameSkip, search);
    assert forall i :: 0 <= i < f ==> frames[..f][i] == frames[i];
  }

  /**
   * With a stride of at least one the sampled indices are `0, k, 2k, ...`, and
   * there are ceil(n / k) of them below `n`.
   */
  lemma {:induction false} SampledIndicesStride(n: nat, frameSkip: int)
    requires frameSkip >= 1
    ensures |SampledIndices(n, frameSkip)| == (n + frameSkip - 1) / frameSkip
    ensures forall j :: 0 <= j < |SampledIndices(n, frameSkip)| ==> SampledIndices(n, frameSkip)[j] == j * frameSkip
  {
    if n == 0 {
      CeilZero(frameSkip);
    } else {
      SampledIndicesStride(n - 1, frameSkip);
      CeilStep(n - 1, frameSkip);
    }
  }

  lemma CeilZero(k: int)
    requires k >= 1
    ensures (k - 1) / k == 0
  {
    DivBetween(k - 1, k, 0);
  }

  /** One more index raises ceil(m / k) by one exactly when `m` itself is a multiple of `k`. */
  lemma CeilStep(m: nat, k: int)
    requires k >= 1
    ensures m % k == 0 ==> (m + k) / k == (m + k - 1) / k + 1 && m == ((m + k - 1) / k) * k
    ensures m % k != 0 ==> (m + k) / k == (m + k - 1) / k
  {
    var q := m / k;
    var r := m % k;
    assert m == q * k + r;
    var c := (m + k - 1) / k;
    var c1 := (m + k) / k;
    assert (q + 1) * k == q * k + k;
    if r == 0 {
      DivBetween(m + k - 1, k, q);
      assert c == q;
      DivBetween(m + k, k, q + 1);
      assert c1 == q + 1;
    } else {
      DivBetween(m + k - 1, k, q + 1);
      assert c == q + 1;
      DivBetween(m + k, k, q + 1);
      assert c1 == q + 1;
    }
  }

  lemma MulMonotone(x: int, y: int, k: int)
    requires k > 0 && x <= y
    ensures x * k <= y * k
  {
    assert y * k - x * k == (y - x) * k;
  }

  /** Integer division is pinned down by the quotient's bracket. */
  lemma DivBetween(a: int, k: int, q: int)
    requires k > 0 && q * k <= a < q * k + k
    ensures a / k == q
  {
    var d := a / k;
    assert a == d * k + a % k;
    if d < q {
      MulMonotone(d + 1, q, k);
      assert false;
    } else if d > q {
      MulMonotone(q + 1, d, k);
      assert false;
    }
  }

  /**
   * Output: the frames written are exactly the sampled ones, each once, in
   * increasing index order, each with its matching faces boxed.
   */
  lemma {:induction false} WrittenAreSampled(frames: seq<Frame>, frameSkip: int, search: Search)
    ensures |Written(frames, frameSkip, search)| == |SampledIndices(|frames|, frameSkip)|
    ensures forall j :: 0 <= j < |Written(frames, frameSkip, search)| ==>
      var w := Written(frames, frameSkip, search)[j];
      && w.frameIndex == SampledIndices(|frames|, frameSkip)[j]
      && w.frameIndex < |frames|
      && w.boxes == MatchedBoxes(frames[w.frameIndex], search)
    decreases |frames|
  {
    if frames != [] {
      var n := |frames| - 1;
      WrittenAreSampled(frames[..n], frameSkip, search);
      assert forall i :: 0 <= i < n ==> frames[..n][i] == frames[i];
      var prev := Written(frames[..n], frameSkip, search);
      var ws := Written(frames, frameSkip, search);
      forall j | 0 <= j < |ws|
        ensures ws[j].frameIndex == SampledIndices(|frames|, frameSkip)[j]
        ensures ws[j].frameIndex < |frames|
        ensures ws[j].boxes == MatchedBoxes(frames[ws[j].frameIndex], search)
      {
        if j < |prev| {
          assert ws[j] == prev[j];
        }
      }
    }
  }

  /** For a stride of at least one: ceil(n / k) frames are written, the j-th being raw frame j * k. */
  lemma WrittenCount(frames: seq<Frame>, frameSkip: int, search: Search)
    requires frameSkip >= 1
    ensures |Written(frames, frameSkip, search)| == (|frames| + frameSkip - 1) / frameSkip
    ensures forall j :: 0 <= j < |Written(frames, frameSkip, search)| ==>
      Written(frames, frameSkip, search)[j].frameIndex == j * frameSkip
  {
    WrittenAreSampled(frames, frameSkip, search);
    SampledIndicesStride(|frames|, frameSkip);
  }

  /**
   * Detections in processing order give a non-decreasing timestamp list,
   * strictly increasing between detections of different frames.
   */
  lemma TimestampsOrdered(ds: seq<Detection>, fps: nat)
    requires fps > 0
    requires forall a, b :: 0 <= a <= b < |ds| ==> ds[a].frameIndex <= ds[b].frameIndex
    ensures forall a, b :: 0 <= a <= b < |ds| ==> Timestamps(ds, fps)[a] <= Timestamps(ds, fps)[b]
    ensures forall a, b :: 0 <= a < b < |ds| && ds[a].frameIndex != ds[b].frameIndex ==>
      Timestamps(ds, fps)[a] < Timestamps(ds, fps)[b]
  {
    var ts := Timestamps(ds, fps);
    forall a, b | 0 <= a <= b < |ds| ensures ts[a] <= ts[b] && (ds[a].frameIndex != ds[b].frameIndex ==> ts[a] < ts[b]) {
      var x, y, f := ds[a].frameIndex as real, ds[b].frameIndex as real, fps as real;
      assert x / f <= y / f && (x < y ==> x / f < y / f) by {
        assert y / f - x / f == (y - x) / f;
      }
    }
  }
}
