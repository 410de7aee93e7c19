# Lost-person detection: a verified model of the frame scan

The system looks for one person in a crowd video. A reference photo is
loaded and the first face found in it becomes the reference encoding. The
video is then read frame by frame. Every `frame_skip`-th raw frame is
sampled, its faces are compared with the reference, and each matching face
is boxed on the frame. Two front ends share this loop:

- The web service (`app.py`) checks the upload and its form fields. It
  writes every sampled frame to an output video, using an H.264 codec with
  an MPEG-4 fallback. It records one timestamp per matching face and saves
  a single snapshot at the first match. It then returns a summary.
- The command-line tool (`person_detector.py`) saves one image per matching
  face into `detected_frames/`. Each file name carries the frame number and
  a running detection number.

The Dafny project models both `PersonDetector` classes and the helpers
around them:

- `common.dfy`: `Option`.
- `text.dfy`: the string rules the code relies on.
  - ASCII lower-casing and the last `.` of a name (`rsplit('.', 1)`).
  - `str.replace`.
  - `{n:0Wd}` zero padding and its inverse.
  - `os.path.join`.
- `scanning.dfy`: the scan as a specification shared by both classes.
  - Which raw frames are sampled.
  - The matching boxes of a frame, and the detections in processing order
    (one per matching face, each with the boxes drawn so far on its frame).
  - The frames written and the timestamps.
  - Lemmas about all of these.
- `requests.dfy`: `allowed_file` and the upload checks of the detection
  endpoint.
- `app_detector.dfy`: the web `PersonDetector` as a class.
  - `LoadPersonEncoding` sets the `personEncoding` field.
  - `DetectPersonInVideo` runs the imperative scanning loops (`ScanFrames`,
    `ScanFaces`), proved against the specification.
  - Also the codec fallback, the snapshot path, and the returned result.
- `cli_detector.dfy`: the command-line `PersonDetector`.
  - The per-detection file names and the files saved (`SaveFrameMatches`,
    `ScanFrames`).
  - `RunDetection`.

Face detection and comparison are not visible code, so they are inputs.
A frame is the list of faces the library finds, each a box and an encoding.
`compare_faces` is a function parameter `(reference, candidate, tolerance) -> bool`.
Loading the reference image yields either an exception text or the list of
encodings found.

An opened video carries three things:

- the rate, after `int(...)`;
- the frame count the container reports;
- every raw frame that `read()` returns.

Constructing a video writer with a codec yields an open writer, a closed
writer, or an exception.

What the code does where it differs from a plain reading of its intent:

- When both codecs yield a closed writer, the scan still runs and frames go
  to the closed writer. Only an exception from the MPEG-4 attempt escapes.
- `detected_frames` counts matching faces, not frames.
- A rate of 0 raises `ZeroDivisionError` only at the first matching face.
- A stride of 0 raises on the first frame read.
- A reported frame count of 0 raises once the first frame has been processed
  and written, through the progress line. By then its snapshot, if any, is
  already saved.
- The snapshot path replaces every `.mp4` in the output path, not only the
  extension.

## Model

| member | source | states |
|---|---|---|
| `Text.ReplaceAll` | app.py:150 | Python `str.replace`: a string without the pattern comes back unchanged |
| `Text.ReplaceDotFreeStem` | app.py:150 | for a dot-free stem followed by a pattern that starts with `.`, replacing the pattern rewrites exactly that suffix |
| `Text.ZeroPad` | person_detector.py:95 | `{n:0Wd}`: all digits, and the length is the larger of the width and the length of the decimal form |
| `Text.ZeroPadRoundTrip` | person_detector.py:95 | reading a zero-padded number back gives the number |
| `Text.JoinPath` | person_detector.py:96 | `os.path.join` of a directory and a relative name, adding a `/` unless the directory is empty or already ends in one. `Text.JoinPathInjective` shows different names give different paths |
| `Text.JoinPathInjective` | person_detector.py:96 | joining different names to the same directory gives different paths |
| `Text.LastIndexOf` | app.py:32 | the last position of a character: absent iff the character does not occur; otherwise that character, with none after it |
| `Requests.AllowedFile` | app.py:31-32 | true iff the name has a last dot and the lower-cased text after it is an allowed extension; a name without a dot is rejected |
| `Requests.CheckRequest` | app.py:198-220 | accepted iff both files are present with allowed extensions, tolerance (default 0.6) is in [0.0, 1.0] and frame_skip (default 5) is at least 1, with the resolved values; every rejection is a 400; each of the five error messages is given exactly in its own case (missing file; bad image extension; good image but bad video extension; bad tolerance; bad frame_skip), checked in the code's order |
| `Scanning.Sampled` | app.py:118 | `frame_count % frame_skip == 0` with Python's `%`; a zero stride samples nothing. Its stride pattern is stated by `Scanning.SampledIndicesStride` |
| `Scanning.MatchIndices` | app.py:128-134 | the positions of the matching faces: each holds a match, every match is listed, and they strictly increase |
| `Scanning.MatchedBoxes` | app.py:128-134 | no more boxes than faces, and none iff no face matches. `Scanning.MatchedBoxesByIndex` and `Scanning.EveryMatchBoxed` state the rest |
| `Scanning.MatchedBoxesByIndex` | app.py:128-134 | one box per matching face, in face order: the k-th box is that of the k-th matching face |
| `Scanning.EveryMatchBoxed` | app.py:128-134 | the box of every matching face is among the boxes drawn on its frame |
| `Scanning.FrameDetections` | app.py:128-146 | one detection per matching box of a frame; the j-th has the first j+1 boxes drawn |
| `Scanning.Detections` | app.py:111-146 | the detections of a scan, one per matching face of a sampled frame, in processing order. Its properties are the lemmas `DetectionsGrow`, `DetectionsSampled`, `DetectionsOrdered`, `DetectionsOfFrame`, `NoDetections`, `FirstDetection` and `FirstMatchEarliest` below |
| `Scanning.Written` | app.py:118-157 | the frames handed to the writer. Its properties are `Scanning.WrittenAreSampled` and `Scanning.WrittenCount` |
| `Scanning.Timestamp` | app.py:140 | `frame_count / fps` as an exact real, for a nonzero rate. `Scanning.TimestampsOrdered` shows it grows with the frame number |
| `Scanning.Timestamps` | app.py:140-146 | one timestamp per detection, `frame_count / fps` of its frame |
| `Scanning.DetectionsGrow` | app.py:111-164 | scanning more frames only appends to what was already recorded |
| `Scanning.DetectionsSampled` | app.py:118-135 | every detection is in a sampled raw frame and draws a non-empty prefix of that frame's matching boxes, ending with its own box |
| `Scanning.DetectionsOrdered` | app.py:111-164 | detections come in non-decreasing frame order |
| `Scanning.DrawnAccumulates` | person_detector.py:99-105 | a later match in the same frame is saved with strictly more boxes drawn, a proper extension of the earlier ones |
| `Scanning.DetectionsOfFrame` | app.py:128-146 | a raw frame contributes as many detections as it has matching faces if it is sampled, and none otherwise |
| `Scanning.NoDetections` | app.py:106 | nothing is recorded iff no sampled frame has a matching face |
| `Scanning.FirstDetection` | app.py:148-151 | the first detection is the first matching face of a sampled frame, with only its own box drawn |
| `Scanning.FirstMatchEarliest` | app.py:148-151 | no sampled frame before the first detection's frame has a matching face |
| `Scanning.SampledIndicesStride` | app.py:118 | for a stride k ≥ 1 the sampled indices below n are 0, k, 2k, …, and there are ⌈n / k⌉ of them |
| `Scanning.WrittenAreSampled` | app.py:118-157 | the frames written are exactly the sampled raw frames, once each, in order, each with its matching boxes drawn |
| `Scanning.WrittenCount` | app.py:118-164 | for a stride k ≥ 1, ⌈N / k⌉ frames are written and the j-th is raw frame j·k |
| `Scanning.TimestampsOrdered` | app.py:140-146 | for detections in frame order the timestamps are non-decreasing, and strictly increasing across distinct frames |
| `AppDetector.OpenWriter` | app.py:91-101 | H.264 is kept iff it opens; otherwise the MPEG-4 attempt decides: its exception escapes, otherwise an MPEG-4 writer that is open iff that attempt opened |
| `AppDetector.SnapshotPath` | app.py:150 | a path with no `.mp4` is used unchanged, so the snapshot path is then the video's own path. `AppDetector.SnapshotPathHasNoMp4` shows every `.mp4` is replaced, and `AppDetector.SnapshotOfGeneratedPath` covers the generated paths |
| `AppDetector.SnapshotPathHasNoMp4` | app.py:150 | after the replacement the snapshot path contains no `.mp4` at all, whatever the output path |
| `AppDetector.SnapshotOfGeneratedPath` | app.py:150 | for the generated `<stem>.mp4` output paths the snapshot is `<stem>_detection_frame.jpg`, never the video itself |
| `AppDetector.ScanOutcome` | app.py:75-178 | without an encoding the scan is refused; a `ZeroDivisionError` needs an opened video with a zero stride, a zero reported frame count or a zero rate; a completed scan had an opened video that was empty or had a nonzero stride and frame count; an empty opened video with an encoding and a working writer always completes. `AppDetector.CompletedSummary`, `AppDetector.SnapshotAtFirstMatch` and `AppDetector.ZeroRateFaultsOnMatch` state the rest |
| `AppDetector.FirstSnapshot` | app.py:148-151 | the image saved at the first match: none without a detection, otherwise the first detection's frame as drawn then, under the snapshot path. `AppDetector.SnapshotAtFirstMatch` states what that first detection is |
| `AppDetector.CompletedSummary` | app.py:164-178 | a completed scan reports every raw frame and one timestamp per detection in non-decreasing order; its snapshot path is absent iff no sampled frame matched, and otherwise is the replaced path |
| `AppDetector.SnapshotAtFirstMatch` | app.py:148-151 | the snapshot is absent iff no sampled frame matched; otherwise it is the first match's frame with only that face boxed, and no earlier sampled frame matched |
| `AppDetector.ZeroRateFaultsOnMatch` | app.py:140 | given a writer that opens, a nonzero stride and a nonzero reported frame count, a scan with a rate of 0 raises iff some sampled frame has a matching face |
| `AppDetector.RecordDetection` | app.py:140-151 | one more match adds one count and its timestamp; the snapshot path and image are set at the first match only |
| `AppDetector.ScanFaces` | app.py:128-154 | the per-face loop draws exactly the frame's matching boxes and keeps the totals equal to those of the detections; it raises iff the rate is 0 and a face matches |
| `AppDetector.ScanFrames` | app.py:103-165 | the frame loop raises exactly on a zero stride or a zero reported frame count once a frame is read, or on a zero rate with a match; when it completes, its totals match the specification of all frames and it writes exactly the sampled frames |
| `AppDetector.PersonDetector.constructor` | app.py:35-45 | stores both paths; no encoding is loaded |
| `AppDetector.PersonDetector.LoadPersonEncoding` | app.py:47-64 | the first face found wins; no face gives the no-face message and a load error gives the prefixed message, and both leave the encoding as it was |
| `AppDetector.PersonDetector.DetectPersonInVideo` | app.py:66-178 | the result follows the specification; without an encoding the scan is refused and nothing is written; a completed scan has the fallback writer, writes the sampled frames and saves the first-match snapshot; a writer exception saves no snapshot; a `ZeroDivisionError` saves at most the snapshot of frame 0, and none for a zero stride or rate |
| `CliDetector.FrameFileName` | person_detector.py:95 | at least 30 characters, starting `frame_` and ending `.jpg`. `CliDetector.FrameFileNameInjective` shows the name determines both numbers |
| `CliDetector.NameFieldsSplit` | person_detector.py:95 | the two digit fields of a saved file name are delimited by the literal text around them |
| `CliDetector.FrameFileNameInjective` | person_detector.py:95 | a saved file name determines its frame number and its detection number |
| `CliDetector.SavedImages` | person_detector.py:93-106 | one saved file per detection. `CliDetector.SavedImagesAt`, `CliDetector.SavedPathsDistinct` and `CliDetector.SavedImagesCumulative` state its contents |
| `CliDetector.SavedImagesAt` | person_detector.py:93-106 | the k-th saved file holds the k-th detection's frame with its drawn boxes, under `frame_<frame:06d>_detection_<k:03d>.jpg` in the output directory |
| `CliDetector.SavedPathsDistinct` | person_detector.py:95-106 | no two saved files share a path |
| `CliDetector.SavedImagesCumulative` | person_detector.py:99-105 | each saved image is a sampled frame showing a non-empty prefix of its matching boxes; a later save of the same frame shows strictly more boxes |
| `CliDetector.ScanOutcome` | person_detector.py:56-120 | without an encoding nothing is scanned; only a zero stride with at least one frame crashes; with an encoding, an opened video and a nonzero stride the scan finishes and counts every raw frame |
| `CliDetector.FinishedCounts` | person_detector.py:106-119 | a finished scan reports as many detections as files saved, and none iff no sampled frame has a matching face |
| `CliDetector.SaveFrameMatches` | person_detector.py:89-108 | the per-face loop saves one file per matching face, numbered on from the running count |
| `CliDetector.ScanFrames` | person_detector.py:67-114 | the frame loop raises exactly when the stride is 0 and a frame is read, and then saves nothing; otherwise it saves the files of every detection in order |
| `CliDetector.PersonDetector.constructor` | person_detector.py:9-20 | stores both paths, uses `detected_frames` as the output directory, and loads no encoding |
| `CliDetector.PersonDetector.LoadPersonEncoding` | person_detector.py:26-46 | succeeds iff a face is found, and then stores the first; otherwise the encoding is left as it was |
| `CliDetector.PersonDetector.DetectPersonInVideo` | person_detector.py:48-120 | without an encoding nothing is read or saved; when the scan finishes, the saved files are those of every detection; otherwise nothing is saved |
| `CliDetector.PersonDetector.RunDetection` | person_detector.py:122-134 | the scan runs iff loading succeeds, using the first face's encoding; when loading fails nothing is scanned or saved |

## Left out

- Flask routing, saving and deleting uploads, and the generated
  timestamp/UUID file names (app.py:180-322). These are HTTP and file-system
  glue. Their only rule the core depends on, a dot-free `.mp4` output path,
  is the hypothesis of `AppDetector.SnapshotOfGeneratedPath`.
- `float(...)` and `int(...)` parsing of the form fields. The request holds
  them already converted. A parse error becomes the generic 500 handler,
  which is not modelled.
- `face_recognition`: image decoding, face location, encoding and
  comparison. These are foreign code. Their results are inputs, and the
  comparison is a total function parameter.
- OpenCV: pixel data, colour conversion, `rectangle`/`putText`, and the
  bytes written by `VideoWriter.write`/`imwrite`. A written or saved frame
  is the raw frame index with the list of boxes drawn on it. The
  `PERSON FOUND!` and `Time:` captions are left out.
- The frame width and height passed to the writer. They only shape the
  encoded bytes.
- Progress and status logging and `print`. The one effect of the app's
  progress line that matters is the division by a zero reported frame
  count, and that is modelled.
- The `:.2f` timestamp text. Timestamps are exact reals `frame_count / fps`,
  not IEEE floats.
- `main` and its argparse and file-existence checks, and creating the
  output directory. These are I/O.
- The HTTP test client, which needs a running server.
- Releasing the capture and the writer.
- `cv2.imwrite` is taken to succeed. OpenCV raises for a path whose
  extension names no image format, and that is not modelled.
- `Requests.AllowedFile`: `str.lower()` is modelled on ASCII letters only.
  Non-ASCII upper-case letters in an extension are left as they are.
- `AppDetector.OpenWriter`: treats writer construction as deterministic per
  codec. A second MPEG-4 attempt after one that raised is taken to raise
  again.
- `AppDetector.PersonDetector.DetectPersonInVideo`: when the scan raises, the
  frames written before the exception are not described. Only the snapshot
  is.
- `Text.ReplaceAll`: its contract states only the no-occurrence case. The
  replacement rule itself is its definition, and the path the service
  actually generates is covered by `Text.ReplaceDotFreeStem`.
