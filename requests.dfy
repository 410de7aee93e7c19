/**
 * The checks the detection endpoint applies to an upload before any file is
 * saved: both files present, each with an allowed extension, and the two
 * scan parameters inside their domains.
 */
module Requests {
  import opened Common
  import opened Text

  const ImageExtensions: set<string> := {"png", "jpg", "jpeg", "gif", "bmp"}
  const VideoExtensions: set<string> := {"mp4", "avi", "mov", "mkv", "wmv"}

  const DefaultTolerance: real := 0.6
  const DefaultFrameSkip: int := 5

  const MissingFilesError := "Both person_image and crowd_video files are required"
  const ImageFormatError := "Invalid person image format. Allowed: png, jpg, jpeg, gif, bmp"
  const VideoFormatError := "Invalid video format. Allowed: mp4, avi, mov, mkv, wmv"
  const ToleranceError := "Tolerance must be between 0.0 and 1.0"
  const FrameSkipError := "Frame skip must be at least 1"

  /**
   * `allowed_file`: the name has a dot and the lower-cased text after its
   * last dot is one of the allowed extensions.
   */
  function AllowedFile(filename: string, allowed: set<string>): (ok: bool)
    ensures ok <==> exists i: nat :: LastAt(filename, '.', i) && ToLower(filename[i + 1..]) in allowed
    ensures '.' !in filename ==> !ok
  {
    match LastIndexOf(filename, '.')
    case None =>
      assert forall i: nat :: !LastAt(filename, '.', i);
      false
    case Some(i) =>
      assert LastAt(filename, '.', i);
      assert forall j: nat :: LastAt(filename, '.', j) ==> j == i by {
        forall j: nat | LastAt(filename, '.', j) ensures j == i {
          LastOccurrenceUnique(filename, '.', i, j);
        }
      }
      ToLower(filename[i + 1..]) in allowed
  }

  /**
   * The form of one detection request: the uploaded file names (absent when
   * the part is missing) and the numeric form fields, already converted
   * (absent when the field is not sent).
   */
  datatype Request = Request(personImage: Option<string>, crowdVideo: Option<string>,
                             tolerance: Option<real>, frameSkip: Option<int>)

  datatype Verdict = Accepted(tolerance: real, frameSkip: int) | Rejected(status: nat, message: string)

  predicate FilesAllowed(req: Request) {
    && req.personImage.Some? && req.crowdVideo.Some?
    && AllowedFile(req.personImage.value, ImageExtensions)
    && AllowedFile(req.crowdVideo.value, VideoExtensions)
  }

  /** The request checks of the detection endpoint, in the order it makes them. */
  function CheckRequest(req: Request): (v: Verdict)
    ensures v.Accepted? <==>
      FilesAllowed(req) && 0.0 <= req.tolerance.GetOr(DefaultTolerance) <= 1.0 && req.frameSkip.GetOr(DefaultFrameSkip) >= 1
    ensures v.Accepted? ==> v.tolerance == req.tolerance.GetOr(DefaultTolerance) && v.frameSkip == req.frameSkip.GetOr(DefaultFrameSkip)
    ensures v.Rejected? ==> v.status == 400
    ensures v == Rejected(400, MissingFilesError) <==> req.personImage.None? || req.crowdVideo.None?
    ensures v == Rejected(400, ImageFormatError) <==>
      req.personImage.Some? && req.crowdVideo.Some? && !AllowedFile(req.personImage.value, ImageExtensions)
    ensures v == Rejected(400, VideoFormatError) <==>
      && req.personImage.Some? && req.crowdVideo.Some?
      && AllowedFile(req.personImage.value, ImageExtensions)
      && !AllowedFile(req.crowdVideo.value, VideoExtensions)
    ensures v == Rejected(400, ToleranceError) <==>
      FilesAllowed(req) && !(0.0 <= req.tolerance.GetOr(DefaultTolerance) <= 1.0)
    ensures v == Rejected(400, FrameSkipError) <==>
      FilesAllowed(req) && 0.0 <= req.tolerance.GetOr(DefaultTolerance) <= 1.0 && req.frameSkip.GetOr(DefaultFrameSkip) < 1
  {
    if req.personImage.None? || req.crowdVideo.None? then Rejected(400, MissingFilesError)
    else if !AllowedFile(req.personImage.value, ImageExtensions) then Rejected(400, ImageFormatError)
    else if !AllowedFile(req.crowdVideo.value, VideoExtensions) then Rejected(400, VideoFormatError)
    else
      var tolerance := req.tolerance.GetOr(DefaultTolerance);
      var frameSkip := req.frameSkip.GetOr(DefaultFrameSkip);
      if !(0.0 <= tolerance <= 1.0) then Rejected(400, ToleranceError)
      else if frameSkip < 1 then Rejected(400, FrameSkipError)
      else Accepted(tolerance, frameSkip)
  }
}
