/** The per-file steps of `main`: select and crop, pad, mirror, and the outcome of
    one class directory's pass. Reading, writing and deleting files are
    represented only by what they leave behind: the images written under
    their source index and the number of source files removed. */
module Prepare {
  import opened Results
  import opened Images
  import opened Padding
  import opened Mirror
  import opened Selection

  /** The image one decoded frame yields (the body of `main`'s per-file loop after
      decoding): the crop of the
      first detection, padded and mirrored; `None` when no crop is made. It fails
      exactly when the network detects nothing, yields an image exactly when the
      first detection qualifies, and that image keeps the frame's channels and is
      square up to one pixel. */
  function PrepareFrame(frame: Image, detections: seq<Detection>): (r: Result<Option<Image>>)
    requires frame.Valid() && FirstBoxInFrame(frame, detections)
    ensures r.Err? <==> |detections| == 0
    ensures (r.Ok? && r.value.Some?) <==> |detections| > 0 && Qualifies(detections[0])
    ensures r.Ok? && r.value.Some? ==>
              && r.value.value.Valid()
              && r.value.value.channels == frame.channels
              && r.value.value.height <= r.value.value.width + 1
              && r.value.value.width <= r.value.value.height + 1
  {
    match SelectAndCrop(frame, detections)
    case Err(e) => Err(e)
    case Ok(None) => Ok(None)
    case Ok(Some(crop)) =>
      PadNearlySquare(crop);
      Ok(Some(FlipHorizontal(PadCroppedImage(crop))))
  }

  /** Padding then mirroring a crop: crop pixel (r, c) lands at row TopFill + r
      and, mirrored, at column width - 1 - (LeftFill + c). */
  lemma PadFlipAt(crop: Image, r: nat, c: nat)
    requires crop.Valid() && r < crop.height && c < crop.width
    ensures var out := FlipHorizontal(PadCroppedImage(crop));
            && out.height == 2 * TopFill(crop) + crop.height
            && out.width == 2 * LeftFill(crop) + crop.width
            && out.rows[TopFill(crop) + r][out.width - 1 - (LeftFill(crop) + c)] == crop.rows[r][c]
  {
    var top, left := TopFill(crop), LeftFill(crop);
    PadShape(crop);
    PadKeepsPixel(crop, r, c);
    var padded := PadCroppedImage(crop);
    var col := padded.width - 1 - (left + c);
    assert padded.width - 1 - col == left + c;
    assert FlipHorizontal(padded).rows[top + r][col] == padded.rows[top + r][left + c];
  }

  /** A qualifying first detection is cropped, padded and mirrored. */
  lemma PrepareFrameFound(frame: Image, detections: seq<Detection>)
    requires frame.Valid() && FirstBoxInFrame(frame, detections)
    requires |detections| > 0 && Qualifies(detections[0])
    ensures PrepareFrame(frame, detections) ==
              Ok(Some(FlipHorizontal(PadCroppedImage(Crop(frame, detections[0])))))
  {
  }

  /** Where a frame pixel ends up in the written image: frame pixel
      (startY + r, startX + c) of the first detection's box sits at row
      TopFill + r and, mirrored, at column width - 1 - (LeftFill + c), and the
      image is the box widened by the fill on both sides. */
  lemma PrepareFrameAt(frame: Image, detections: seq<Detection>, crop: Image, out: Image, r: nat, c: nat)
    requires frame.Valid() && FirstBoxInFrame(frame, detections)
    requires PrepareFrame(frame, detections) == Ok(Some(out))
    requires crop == Crop(frame, detections[0])
    requires r < detections[0].endY - detections[0].startY
    requires c < detections[0].endX - detections[0].startX
    ensures var d := detections[0];
            && out.height == 2 * TopFill(crop) + (d.endY - d.startY)
            && out.width == 2 * LeftFill(crop) + (d.endX - d.startX)
            && out.rows[TopFill(crop) + r][out.width - 1 - (LeftFill(crop) + c)]
                 == frame.rows[d.startY + r][d.startX + c]
  {
    PrepareFrameFound(frame, detections);
    CropPadFlipAt(frame, detections[0], crop, out, r, c);
  }

  /** `PadFlipAt` for the crop of a box, with the crop and the result as variables. */
  lemma CropPadFlipAt(frame: Image, d: Detection, crop: Image, out: Image, r: nat, c: nat)
    requires frame.Valid() && BoxInFrame(frame, d)
    requires crop == Crop(frame, d)
    requires out == FlipHorizontal(PadCroppedImage(crop))
    requires r < d.endY - d.startY && c < d.endX - d.startX
    ensures && out.height == 2 * TopFill(crop) + (d.endY - d.startY)
            && out.width == 2 * LeftFill(crop) + (d.endX - d.startX)
            && out.rows[TopFill(crop) + r][out.width - 1 - (LeftFill(crop) + c)]
                 == frame.rows[d.startY + r][d.startX + c]
  {
    PadFlipAt(crop, r, c);
  }

  /** One source file as the pass sees it: the decoded frame (`None` when
      `cv2.imread` cannot read it) and what the network detects in it. */
  datatype SourceFile = SourceFile(frame: Option<Image>, detections: seq<Detection>)

  /** The model's demand on a file that decodes. */
  predicate Processable(file: SourceFile)
  {
    file.frame.Some? ==> file.frame.value.Valid() && FirstBoxInFrame(file.frame.value, file.detections)
  }

  /** What one file contributes: nothing when it cannot be read, otherwise the
      outcome of `PrepareFrame`. */
  function ProcessFile(file: SourceFile): (r: Result<Option<Image>>)
    requires Processable(file)
    ensures file.frame.None? ==> r == Ok(None)
    ensures r.Err? <==> file.frame.Some? && |file.detections| == 0
    ensures (r.Ok? && r.value.Some?) <==>
              file.frame.Some? && |file.detections| > 0 && Qualifies(file.detections[0])
  {
    match file.frame
    case None => Ok(None)
    case Some(frame) => PrepareFrame(frame, file.detections)
  }

  /** What a pass over one class directory leaves behind: the images written to
      "detected/<n>.png" keyed by n, how many source files were removed, and the
      error that stopped the pass, if any. */
  datatype PassReport = PassReport(written: map<nat, Image>, removed: nat, failure: Option<Error>)

  /** The inner loop of `main` over the files of one class directory (the
      "detected" directory starts empty). Every file that is handled is removed,
      readable or not, cropped or not; an error stops the pass before the
      failing file is removed. */
  method ProcessClassDirectory(files: seq<SourceFile>) returns (report: PassReport)
    requires forall n :: 0 <= n < |files| ==> Processable(files[n])
    ensures report.removed <= |files|
    ensures forall n :: 0 <= n < report.removed ==> ProcessFile(files[n]).Ok?
    ensures report.failure.None? ==> report.removed == |files|
    ensures report.failure.Some? ==>
              report.removed < |files| && ProcessFile(files[report.removed]) == Err(report.failure.value)
    ensures forall n: nat :: n in report.written <==>
              n < report.removed && ProcessFile(files[n]) != Ok(None)
    ensures forall n: nat :: n in report.written ==> ProcessFile(files[n]) == Ok(Some(report.written[n]))
  {
    var written: map<nat, Image> := map[];
    var n := 0;
    while n < |files|
      invariant 0 <= n <= |files|
      invariant forall k :: 0 <= k < n ==> ProcessFile(files[k]).Ok?
      invariant forall k: nat :: k in written <==> k < n && ProcessFile(files[k]) != Ok(None)
      invariant forall k: nat :: k in written ==> ProcessFile(files[k]) == Ok(Some(written[k]))
    {
      var outcome := Ok(None);
      var file := files[n];
      if file.frame.Some? {
        outcome := FindBirdInFrame(file.frame.value, file.detections);
        if outcome.Err? {
          return PassReport(written, n, Some(outcome.error));
        }
        if outcome.value.Some? {
          var padded := PadCroppedImage(outcome.value.value);
          padded := FlipHorizontal(padded);
          written := written[n := padded];
        }
      }
      n := n + 1;
    }
    return PassReport(written, n, None);
  }
}
