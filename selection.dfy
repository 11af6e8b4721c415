/** The detection-selection and crop loop of `findBirdInFrame`: the first
    detection the network emits decides everything. */
module Selection {
  import opened Results
  import opened Images

  /** `confidence_threshold`. */
  const ConfidenceThreshold: real := 0.5

  /** One row of the network's output with its box already scaled to the frame
      and truncated to integers: (class index, confidence, startX, startY, endX, endY). */
  datatype Detection = Detection(classIdx: int, confidence: real, startX: int, startY: int, endX: int, endY: int)

  /** `confidence > confidence_threshold`. */
  predicate Qualifies(d: Detection)
  {
    d.confidence > ConfidenceThreshold
  }

  /** The box lies inside the frame (NumPy's clamping of other boxes is not modelled). */
  predicate BoxInFrame(frame: Image, d: Detection)
  {
    && 0 <= d.startY <= d.endY <= frame.height
    && 0 <= d.startX <= d.endX <= frame.width
  }

  /** What the crop needs: the first detection, if it qualifies, has a box inside the frame. */
  predicate FirstBoxInFrame(frame: Image, detections: seq<Detection>)
  {
    |detections| > 0 && Qualifies(detections[0]) ==> BoxInFrame(frame, detections[0])
  }

  /** `frame[startY:startY + (endY - startY), startX:startX + (endX - startX)]`: the
      rows startY .. endY - 1, each cut to the columns startX .. endX - 1. */
  function Crop(frame: Image, d: Detection): (out: Image)
    requires frame.Valid() && BoxInFrame(frame, d)
    ensures out.Valid()
    ensures out.height == d.endY - d.startY && out.width == d.endX - d.startX
    ensures out.channels == frame.channels
    ensures forall r, c :: 0 <= r < out.height && 0 <= c < out.width ==>
              out.rows[r][c] == frame.rows[d.startY + r][d.startX + c]
  {
    var band := frame.rows[d.startY..d.startY + (d.endY - d.startY)];
    Image(d.endY - d.startY, d.endX - d.startX, frame.channels,
          seq(|band|, r requires 0 <= r < |band| => band[r][d.startX..d.startX + (d.endX - d.startX)]))
  }

  /** The value `findBirdInFrame` returns: no detection at all ends in the
      unbound `crop_img`; otherwise the first detection alone decides between
      its crop and `None`. */
  function SelectAndCrop(frame: Image, detections: seq<Detection>): (r: Result<Option<Image>>)
    requires frame.Valid() && FirstBoxInFrame(frame, detections)
    ensures r.Err? <==> |detections| == 0
    ensures r == Ok(None) <==> |detections| > 0 && !Qualifies(detections[0])
    ensures r.Ok? && r.value.Some? ==>
              && r.value.value.Valid()
              && r.value.value.height == detections[0].endY - detections[0].startY
              && r.value.value.width == detections[0].endX - detections[0].startX
              && r.value.value.channels == frame.channels
  {
    if |detections| == 0 then Err(UnboundCropImage)
    else if Qualifies(detections[0]) then Ok(Some(Crop(frame, detections[0])))
    else Ok(None)
  }

  /** The loop of `findBirdInFrame` over the detections in emission order:
      a qualifying detection is cropped and ends the loop (`break`), any other
      returns `None` at once, and an empty loop leaves `crop_img` unbound. */
  method FindBirdInFrame(frame: Image, detections: seq<Detection>) returns (r: Result<Option<Image>>)
    requires frame.Valid() && FirstBoxInFrame(frame, detections)
    ensures r == SelectAndCrop(frame, detections)
  {
    var cropImg: Option<Image> := None;  // None while `crop_img` is unbound
    for i := 0 to |detections|
      invariant i == 0
      invariant cropImg == None
    {
      var confidence := detections[i].confidence;
      if confidence > ConfidenceThreshold {
        cropImg := Some(Crop(frame, detections[i]));
        break;
      } else {
        return Ok(None);
      }
    }
    if cropImg == None {
      return Err(UnboundCropImage);
    }
    return Ok(cropImg);
  }

  /** The result is `None` exactly when there is a first detection and it does not
      exceed the threshold, whatever the later detections hold. */
  lemma SelectNoneIffFirstWeak(frame: Image, detections: seq<Detection>)
    requires frame.Valid() && FirstBoxInFrame(frame, detections)
    ensures SelectAndCrop(frame, detections) == Ok(None) <==>
              |detections| > 0 && detections[0].confidence <= ConfidenceThreshold
  {
  }

  /** When the first detection exceeds the threshold, the result is its crop:
      (endY - startY) rows of (endX - startX) pixels read from the frame at
      (startY + r, startX + c). */
  lemma SelectCropsFirst(frame: Image, detections: seq<Detection>)
    requires frame.Valid() && FirstBoxInFrame(frame, detections)
    requires |detections| > 0 && detections[0].confidence > ConfidenceThreshold
    ensures var d := detections[0];
            && SelectAndCrop(frame, detections).Ok?
            && SelectAndCrop(frame, detections).value.Some?
            && var crop := SelectAndCrop(frame, detections).value.value;
            && crop.height == d.endY - d.startY
            && crop.width == d.endX - d.startX
            && crop.channels == frame.channels
            && forall r, c :: 0 <= r < crop.height && 0 <= c < crop.width ==>
                 crop.rows[r][c] == frame.rows[d.startY + r][d.startX + c]
  {
  }

  /** Only an empty detection list ends in the unbound-variable error. */
  lemma SelectErrIffEmpty(frame: Image, detections: seq<Detection>)
    requires frame.Valid() && FirstBoxInFrame(frame, detections)
    ensures SelectAndCrop(frame, detections).Err? <==> |detections| == 0
  {
  }

  /** Detections after the first never change the outcome. */
  lemma SelectIgnoresLater(frame: Image, detections: seq<Detection>, later: seq<Detection>)
    requires frame.Valid() && FirstBoxInFrame(frame, detections)
    requires |detections| > 0
    ensures FirstBoxInFrame(frame, detections[..1] + later)
    ensures SelectAndCrop(frame, detections[..1] + later) == SelectAndCrop(frame, detections)
  {
    assert (detections[..1] + later)[0] == detections[0];
  }

  /** A reference policy: the index of the first detection, anywhere in the
      list, that exceeds the threshold. */
  function FirstQualifying(detections: seq<Detection>): (k: Option<nat>)
    ensures k.Some? ==>
              && k.value < |detections|
              && Qualifies(detections[k.value])
              && forall j :: 0 <= j < k.value ==> !Qualifies(detections[j])
    ensures k.None? ==> forall j :: 0 <= j < |detections| ==> !Qualifies(detections[j])
  {
    if detections == [] then None
    else if Qualifies(detections[0]) then Some(0)
    else match FirstQualifying(detections[1..])
      case None => None
      case Some(j) => Some(j + 1)
  }

  /** First-detection-wins finds a crop exactly when the first qualifying detection
      is the very first one, and that crop is the crop of the first qualifying box. */
  lemma SelectAgreesWithFirstQualifying(frame: Image, detections: seq<Detection>)
    requires frame.Valid() && FirstBoxInFrame(frame, detections)
    ensures (SelectAndCrop(frame, detections).Ok? && SelectAndCrop(frame, detections).value.Some?)
              <==> FirstQualifying(detections) == Some(0)
    ensures FirstQualifying(detections) == Some(0) ==>
              SelectAndCrop(frame, detections).value.value == Crop(frame, detections[0])
  {
  }

  /** The two policies differ: a weak first detection hides a strong second one. */
  lemma LaterQualifyingDetectionIgnored()
    ensures var frame := Image(1, 1, 3, [[[0, 0, 0]]]);
            var detections := [Detection(3, 0.25, 0, 0, 1, 1), Detection(3, 0.75, 0, 0, 1, 1)];
            && frame.Valid()
            && FirstBoxInFrame(frame, detections)
            && FirstQualifying(detections) == Some(1)
            && SelectAndCrop(frame, detections) == Ok(None)
  {
    var detections := [Detection(3, 0.25, 0, 0, 1, 1), Detection(3, 0.75, 0, 0, 1, 1)];
    assert detections[1..] == [detections[1]];
  }
}
