/** Outcomes of the script's steps: an optional value, and the one failure
    the modelled code can raise. */
module Results {

  datatype Option<+T> = None | Some(value: T)

  /** The failure the modelled code can end in. `UnboundCropImage` is Python's
      UnboundLocalError when `findBirdInFrame` reaches `return crop_img`
      without ever having bound `crop_img` (the network emitted no detection). */
  datatype Error = UnboundCropImage

  datatype Result<+T> = Ok(value: T) | Err(error: Error)
}
