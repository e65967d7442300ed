/** The band check and clamping of `SheetGrabber.crop_frames`. */
module Cropping {
  import opened Wrappers

  const InvalidCropRange: string := "Invalid input for cropping range"

  /** Lines 189-196: reject a negative or empty band, then clamp it against
      `height`, the height of the first frame in chronological order. */
  function CropBand(top: int, bottom: int, height: nat): (r: Result<(int, int), Exception>)
    ensures r.Err? <==> top < 0 || bottom < 0 || bottom <= top
    ensures r.Err? ==> r.error == ValueError(InvalidCropRange)
    ensures r.Ok? && height > 0 ==> 0 <= r.value.0 < r.value.1 <= height
    ensures r.Ok? && bottom <= height ==> r.value == (top, bottom)
    ensures r.Ok? && top < height ==> r.value.0 == top
    ensures r.Ok? && height == 0 ==> r.value == (-1, 0)
  {
    if top < 0 || bottom < 0 || bottom <= top then Err(ValueError(InvalidCropRange))
    else
      var top' := if top >= height then height - 1 else top;
      var bottom' := if bottom > height then height else bottom;
      Ok((top', bottom'))
  }
}
