/** Raster images as the pipeline sees them, and Python's slice semantics. */
module Images {

  /** One colour channel of a decoded pixel. */
  type Byte = x: int | 0 <= x < 256

  /** A pixel in OpenCV's channel order (blue, green, red). */
  datatype Pixel = Pixel(b: Byte, g: Byte, r: Byte)

  const White: Pixel := Pixel(255, 255, 255)

  /** A decoded image: its pixel width and its pixel rows from top to bottom. */
  datatype Image = Image(width: nat, rows: seq<seq<Pixel>>) {
    function Height(): nat { |rows| }

    /** Every row is `width` pixels long, as in any decoded image. */
    predicate Rectangular() {
      forall k :: 0 <= k < |rows| ==> |rows[k]| == width
    }
  }

  /** Where a Python slice bound `i` lands in a sequence of length `len`. */
  function SliceBound(i: int, len: nat): (k: nat)
    ensures k <= len
    ensures 0 <= i <= len ==> k == i
    ensures i < 0 && -i <= len ==> k == len + i
  {
    if i < 0 then (if len + i < 0 then 0 else len + i)
    else if i > len then len
    else i
  }

  /** `s[i:j]` in Python (and numpy) with step 1: negative bounds count from
      the end, out-of-range bounds are clamped, crossed bounds give []. */
  function PySlice<T>(s: seq<T>, i: int, j: int): (r: seq<T>)
    ensures |r| <= |s|
    ensures 0 <= i <= j <= |s| ==> r == s[i..j]
    ensures j <= i && 0 <= i && 0 <= j ==> r == []
  {
    var lo, hi := SliceBound(i, |s|), SliceBound(j, |s|);
    if lo < hi then s[lo..hi] else []
  }

  /** `image[top:bottom]` on a cv2 image: a slice of its rows. */
  function SliceRows(img: Image, top: int, bottom: int): (r: Image)
    ensures r.width == img.width
    ensures 0 <= top <= bottom <= img.Height() ==>
      r.Height() == bottom - top &&
      forall k :: 0 <= k < r.Height() ==> r.rows[k] == img.rows[top + k]
  {
    Image(img.width, PySlice(img.rows, top, bottom))
  }
}
