/** The crop-bound estimator: `_first_white_row` and `guess_crop_bounds`. */
module CropBounds {
  import opened Wrappers
  import opened Images

  /** `row[10:-10]`: the row without the 10 pixels at each edge. */
  function Interior(row: seq<Pixel>): seq<Pixel> {
    PySlice(row, 10, -10)
  }

  /** A row is white when every interior pixel is (255, 255, 255). */
  predicate IsWhiteRow(row: seq<Pixel>) {
    forall k :: 0 <= k < |Interior(row)| ==> Interior(row)[k] == White
  }

  /** The interior is exactly the columns [10, len - 10); a row of 20 pixels
      or fewer has none and so counts as white. */
  lemma WhiteRowColumns(row: seq<Pixel>)
    ensures IsWhiteRow(row) <==> forall j :: 10 <= j < |row| - 10 ==> row[j] == White
  {
    if |row| > 20 {
      assert Interior(row) == row[10..|row| - 10];
      forall j | 10 <= j < |row| - 10 && IsWhiteRow(row) ensures row[j] == White {
        assert row[j] == Interior(row)[j - 10];
      }
    } else {
      assert |Interior(row)| == 0;
    }
  }

  /** Index of the first white row from the top, if any. */
  function FirstWhite(rows: seq<seq<Pixel>>): (r: Option<nat>)
    ensures r.Some? ==> r.value < |rows|
  {
    if rows == [] then None
    else if IsWhiteRow(rows[0]) then Some(0)
    else match FirstWhite(rows[1..])
      case None => None
      case Some(i) => Some(i + 1)
  }

  /** FirstWhite finds a white row with none above it, or reports that no row is white. */
  lemma {:induction false} FirstWhiteSpec(rows: seq<seq<Pixel>>)
    ensures FirstWhite(rows).Some? ==>
      FirstWhite(rows).value < |rows| && IsWhiteRow(rows[FirstWhite(rows).value])
    ensures FirstWhite(rows).Some? ==>
      forall j :: 0 <= j < FirstWhite(rows).value ==> !IsWhiteRow(rows[j])
    ensures FirstWhite(rows).None? <==> forall j :: 0 <= j < |rows| ==> !IsWhiteRow(rows[j])
  {
    if rows != [] && !IsWhiteRow(rows[0]) {
      var rest := rows[1..];
      FirstWhiteSpec(rest);
      forall j | 0 < j < |rows| ensures rows[j] == rest[j - 1] {
      }
    }
  }

  /** Lines 160-177: scan rows top-down, each pixel of the interior left to
      right, stopping a row at its first non-white pixel and the scan at the
      first all-white row. */
  method FirstWhiteRow(image: seq<seq<Pixel>>) returns (whiteRowIdx: Option<nat>)
    ensures whiteRowIdx == FirstWhite(image)
  {
    whiteRowIdx := None;
    var rowIdx := 0;
    while rowIdx < |image|
      invariant 0 <= rowIdx <= |image|
      invariant forall j :: 0 <= j < rowIdx ==> !IsWhiteRow(image[j])
      invariant whiteRowIdx.None?
    {
      var row := Interior(image[rowIdx]);
      var hasNonwhite := false;
      var k := 0;
      while k < |row|
        invariant 0 <= k <= |row|
        invariant !hasNonwhite ==> forall m :: 0 <= m < k ==> row[m] == White
        invariant hasNonwhite ==> !IsWhiteRow(image[rowIdx])
      {
        if row[k] != White {
          hasNonwhite := true;
          break;
        }
        k := k + 1;
      }
      if hasNonwhite {
        rowIdx := rowIdx + 1;
        continue;
      }
      whiteRowIdx := Some(rowIdx);
      FirstWhiteIs(image, rowIdx);
      break;
    }
    if whiteRowIdx.None? {
      FirstWhiteSpec(image);
    }
  }

  /** `image[::-1]` */
  function Reverse<T>(s: seq<T>): (r: seq<T>)
    ensures |r| == |s|
    ensures forall i :: 0 <= i < |s| ==> r[i] == s[|s| - 1 - i]
  {
    if s == [] then [] else Reverse(s[1..]) + [s[0]]
  }

  /** The characterisation in FirstWhite's contract determines its result. */
  lemma {:induction false} FirstWhiteIs(rows: seq<seq<Pixel>>, i: nat)
    requires i < |rows| && IsWhiteRow(rows[i])
    requires forall j :: 0 <= j < i ==> !IsWhiteRow(rows[j])
    ensures FirstWhite(rows) == Some(i)
  {
    FirstWhiteSpec(rows);
    var f := FirstWhite(rows);
    assert f.Some?;
    assert f.value <= i;
    assert f.value >= i;
  }

  /** The first white row of the flipped image is the last white row of the original. */
  lemma {:induction false} FlippedScan(rows: seq<seq<Pixel>>, last: nat)
    requires last < |rows| && IsWhiteRow(rows[last])
    requires forall j :: last < j < |rows| ==> !IsWhiteRow(rows[j])
    ensures FirstWhite(Reverse(rows)) == Some(|rows| - 1 - last)
  {
    var r := Reverse(rows);
    var t := |rows| - 1 - last;
    assert r[t] == rows[last];
    forall j | 0 <= j < t ensures !IsWhiteRow(r[j]) {
      ReversedRow(rows, j);
    }
    FirstWhiteIs(r, t);
  }

  lemma {:induction false} ReversedRow(rows: seq<seq<Pixel>>, j: nat)
    requires j < |rows|
    ensures Reverse(rows)[j] == rows[|rows| - 1 - j]
  {
  }

  /** Index of the last white row: there is one whenever there is a first. */
  function LastWhite(rows: seq<seq<Pixel>>, from: nat): (last: nat)
    requires from < |rows| && IsWhiteRow(rows[from])
    ensures from <= last < |rows| && IsWhiteRow(rows[last])
    ensures forall j :: last < j < |rows| ==> !IsWhiteRow(rows[j])
    decreases |rows| - from
  {
    if forall j :: from < j < |rows| ==> !IsWhiteRow(rows[j]) then from
    else
      var j :| from < j < |rows| && IsWhiteRow(rows[j]);
      LastWhite(rows, j)
  }

  /** Lines 146-156: `(top, bottom)` from the top scan and the flipped scan,
      or None (Python's `(None, None)`) when the top scan finds nothing or
      finds row 0, which `if not top_bound` treats alike. */
  function GuessBounds(img: Image): Option<(nat, nat)>
  {
    match FirstWhite(img.rows)
    case None => None
    case Some(top) =>
      if top == 0 then None
      else
        FirstWhiteSpec(img.rows);
        FlippedScan(img.rows, LastWhite(img.rows, top));
        Some((top, img.Height() - FirstWhite(Reverse(img.rows)).value))
  }

  /** The estimate gives up exactly when no row is white or row 0 is; otherwise
      it is the band from the first white row to the last, inclusive, with no
      white row outside it. */
  lemma GuessBoundsSpec(img: Image)
    ensures GuessBounds(img).None? <==>
      (forall j :: 0 <= j < img.Height() ==> !IsWhiteRow(img.rows[j])) ||
      (img.Height() > 0 && IsWhiteRow(img.rows[0]))
    ensures GuessBounds(img).Some? ==> BoundsFit(img, GuessBounds(img).value)
  {
    FirstWhiteSpec(img.rows);
    match FirstWhite(img.rows)
    case None =>
    case Some(top) =>
      if top > 0 {
        GuessBoundsSome(img, top);
      }
  }

  /** `(top, bottom)` spans the white rows of `img`: rows `top` and
      `bottom - 1` are white, row 0 is not, and no row outside is. */
  predicate BoundsFit(img: Image, b: (nat, nat)) {
    0 < b.0 < b.1 <= img.Height() &&
    IsWhiteRow(img.rows[b.0]) && IsWhiteRow(img.rows[b.1 - 1]) &&
    (forall j :: 0 <= j < b.0 ==> !IsWhiteRow(img.rows[j])) &&
    (forall j :: b.1 <= j < img.Height() ==> !IsWhiteRow(img.rows[j]))
  }

  lemma GuessBoundsSome(img: Image, top: nat)
    requires FirstWhite(img.rows) == Some(top) && top > 0
    ensures GuessBounds(img).Some? && BoundsFit(img, GuessBounds(img).value)
  {
    FirstWhiteSpec(img.rows);
    var last := LastWhite(img.rows, top);
    GuessBoundsValue(img, top);
    WhiteBand(img, top, last);
  }

  /** When the top scan finds row `top > 0`, the bottom bound is one past the last white row. */
  lemma {:induction false} GuessBoundsValue(img: Image, top: nat)
    requires FirstWhite(img.rows) == Some(top) && top > 0
    requires top < |img.rows| && IsWhiteRow(img.rows[top])
    ensures GuessBounds(img) == Some((top, LastWhite(img.rows, top) + 1))
  {
    FirstWhiteSpec(img.rows);
    FlippedScan(img.rows, LastWhite(img.rows, top));
  }

  lemma {:induction false} WhiteBand(img: Image, top: nat, last: nat)
    requires FirstWhite(img.rows) == Some(top) && top > 0
    requires top < |img.rows| && IsWhiteRow(img.rows[top])
    requires last == LastWhite(img.rows, top)
    ensures BoundsFit(img, (top, last + 1))
  {
    FirstWhiteSpec(img.rows);
  }

  /** Lines 149-156 once the image is read: the top scan, then (unless it
      found nothing or row 0) the scan of the vertically flipped image. */
  method EstimateBounds(image: Image) returns (bounds: Option<(nat, nat)>)
    ensures bounds == GuessBounds(image)
  {
    var topBound := FirstWhiteRow(image.rows);
    if topBound.None? || topBound.value == 0 {
      return None;
    }
    FirstWhiteSpec(image.rows);
    ghost var last := LastWhite(image.rows, topBound.value);
    FlippedScan(image.rows, last);
    var flipped := FirstWhiteRow(Reverse(image.rows));
    var bottomBound := |image.rows| - flipped.value;
    bounds := Some((topBound.value, bottomBound));
    GuessBoundsValue(image, topBound.value);
  }

  /** Running the estimator again on an image cropped to its estimated band
      gives up: the band starts with a white row, so the new top is row 0. */
  lemma EstimateAfterCrop(img: Image)
    requires GuessBounds(img).Some?
    ensures GuessBounds(SliceRows(img, GuessBounds(img).value.0, GuessBounds(img).value.1)).None?
  {
    var (top, bottom) := GuessBounds(img).value;
    GuessBoundsSpec(img);
    var cropped := SliceRows(img, top, bottom);
    assert cropped.rows[0] == img.rows[top];
    GuessBoundsSpec(cropped);
  }
}
