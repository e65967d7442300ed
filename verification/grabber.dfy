/** Class `SheetGrabber`: the stages of the pipeline as operations on the
    directory of extracted frames. The directory holds `<frame index>.jpg`
    files; it is modelled as a map from frame index to the decoded image. */
module Grabber {
  import opened Wrappers
  import opened Images
  import opened Sampling
  import opened CropBounds
  import opened Cropping
  import opened Ordering
  import opened Dedup
  import Compose

  /** The directory after writing, in order, the frames among `indices` that
      decode (overwriting any file of the same name). */
  function Saved(dir: map<nat, Image>, indices: seq<nat>, decode: nat -> Option<Image>): map<nat, Image> {
    if indices == [] then dir
    else
      var before := Saved(dir, indices[..|indices| - 1], decode);
      match decode(indices[|indices| - 1])
      case Some(img) => before[indices[|indices| - 1] := img]
      case None => before
  }

  /** Writing frames that all decode adds exactly those files, each holding
      its frame, and leaves every other file as it was. */
  lemma {:induction false} SavedSpec(dir: map<nat, Image>, indices: seq<nat>, decode: nat -> Option<Image>)
    requires forall i :: 0 <= i < |indices| ==> decode(indices[i]).Some?
    ensures forall k :: k in Saved(dir, indices, decode) <==> k in dir || k in indices
    ensures forall k :: k in indices ==> Saved(dir, indices, decode)[k] == decode(k).value
    ensures forall k :: k in dir && k !in indices ==> Saved(dir, indices, decode)[k] == dir[k]
  {
    if indices != [] {
      var init := indices[..|indices| - 1];
      SavedSpec(dir, init, decode);
      assert forall k :: k in indices <==> k in init || k == indices[|indices| - 1];
    }
  }

  /** `[Image.open(f) for f in files]` */
  function Load(dir: map<nat, Image>, files: seq<nat>): (images: seq<Image>)
    requires forall i :: 0 <= i < |files| ==> files[i] in dir
    ensures |images| == |files| && forall i :: 0 <= i < |files| ==> images[i] == dir[files[i]]
  {
    seq(|files|, i requires 0 <= i < |files| => dir[files[i]])
  }

  /** The hash of every file in the directory (`imagehashes`). */
  function Hashes(dir: map<nat, Image>, phash: Image -> Hash): (h: map<nat, Hash>)
    ensures h.Keys == dir.Keys
    ensures forall k :: k in dir ==> h[k] == phash(dir[k])
  {
    map k | k in dir :: phash(dir[k])
  }

  /** Every frame of `before` replaced by its rows `[top:bottom]`, and no other change. */
  predicate CroppedAll(before: map<nat, Image>, after: map<nat, Image>, top: int, bottom: int) {
    after.Keys == before.Keys &&
    forall k :: k in after ==> after[k] == SliceRows(before[k], top, bottom)
  }

  /** The frames listed in `done` are cropped, the others untouched. */
  predicate CroppedUpTo(before: map<nat, Image>, after: map<nat, Image>, done: seq<nat>, top: int, bottom: int) {
    after.Keys == before.Keys &&
    forall k :: k in after ==> after[k] == if k in done then SliceRows(before[k], top, bottom) else before[k]
  }

  /** Once every frame is listed in `done`, every frame is cropped. */
  lemma CroppedEvery(before: map<nat, Image>, after: map<nat, Image>, done: seq<nat>, top: int, bottom: int)
    requires CroppedUpTo(before, after, done, top, bottom)
    requires forall k :: k in done <==> k in before
    ensures CroppedAll(before, after, top, bottom)
  {
  }

  /** The first position in `files`, from `i` on, whose frame crops to no rows
      (or `|files|` when there is none). */
  function FirstEmptyFrom(dir: map<nat, Image>, files: seq<nat>, i: nat, top: int, bottom: int): (n: nat)
    requires i <= |files|
    requires forall j :: 0 <= j < |files| ==> files[j] in dir
    ensures i <= n <= |files|
    ensures forall j :: i <= j < n ==> SliceRows(dir[files[j]], top, bottom).Height() > 0
    ensures n < |files| ==> SliceRows(dir[files[n]], top, bottom).Height() == 0
    decreases |files| - i
  {
    if i == |files| || SliceRows(dir[files[i]], top, bottom).Height() == 0 then i
    else FirstEmptyFrom(dir, files, i + 1, top, bottom)
  }

  /** How many leading frames of `files` crop to at least one row. */
  function Croppable(dir: map<nat, Image>, files: seq<nat>, top: int, bottom: int): (n: nat)
    requires forall j :: 0 <= j < |files| ==> files[j] in dir
    ensures n <= |files|
  {
    FirstEmptyFrom(dir, files, 0, top, bottom)
  }

  /** Frames of one height, cropped to a band clamped against that height,
      never crop to nothing. */
  lemma SameHeightCroppable(dir: map<nat, Image>, files: seq<nat>, top: int, bottom: int, height: nat)
    requires forall j :: 0 <= j < |files| ==> files[j] in dir && dir[files[j]].Height() == height
    requires CropBand(top, bottom, height).Ok? && height > 0
    ensures Croppable(dir, files, CropBand(top, bottom, height).value.0, CropBand(top, bottom, height).value.1) == |files|
  {
  }

  /** Lines 195-196: a valid band is clamped to `height`. */
  lemma ClampedBand(top: int, bottom: int, height: nat)
    requires 0 <= top < bottom
    ensures CropBand(top, bottom, height) ==
      Ok((if top >= height then height - 1 else top, if bottom > height then height else bottom))
  {
  }

  /** Cropping file `files[i]` next, in a listing without repeats, extends
      the cropped prefix by one; the file still holds its original frame. */
  lemma CropStep(before: map<nat, Image>, after: map<nat, Image>, files: seq<nat>, i: nat, top: int, bottom: int)
    requires i < |files| && forall p, q :: 0 <= p < q < |files| ==> files[p] < files[q]
    requires CroppedUpTo(before, after, files[..i], top, bottom)
    requires files[i] in after
    ensures after[files[i]] == before[files[i]]
    ensures CroppedUpTo(before, after[files[i] := SliceRows(after[files[i]], top, bottom)], files[..i + 1], top, bottom)
  {
    assert files[i] !in files[..i];
    assert files[..i + 1] == files[..i] + [files[i]];
  }

  /** Lines 214-222: `rm_filenames`, each file appended when its hash is
      under the threshold from its predecessor's original hash. */
  method MarkDupes(imageFiles: seq<nat>, imagehashes: map<nat, Hash>) returns (rmFilenames: seq<nat>)
    requires Hashed(imageFiles, imagehashes)
    ensures rmFilenames == Marked(imageFiles, imagehashes)
  {
    rmFilenames := [];
    for idx := 0 to Pairs(imageFiles)
      invariant rmFilenames == MarkedUpTo(imageFiles, imagehashes, idx)
    {
      var nextFilename := imageFiles[idx + 1];
      if Distance(imagehashes[imageFiles[idx]], imagehashes[nextFilename]) < Threshold {
        rmFilenames := rmFilenames + [nextFilename];
      }
    }
  }

  /** The files left after deleting the marked ones, listed in numeric order,
      are exactly the kept ones. */
  lemma {:induction false} KeptAreSurvivors(files: seq<nat>, hashes: map<nat, Hash>, left: set<nat>)
    requires Hashed(files, hashes) && Increasing(files)
    requires forall k :: k in left <==> k in files && k !in Marked(files, hashes)
    ensures SortedIndices(left) == Kept(files, hashes)
  {
    DedupCorrect(files, hashes);
    var kept := Kept(files, hashes);
    forall k | k in kept ensures k in left {
      var i :| 0 <= i < |files| && files[i] == k;
    }
    forall k | k in left ensures k in kept {
      var i :| 0 <= i < |files| && files[i] == k;
    }
    SortedUnique(left, kept);
  }

  /** A band estimated on a frame passes `crop_frames`' validation and is
      not clamped when that frame is the first one: cropping to it keeps
      exactly rows [top, bottom). */
  lemma GuessedBandAccepted(img: Image)
    requires GuessBounds(img).Some?
    ensures CropBand(GuessBounds(img).value.0, GuessBounds(img).value.1, img.Height()) == Ok(GuessBounds(img).value)
  {
    GuessBoundsSpec(img);
  }

  class SheetGrabber {
    /** The frames directory: frame index -> image stored as `<index>.jpg`. */
    var frames: map<nat, Image>

    /** A grabber over an existing frames directory. */
    constructor (dir: map<nat, Image>)
      ensures frames == dir
    {
      frames := dir;
    }

    /** Lines 180-184: the frame indices in chronological (numeric) order. */
    function ImageFilenames(): (files: seq<nat>)
      reads this
      ensures |files| == |frames|
      ensures forall k :: k in files <==> k in frames
      ensures forall i, j :: 0 <= i < j < |files| ==> files[i] < files[j]
    {
      SortedIndices(frames.Keys)
    }

    /** The frames, opened in chronological order. */
    function SortedImages(): seq<Image>
      reads this
    {
      Load(frames, ImageFilenames())
    }

    /** Lines 107-128: sample every `stride`-th frame below `frameCount`,
        stopping at the first frame that fails to decode, and write each one
        to the directory. A zero stride raises at line 111 before any write. */
    method ExtractFrames(frameCount: nat, fps: int, intervalMs: int, decode: nat -> Option<Image>)
      returns (err: Option<Exception>)
      modifies this
      ensures err.Some? <==> Stride(fps, intervalMs) == 0
      ensures err.Some? ==> err.value == ZeroDivisionError && frames == old(frames)
      ensures err.None? ==>
        frames == Saved(old(frames), Sampled(Schedule(frameCount, Stride(fps, intervalMs)), decode), decode)
      ensures err.None? ==>
        var saved := Sampled(Schedule(frameCount, Stride(fps, intervalMs)), decode);
        (forall k :: k in frames <==> k in old(frames) || k in saved) &&
        (forall k :: k in saved ==> k in frames && decode(k) == Some(frames[k])) &&
        (forall k :: k in old(frames) && k !in saved ==> frames[k] == old(frames)[k])
    {
      var intervalFrames := Stride(fps, intervalMs);
      if intervalFrames == 0 {
        return Some(ZeroDivisionError);
      }
      var schedule := Schedule(frameCount, intervalFrames);
      ghost var saved := Sampled(schedule, decode);
      SampledPrefix(schedule, decode);
      var i := 0;
      while i < |schedule|
        invariant i <= |saved|
        invariant frames == Saved(old(frames), saved[..i], decode)
      {
        var frame := schedule[i];
        var image := decode(frame);
        if image.None? {
          break;
        }
        assert saved[..i + 1] == saved[..i] + [frame];
        assert saved[..i + 1][..i] == saved[..i];
        frames := frames[frame := image.value];
        i := i + 1;
      }
      assert saved[..|saved|] == saved;
      assert i == |saved|;
      SavedSpec(old(frames), saved, decode);
      return None;
    }

    /** Lines 146-156: estimate the crop band on the given frame, or on the
        first frame when none is given. `(None, None)` is `Ok(None)`. An empty
        directory raises IndexError; a frame that is not there makes cv2 return
        nothing, which the scan cannot iterate (TypeError). */
    method GuessCropBounds(imagePath: Option<nat>) returns (r: Result<Option<(nat, nat)>, Exception>)
      ensures imagePath.None? && frames == map[] ==> r == Err(IndexError)
      ensures imagePath.None? && frames != map[] ==> r == Ok(GuessBounds(frames[ImageFilenames()[0]]))
      ensures imagePath.Some? && imagePath.value !in frames ==> r == Err(TypeError)
      ensures imagePath.Some? && imagePath.value in frames ==> r == Ok(GuessBounds(frames[imagePath.value]))
    {
      var image: Image;
      if imagePath.None? {
        var files := ImageFilenames();
        if |files| == 0 {
          return Err(IndexError);
        }
        image := frames[files[0]];
      } else {
        if imagePath.value !in frames {
          return Err(TypeError);
        }
        image := frames[imagePath.value];
      }
      var bounds := EstimateBounds(image);
      r := Ok(bounds);
    }

    /** Lines 136-139: replace one frame by its rows `[top:bottom]`. OpenCV
        refuses to write an image with no rows: `cv2.imwrite` raises and the
        file keeps its old contents. */
    method CropImage(imagePath: nat, topPixel: int, bottomPixel: int) returns (err: Option<Exception>)
      requires imagePath in frames
      modifies this
      ensures SliceRows(old(frames)[imagePath], topPixel, bottomPixel).Height() == 0 ==>
        err == Some(CvError) && frames == old(frames)
      ensures SliceRows(old(frames)[imagePath], topPixel, bottomPixel).Height() > 0 ==>
        err.None? && frames == old(frames)[imagePath := SliceRows(old(frames)[imagePath], topPixel, bottomPixel)]
    {
      var croppedImage := SliceRows(frames[imagePath], topPixel, bottomPixel);
      if croppedImage.Height() == 0 {
        return Some(CvError);
      }
      frames := frames[imagePath := croppedImage];
      return None;
    }

    /** Lines 198-200: crop each listed frame in turn, stopping at the first
        frame that crops to nothing (its write raises). The frames before it
        are cropped, it and the ones after are untouched. */
    method CropEach(imageFiles: seq<nat>, top: int, bottom: int) returns (err: Option<Exception>)
      requires forall i :: 0 <= i < |imageFiles| ==> imageFiles[i] in frames
      requires forall i, j :: 0 <= i < j < |imageFiles| ==> imageFiles[i] < imageFiles[j]
      modifies this
      ensures CroppedUpTo(old(frames), frames, imageFiles[..Croppable(old(frames), imageFiles, top, bottom)], top, bottom)
      ensures err.None? <==> Croppable(old(frames), imageFiles, top, bottom) == |imageFiles|
      ensures err.Some? ==> err.value == CvError
    {
      ghost var n := Croppable(old(frames), imageFiles, top, bottom);
      for idx := 0 to |imageFiles|
        invariant idx <= n
        invariant CroppedUpTo(old(frames), frames, imageFiles[..idx], top, bottom)
      {
        CropStep(old(frames), frames, imageFiles, idx, top, bottom);
        err := CropImage(imageFiles[idx], top, bottom);
        if err.Some? {
          return;
        }
      }
      assert imageFiles[..|imageFiles|] == imageFiles;
      return None;
    }

    /** Lines 188-201: validate the band, clamp it to the height of the first
        frame, then crop every frame to it. Validation comes before anything
        is read; an empty directory raises IndexError after it; a frame that
        crops to no rows stops the loop with cv2's error. */
    method CropFrames(top: int, bottom: int) returns (err: Option<Exception>)
      modifies this
      ensures (top < 0 || bottom < 0 || bottom <= top) ==>
        err == Some(ValueError(InvalidCropRange)) && frames == old(frames)
      ensures !(top < 0 || bottom < 0 || bottom <= top) && old(frames) == map[] ==>
        err == Some(IndexError) && frames == old(frames)
      ensures !(top < 0 || bottom < 0 || bottom <= top) && old(frames) != map[] ==>
        var files := old(ImageFilenames());
        var band := CropBand(top, bottom, old(frames[files[0]]).Height());
        band.Ok? &&
        CroppedUpTo(old(frames), frames, files[..Croppable(old(frames), files, band.value.0, band.value.1)],
                    band.value.0, band.value.1) &&
        (err.None? <==> Croppable(old(frames), files, band.value.0, band.value.1) == |files|) &&
        (err.Some? ==> err == Some(CvError))
      ensures err.None? ==>
        old(frames) != map[] &&
        var band := CropBand(top, bottom, old(frames[ImageFilenames()[0]]).Height());
        band.Ok? && CroppedAll(old(frames), frames, band.value.0, band.value.1)
    {
      if top < 0 || bottom < 0 || bottom <= top {
        return Some(ValueError(InvalidCropRange));
      }
      var imageFiles := ImageFilenames();
      if |imageFiles| == 0 {
        return Some(IndexError);
      }
      var height := frames[imageFiles[0]].Height();
      var t := if top >= height then height - 1 else top;
      var b := if bottom > height then height else bottom;
      ClampedBand(top, bottom, height);
      err := CropAll(imageFiles, t, b);
    }

    /** Lines 198-201 over the whole directory: crop every frame to `[top:bottom]`
        in order, until one crops to no rows. */
    method CropAll(imageFiles: seq<nat>, top: int, bottom: int) returns (err: Option<Exception>)
      requires forall k :: k in imageFiles <==> k in frames
      requires forall i, j :: 0 <= i < j < |imageFiles| ==> imageFiles[i] < imageFiles[j]
      modifies this
      ensures CroppedUpTo(old(frames), frames, imageFiles[..Croppable(old(frames), imageFiles, top, bottom)], top, bottom)
      ensures err.None? <==> Croppable(old(frames), imageFiles, top, bottom) == |imageFiles|
      ensures err.Some? ==> err == Some(CvError)
      ensures err.None? ==> CroppedAll(old(frames), frames, top, bottom)
    {
      err := CropEach(imageFiles, top, bottom);
      if err.None? {
        assert imageFiles[..|imageFiles|] == imageFiles;
        CroppedEvery(old(frames), frames, imageFiles, top, bottom);
      }
    }

    /** Lines 209-212: the hash of every listed frame. */
    method HashFrames(imageFiles: seq<nat>, phash: Image -> Hash) returns (imagehashes: map<nat, Hash>)
      requires forall k :: k in imageFiles <==> k in frames
      ensures imagehashes == Hashes(frames, phash)
    {
      imagehashes := map[];
      for i := 0 to |imageFiles|
        invariant forall k :: k in imagehashes <==> k in imageFiles[..i]
        invariant forall k :: k in imagehashes ==> k in frames && imagehashes[k] == phash(frames[k])
      {
        assert imageFiles[..i + 1] == imageFiles[..i] + [imageFiles[i]];
        imagehashes := imagehashes[imageFiles[i] := phash(frames[imageFiles[i]])];
      }
      assert imageFiles[..|imageFiles|] == imageFiles;
    }

    /** Lines 224-225: delete the marked files. */
    method DeleteFiles(rmFilenames: seq<nat>)
      modifies this
      ensures forall k :: k in frames <==> k in old(frames) && k !in rmFilenames
      ensures forall k :: k in frames ==> frames[k] == old(frames)[k]
    {
      for i := 0 to |rmFilenames|
        invariant forall k :: k in frames <==> k in old(frames) && k !in rmFilenames[..i]
        invariant forall k :: k in frames ==> frames[k] == old(frames)[k]
      {
        assert rmFilenames[..i + 1] == rmFilenames[..i] + [rmFilenames[i]];
        frames := frames - {rmFilenames[i]};
      }
      assert rmFilenames[..|rmFilenames|] == rmFilenames;
    }

    /** Lines 206-225: hash every frame, mark each frame whose hash is under
        the threshold from its predecessor's, then delete the marked frames.
        The survivors are the unmarked frames, in chronological order. */
    method RemoveDupeFrames(phash: Image -> Hash)
      modifies this
      ensures
        var files := old(ImageFilenames());
        var marked := Marked(files, Hashes(old(frames), phash));
        (forall k :: k in frames <==> k in old(frames) && k !in marked) &&
        (forall k :: k in frames ==> frames[k] == old(frames)[k]) &&
        ImageFilenames() == Kept(files, Hashes(old(frames), phash))
    {
      var imageFiles := ImageFilenames();
      var imagehashes := HashFrames(imageFiles, phash);
      var rmFilenames := MarkDupes(imageFiles, imagehashes);
      DeleteFiles(rmFilenames);
      KeptAreSurvivors(imageFiles, imagehashes, frames.Keys);
    }

    /** Lines 228-239: the frames stitched into one tall image. */
    method OutputResultImage() returns (r: Result<Compose.Canvas, Exception>)
      ensures r.Err? <==> frames == map[]
      ensures r.Err? ==> r.error == IndexError
      ensures r == Compose.OutputResultImage(SortedImages())
    {
      var images := Load(frames, ImageFilenames());
      r := Compose.OutputResultImage(images);
    }

    /** Lines 283-286: the frames laid out on A4-proportioned pages (with the
        last page always kept; see Compose.ImagesToPages). */
    method OutputResultPdf() returns (r: Result<seq<Compose.Canvas>, Exception>)
      ensures r.Err? <==> frames == map[]
      ensures r.Err? ==> r.error == IndexError
      ensures r.Ok? ==> Compose.Flatten(r.value) == SortedImages()
      ensures r.Ok? ==> Compose.PagesInv(r.value, SortedImages()[0].width, Compose.PageHeight(SortedImages()[0].width))
    {
      var images := Load(frames, ImageFilenames());
      r := Compose.ImagesToPages(images);
    }
  }
}
