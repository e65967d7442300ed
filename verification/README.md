# yt-sheet-grabber: the frame pipeline of `SheetGrabber`, in Dafny

yt-sheet-grabber turns a video of sheet music into one tall image or a PDF. The
video is first trimmed to a time range given as "M:SS" timestamps. Frames are
then sampled at a fixed interval and written to a directory as
`<frame index>.jpg`. Every frame is cropped to the band of rows holding the music.
Frames whose perceptual hash is close to their predecessor's are deleted. Finally the survivors are
stacked, either into one canvas or onto pages with A4 proportions.

This project models that pipeline: the image-processing core of class
`SheetGrabber` in `yt_sheet_grabber/sheetgrabber.py`, and proves what each stage
promises.

- `Timestamps` is the validation and seconds arithmetic of `trim_video`. It
  includes a "M:SS" formatter whose round trip through the conversion is proved.
- `Sampling` is the sampling schedule of `extract_frames`. It covers Python's
  half-to-even `round`, `range` and `math.ceil`, and the stop at the first frame
  that fails to decode.
- `CropBounds` is `_first_white_row` as a scanning method, and
  `guess_crop_bounds`. Both are specified by a recursive function and
  characterised by lemmas.
- `Cropping` is the band validation and clamping of `crop_frames`.
- `Ordering` is the numeric sort of `_get_image_filenames`.
- `Dedup` is the adjacent-pair duplicate marking of `remove_dupe_frames`.
- `Compose` is `output_result_image` and the paging loop of `_images_to_pages`.
- `Grabber` is class `SheetGrabber`. Its frames directory is a mutable field
  `frames: map<nat, Image>` (frame index to decoded image). Its methods
  extract, crop, filter and compose frames through that field.

Modelling choices:

- The video decoder is a parameter `decode: nat -> Option<Image>`. `None` is a
  failed `capture.read()`.
- `imagehash.phash` is a parameter `Image -> Hash` returning a 64-bit hash.
  `hash1 - hash2` is the Hamming distance.
- A PIL canvas is modelled by its size and the list of pastes made on it.
- Python's slices (`row[10:-10]`, `image[top:bottom]`) follow Python's clamping
  rules exactly (`Images.PySlice`).

Quirks of the code that the model keeps:

- The comment at line 68 documents timestamps as "XX:XX" or "X:XX". The guard at
  line 71 also lets through "5:" and ":30", and `int("")` then raises a
  ValueError of its own (`Timestamps.TrimSecondsCorrect`).
- Neither the seconds field (below 60) nor the order of start and end is
  checked: "2:00" to "0:75" converts to 120 s to 75 s (`Timestamps.NoRangeChecks`).
- `guess_crop_bounds` gives up when the first white row is row 0, because
  `if not top_bound` treats 0 like None. As a consequence, re-estimating on a frame
  already cropped to its estimate always gives up (`CropBounds.EstimateAfterCrop`).
- `crop_frames` clamps the band against the first frame only. A later frame
  that crops to no rows makes `cv2.imwrite` raise `cv2.error`, which stops
  the loop with the earlier frames already cropped (`Grabber.SheetGrabber.CropFrames`).
- The duplicate test compares each frame with its predecessor's *original* hash,
  even when that predecessor is itself deleted.

## Model

| member | source | states |
|---|---|---|
| Timestamps.TrimSecondsCorrect | yt_sheet_grabber/sheetgrabber.py:69-74 | the conversion succeeds exactly when both timestamps are two non-empty digit fields around one colon, then yields minutes*60+seconds for each; every failure is a ValueError |
| Timestamps.TimestampCorrect | yt_sheet_grabber/sheetgrabber.py:70-74 | for one timestamp: a well-formed one passes the guard; past the guard, `int` succeeds exactly on well-formed ones and gives its seconds, and otherwise raises ValueError |
| Timestamps.WellFormedPassesGuard | yt_sheet_grabber/sheetgrabber.py:70-72 | every well-formed "M:SS" timestamp has exactly one colon and only digits besides it |
| Timestamps.FormatRoundTrip | yt_sheet_grabber/sheetgrabber.py:67-74 | every number of seconds rendered as "M:SS" is accepted and converts back to itself |
| Timestamps.NoRangeChecks | yt_sheet_grabber/sheetgrabber.py:73-74 | "2:00" to "0:75" is accepted as 120 s to 75 s: neither seconds < 60 nor start < end is checked |
| Sampling.RoundHalfEven | yt_sheet_grabber/sheetgrabber.py:107-109 | the result is within half a unit of n/d, and an exact half goes to the even neighbour |
| Sampling.StrideZeroIff | yt_sheet_grabber/sheetgrabber.py:107-111 | the frame interval is 0, so that `math.ceil(frame_count / 0)` raises, exactly when fps*interval_ms lies in [-500, 500] |
| Sampling.ScheduleShape | yt_sheet_grabber/sheetgrabber.py:111-116 | for a positive stride the schedule has ceil(frame_count/stride) entries, entry i is i*stride, and every entry is below frame_count |
| Sampling.RangeFromShape | yt_sheet_grabber/sheetgrabber.py:116 | `range(k, stop, step)` has ceil((stop-k)/step) entries (or none), entry i being k + i*step |
| Sampling.SampledPrefix | yt_sheet_grabber/sheetgrabber.py:116-123 | the saved frames are a prefix of the schedule, each decodes, and when the prefix is short the next scheduled frame failed to decode |
| Sampling.SampledAll | yt_sheet_grabber/sheetgrabber.py:116-128 | when every scheduled frame decodes, all of them are saved |
| Sampling.FullSampleCount | yt_sheet_grabber/sheetgrabber.py:111-128 | with every frame decoding, exactly `total_images` = ceil(frame_count/stride) frames are saved |
| Sampling.ThirtyFpsExample | yt_sheet_grabber/sheetgrabber.py:96-116 | the default 3000 ms interval at 30 fps samples every 90th frame: 0, 90, 180, 270 of 301 |
| Grabber.SavedSpec | yt_sheet_grabber/sheetgrabber.py:125-127 | writing decoded frames adds exactly their files, each holding its frame, and leaves every other file as it was |
| Grabber.SheetGrabber.ExtractFrames | yt_sheet_grabber/sheetgrabber.py:96-130 | a zero stride raises ZeroDivisionError and writes nothing; otherwise the directory gains exactly the sampled frames, each holding its decoded image, and no other file changes |
| CropBounds.WhiteRowColumns | yt_sheet_grabber/sheetgrabber.py:163-171 | a row is white exactly when every pixel in columns [10, len-10) is (255,255,255), so a row of 20 pixels or fewer always counts as white |
| CropBounds.FirstWhiteSpec | yt_sheet_grabber/sheetgrabber.py:160-177 | the scan result is a white row with no white row above it, and it is None exactly when no row is white |
| CropBounds.FirstWhiteIs | yt_sheet_grabber/sheetgrabber.py:160-177 | a white row with no white row above it is the one the scan returns |
| CropBounds.FirstWhiteRow | yt_sheet_grabber/sheetgrabber.py:160-177 | the nested loop with its two early exits returns the first white row, as characterised by FirstWhiteSpec |
| CropBounds.FlippedScan | yt_sheet_grabber/sheetgrabber.py:155 | the scan of `image[::-1]` finds len-1-last, where last is the last white row of the image |
| CropBounds.GuessBoundsSpec | yt_sheet_grabber/sheetgrabber.py:146-156 | the estimate gives up exactly when no row is white or row 0 is white; otherwise it is (first white row, last white row + 1), with 0 < top < bottom <= height and no white row outside the band |
| CropBounds.GuessBoundsValue | yt_sheet_grabber/sheetgrabber.py:150-156 | when the top scan finds a row top > 0, the bottom bound is one past the last white row |
| CropBounds.EstimateBounds | yt_sheet_grabber/sheetgrabber.py:149-156 | the two scans with the `if not top_bound` exit compute the estimate characterised by GuessBoundsSpec |
| CropBounds.EstimateAfterCrop | yt_sheet_grabber/sheetgrabber.py:146-156 | estimating again on an image cropped to its estimate gives up, because the cropped image starts with a white row |
| Grabber.SheetGrabber.GuessCropBounds | yt_sheet_grabber/sheetgrabber.py:146-156 | with no path it uses the first frame in numeric order, raising IndexError when there is none; a path not in the directory raises TypeError; otherwise it returns that frame's estimate |
| Grabber.SheetGrabber.CropImage | yt_sheet_grabber/sheetgrabber.py:136-139 | exactly one frame is replaced by its rows [top:bottom], with Python's slice clamping; a slice with no rows, which `cv2.imwrite` refuses, raises cv2.error and leaves the frame as it was |
| Cropping.CropBand | yt_sheet_grabber/sheetgrabber.py:189-196 | a negative or empty band raises ValueError; otherwise the band is clamped so that a nonempty first frame gives 0 <= top < bottom <= height, and a band already inside the frame is unchanged |
| Grabber.FirstEmptyFrom | yt_sheet_grabber/sheetgrabber.py:198-200 | the first listed frame from position i on that crops to no rows, every frame before it cropping to at least one |
| Grabber.SameHeightCroppable | yt_sheet_grabber/sheetgrabber.py:194-200 | frames as tall as the first, cropped to a band clamped against that height, all crop to at least one row |
| Grabber.SheetGrabber.CropEach | yt_sheet_grabber/sheetgrabber.py:198-200 | the loop crops the listed frames in order up to the first one that crops to no rows, where it raises cv2.error; that frame and every later or unlisted frame are unchanged |
| Grabber.SheetGrabber.CropAll | yt_sheet_grabber/sheetgrabber.py:198-201 | over every frame of the directory: the frames before the first empty crop are cropped and the rest unchanged; it succeeds exactly when no frame crops to nothing, and then every frame is cropped |
| Grabber.SheetGrabber.CropFrames | yt_sheet_grabber/sheetgrabber.py:188-201 | an invalid band raises ValueError and an empty directory raises IndexError, neither touching a file; otherwise the band is clamped against the first frame and the frames are cropped to it in numeric order; it succeeds exactly when no frame crops to nothing, and raises cv2.error at the first one that does, with only the frames before it cropped |
| Grabber.GuessedBandAccepted | yt_sheet_grabber/sheetgrabber.py:146-196 | a band estimated on the first frame passes `crop_frames`' validation and is not clamped |
| Ordering.SortedUnique | yt_sheet_grabber/sheetgrabber.py:180-184 | the numeric sort is determined by the set of indices: any strictly increasing listing of them is the sorted one |
| Grabber.SheetGrabber.ImageFilenames | yt_sheet_grabber/sheetgrabber.py:180-184 | the frame indices are listed exactly once each, in strictly increasing numeric order |
| Dedup.DistanceProperties | yt_sheet_grabber/sheetgrabber.py:221 | the hash distance is symmetric and is 0 exactly on equal hashes, so identical frames always count as similar |
| Dedup.DedupCorrect | yt_sheet_grabber/sheetgrabber.py:206-225 | frame i (i >= 1) is marked exactly when its hash is under 5 from frame i-1's; the survivors are the unmarked frames in order, starting with the first frame |
| Grabber.SheetGrabber.HashFrames | yt_sheet_grabber/sheetgrabber.py:209-212 | the map holds the phash of every frame in the directory, and nothing else |
| Grabber.MarkDupes | yt_sheet_grabber/sheetgrabber.py:214-222 | the loop over `image_files[:-1]` builds exactly the marked list characterised by DedupCorrect |
| Grabber.SheetGrabber.DeleteFiles | yt_sheet_grabber/sheetgrabber.py:224-225 | exactly the listed files are removed and every other file keeps its contents |
| Grabber.KeptAreSurvivors | yt_sheet_grabber/sheetgrabber.py:206-225 | the files left after deletion, listed in numeric order, are exactly the kept frames |
| Grabber.SheetGrabber.RemoveDupeFrames | yt_sheet_grabber/sheetgrabber.py:206-225 | only the marked frames are deleted, the others keep their contents, and the files listed afterwards are the kept frames |
| Compose.OutputResultImage | yt_sheet_grabber/sheetgrabber.py:229-239 | an empty directory raises IndexError; otherwise the canvas is as wide as the first image and as tall as all images together, and holds every image in order, image i at the sum of the heights before it, with no gap or overlap |
| Compose.StackedTiled | yt_sheet_grabber/sheetgrabber.py:233-239 | the pastes follow one another from row 0 with no gap or overlap and end exactly at the canvas height |
| Compose.SingleImageRows | yt_sheet_grabber/sheetgrabber.py:233-239 | in the stitched rows, row k of image i sits at Offset(i)+k, the sum of the heights before image i plus k |
| Compose.RenderedImage | yt_sheet_grabber/sheetgrabber.py:229-239 | for images as wide as the first, the pixels of the output canvas, pasted in order onto its black background, are exactly the stitched rows: every canvas row is covered, by row k of image i at Offset(i)+k |
| Compose.RenderStacked | yt_sheet_grabber/sheetgrabber.py:235-239 | after the first i pastes, the canvas rows above Offset(i) show the first i images and the rows below are still background |
| Grabber.SheetGrabber.OutputResultImage | yt_sheet_grabber/sheetgrabber.py:228-239 | the frames, opened in numeric order, are stitched as Compose.OutputResultImage states |
| Compose.PackInvariant | yt_sheet_grabber/sheetgrabber.py:251-263 | at every step of the paging loop, the pages so far (current page last) satisfy the page invariant, hold the images seen so far, and the offset is the first free row of the current page |
| Compose.PagesCorrect | yt_sheet_grabber/sheetgrabber.py:246-267 | every image is placed exactly once and in order; a page is sealed only when the next image does not fit; a paste lies within its page unless it starts the page; the first page is blank exactly when the first image is taller than a page; no other page is blank |
| Compose.FillPages | yt_sheet_grabber/sheetgrabber.py:251-263 | the loop ends in the state of the paging state machine after all images |
| Compose.ImagesToPagesAsWritten | yt_sheet_grabber/sheetgrabber.py:246-267 | an empty list raises IndexError; otherwise the last page is appended only when no sealed page is equal to it, so the pages hold all images exactly when the last page repeats no sealed page, and a proper prefix of them otherwise |
| Compose.AsWrittenPages | yt_sheet_grabber/sheetgrabber.py:246-267 | the pages as written keep the page invariant and hold every image unless the last page equals a sealed one; then they hold only a proper prefix of the images |
| Compose.LastPageDropped | yt_sheet_grabber/sheetgrabber.py:265-266 | for images A, B, A one pixel wide, the code as written returns only A and B; the corrected version returns A, B, A |
| Compose.ImagesToPages | yt_sheet_grabber/sheetgrabber.py:246-267 | an empty list raises IndexError; otherwise the pages are those of PagesCorrect, the last page always appended |
| Grabber.SheetGrabber.OutputResultPdf | yt_sheet_grabber/sheetgrabber.py:283-286 | an empty directory raises IndexError; otherwise the pages, laid out by the corrected packer, hold the frames in numeric order and satisfy the page invariant |

## Left out

- Video download and lookup are not part of this model, nor are the command line and `cleanup`. This covers the constructor's pytube calls, `download`, `skip_download`, `find_filename` and `cleanup` (lines 1-65, 86-91, 293-299). They are network and file-system I/O.
- The rename, ffmpeg subclip and remove calls of `trim_video` (lines 75-81) are external programs and file I/O. Only the timestamp validation and conversion are modelled.
- OpenCV's and PIL's file I/O is not modelled: `VideoCapture`, `imread`, `imwrite`, `Image.open`, `save`. JPEG is lossy, and the model takes a frame written and read back to be the frame itself. Of `imwrite`'s failures, only the refusal of an image with no rows is modelled (`Grabber.SheetGrabber.CropImage`). A frame of zero width is not modelled.
- `Grabber.SheetGrabber.ExtractFrames`: `fps` is taken as the already rounded integer from line 102. `interval_ms / 1000` is taken as an exact rational, so float rounding of fps*interval_ms/1000 is not modelled. A negative interval gives an empty schedule, as `range` does.
- `Grabber.SheetGrabber.ExtractFrames`: the progress printing, `image_count` and `total_images` (lines 110-113, 128-129) only feed a print. `total_images` is characterised by `Sampling.FullSampleCount` instead.
- `imagehash.phash` is a parameter. Its DCT is not modelled, and the properties hold for any hash function.
- `Compose.OutputResultImage`: its contract describes the pastes. Their pixels are stated by `Compose.RenderedImage` only for images as wide as the first, as the comment at line 248 assumes. A narrower or wider image, which PIL pads with background or clips, is rendered by `Compose.Render` but nothing is proved about it.
- `Compose.CloseAsWritten`: PIL compares page images by their pixels, and the model compares pages by their pastes. Equal pastes give equal pixels, but different pastes can also give equal pixels, so the model drops the last page in fewer cases than the program does.
- `Compose.PagesCorrect`, `Compose.ImagesToPages`: "every image is placed exactly once" counts pastes, not pixels. An image taller than `page_height` is pasted at row 0 of a page that is only `page_height` rows tall (lines 252 and 262), and PIL clips its lower rows, so those rows are not on any page.
- `Grabber.SheetGrabber.OutputResultPdf`: it lays out the pages with the corrected `Compose.ImagesToPages`. The program calls `_images_to_pages` as written, which drops a last page equal to a sealed one (see Findings). What the as-written pages satisfy is stated by `Compose.ImagesToPagesAsWritten` and `Compose.AsWrittenPages`.
- `Compose.PageHeight` computes `int(842 / 595 * width)` as exact integer division. The float product can differ by one for some widths.
- `_convert_pdf_to_a4` (lines 271-280) and the PDF save (line 289) are PyMuPDF and PIL file output.
- `str.isdigit` is modelled on ASCII digits only. Other Unicode digits that Python accepts are not.
- `Grabber.SheetGrabber.GuessCropBounds`: a path is a frame index in the frames directory. A file outside that directory is not modelled, and a missing one is the TypeError that iterating cv2's `None` raises.

## Findings

| source | as written | input that shows it | evidently intended | confidence | as-written member | corrected member |
|---|---|---|---|---|---|---|
| yt_sheet_grabber/sheetgrabber.py:265-266 | `current_page not in page_images` compares PIL images by value, so the last page is dropped when its contents equal an earlier sealed page | images A, B, A, each one row of one pixel (A white, B black): the pages are 1 row tall, each image gets its own page, and the final page equals the first | the comment "if it wasn't already added": the last page is never in the list, so it is always appended | not executed | Compose.ImagesToPagesAsWritten, Compose.LastPageDropped | Compose.ImagesToPages |
