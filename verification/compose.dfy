/** The page compositor: `output_result_image` (one tall image) and
    `_images_to_pages` (A4-proportioned pages). A canvas is modelled by its
    size and the images pasted on it, each with the row it was pasted at. */
module Compose {
  import opened Wrappers
  import opened Images

  datatype Placement = Placement(image: Image, y: nat)

  /** A PIL canvas: width, height and the pastes made on it, in order.
      A blank (white) page has no pastes. */
  datatype Canvas = Canvas(width: nat, height: nat, pasted: seq<Placement>)

  /** `sum([img.size[1] for img in images])` */
  function SumHeights(images: seq<Image>): nat {
    if images == [] then 0
    else SumHeights(images[..|images| - 1]) + images[|images| - 1].Height()
  }

  /** The images pasted on a canvas, in paste order. */
  function ImagesOf(p: seq<Placement>): (r: seq<Image>)
    ensures |r| == |p| && forall j :: 0 <= j < |p| ==> r[j] == p[j].image
  {
    seq(|p|, j requires 0 <= j < |p| => p[j].image)
  }

  /** Every image's rows, top to bottom, image after image. */
  function Stitch(images: seq<Image>): (rows: seq<seq<Pixel>>)
    ensures |rows| == SumHeights(images)
  {
    if images == [] then []
    else Stitch(images[..|images| - 1]) + images[|images| - 1].rows
  }

  /** Lines 229-239: one canvas as wide as the first image and as tall as all
      images together, image i pasted at the sum of the heights before it.
      `images[0]` raises on an empty directory. */
  function OutputResultImage(images: seq<Image>): (r: Result<Canvas, Exception>)
    ensures r.Err? <==> images == []
    ensures r.Err? ==> r.error == IndexError
    ensures r.Ok? ==> r.value.width == images[0].width && r.value.height == SumHeights(images)
    ensures r.Ok? ==> ImagesOf(r.value.pasted) == images
    ensures r.Ok? ==> Tiled(r.value.pasted) && Used(r.value.pasted) == r.value.height
    ensures r.Ok? ==> forall i :: 0 <= i < |images| ==>
      r.value.pasted[i] == Placement(images[i], Offset(images, i))
  {
    if images == [] then Err(IndexError)
    else
      StackedTiled(images);
      Ok(Canvas(images[0].width, SumHeights(images), StackedPastes(images)))
  }

  /** Lines 235-239: image i pasted at `sum([img.size[1] for img in images[:i]])`. */
  function StackedPastes(images: seq<Image>): (p: seq<Placement>)
    ensures |p| == |images|
    ensures forall i :: 0 <= i < |images| ==> p[i] == Placement(images[i], Offset(images, i))
    ensures ImagesOf(p) == images
  {
    seq(|images|, i requires 0 <= i < |images| => Placement(images[i], Offset(images, i)))
  }

  /** The row image i is pasted at: the total height of the images before it. */
  function Offset(images: seq<Image>, i: nat): nat
    requires i <= |images|
  {
    SumHeights(images[..i])
  }

  /** Pastes that follow one another with no gap and no overlap, from row 0. */
  predicate Tiled(p: seq<Placement>) {
    (|p| > 0 ==> p[0].y == 0) &&
    forall j :: 0 <= j < |p| - 1 ==> p[j + 1].y == p[j].y + p[j].image.Height()
  }

  /** The first row below the last paste. */
  function Used(p: seq<Placement>): nat {
    if p == [] then 0 else p[|p| - 1].y + p[|p| - 1].image.Height()
  }

  lemma {:induction false} SumHeightsPrefix(images: seq<Image>, i: nat)
    requires i < |images|
    ensures SumHeights(images[..i + 1]) == SumHeights(images[..i]) + images[i].Height()
  {
    assert images[..i + 1][..i] == images[..i];
  }

  lemma {:induction false} StitchPrefix(images: seq<Image>, i: nat)
    requires i < |images|
    ensures Stitch(images[..i + 1]) == Stitch(images[..i]) + images[i].rows
  {
    assert images[..i + 1][..i] == images[..i];
  }

  lemma {:induction false} StackedTiled(images: seq<Image>)
    requires images != []
    ensures Tiled(StackedPastes(images))
    ensures Used(StackedPastes(images)) == SumHeights(images)
  {
    var p := StackedPastes(images);
    forall j | 0 <= j < |p| - 1 ensures p[j + 1].y == p[j].y + p[j].image.Height() {
      SumHeightsPrefix(images, j);
    }
    SumHeightsPrefix(images, |images| - 1);
    assert images[..|images|] == images;
  }

  /** Row k of image i lands on canvas row Offset(images, i) + k of the single
      output image: the canvas shows the images' rows back to back. */
  lemma {:induction false} SingleImageRows(images: seq<Image>)
    ensures forall i :: 0 <= i < |images| ==>
      Offset(images, i) + images[i].Height() <= |Stitch(images)|
    ensures forall i, k :: 0 <= i < |images| && 0 <= k < |images[i].rows| ==>
      Offset(images, i) + k < |Stitch(images)| &&
      Stitch(images)[Offset(images, i) + k] == images[i].rows[k]
  {
    forall i | 0 <= i < |images| ensures Offset(images, i) + images[i].Height() <= |Stitch(images)| {
      StitchBound(images, i);
    }
    forall i, k | 0 <= i < |images| && 0 <= k < |images[i].rows|
      ensures Offset(images, i) + k < |Stitch(images)| &&
        Stitch(images)[Offset(images, i) + k] == images[i].rows[k]
    {
      StitchBound(images, i);
      StitchAt(images, i, k);
    }
  }

  lemma {:induction false} StitchBound(images: seq<Image>, i: nat)
    requires i < |images|
    ensures Offset(images, i) + images[i].Height() <= |Stitch(images)|
  {
    var pre := Stitch(images[..i + 1]);
    StitchPrefix(images, i);
    assert |pre| == Offset(images, i) + images[i].Height();
    StitchGrows(images, i + 1, |images|);
    assert images[..|images|] == images;
    assert pre <= Stitch(images);
  }

  lemma {:induction false} StitchAt(images: seq<Image>, i: nat, k: nat)
    requires i < |images| && k < images[i].Height()
    requires Offset(images, i) + k < |Stitch(images)|
    ensures Stitch(images)[Offset(images, i) + k] == images[i].rows[k]
  {
    var off := Offset(images, i);
    var head := Stitch(images[..i]);
    var pre := Stitch(images[..i + 1]);
    StitchPrefix(images, i);
    assert |head| == off;
    assert pre[off + k] == images[i].rows[k];
    StitchGrows(images, i + 1, |images|);
    assert images[..|images|] == images;
    assert pre <= Stitch(images);
  }

  /** Stitching more images only appends rows. */
  lemma {:induction false} StitchGrows(images: seq<Image>, i: nat, n: nat)
    requires i <= n <= |images|
    ensures Stitch(images[..i]) <= Stitch(images[..n])
    decreases n - i
  {
    if i < n {
      StitchGrows(images, i, n - 1);
      StitchPrefix(images, n - 1);
    }
  }

  // ------------------------------------------------------------- rendering

  /** `Image.new`'s default colour, used for the single output image. */
  const Black: Pixel := Pixel(0, 0, 0)

  /** `Image.new('RGB', (width, height), color)`: every pixel `color`. */
  function Blank(width: nat, height: nat, color: Pixel): seq<seq<Pixel>> {
    seq(height, _ => seq(width, _ => color))
  }

  /** One canvas row after pasting an image row at column 0: PIL overwrites as
      many pixels as both rows have, and clips the rest of the source. */
  function PasteRow(row: seq<Pixel>, src: seq<Pixel>): (r: seq<Pixel>)
    ensures |r| == |row|
    ensures |src| == |row| ==> r == src
  {
    if |src| >= |row| then src[..|row|] else src + row[|src|..]
  }

  /** The canvas rows after one paste at `(0, p.y)`; image rows that fall below
      the canvas are clipped. */
  function Paint(rows: seq<seq<Pixel>>, p: Placement): (r: seq<seq<Pixel>>)
    ensures |r| == |rows|
  {
    seq(|rows|, i requires 0 <= i < |rows| =>
      if p.y <= i < p.y + p.image.Height() then PasteRow(rows[i], p.image.rows[i - p.y]) else rows[i])
  }

  /** The canvas rows after the given pastes, in order. */
  function PaintAll(rows: seq<seq<Pixel>>, pasted: seq<Placement>): (r: seq<seq<Pixel>>)
    ensures |r| == |rows|
  {
    if pasted == [] then rows
    else Paint(PaintAll(rows, pasted[..|pasted| - 1]), pasted[|pasted| - 1])
  }

  /** The pixels of a canvas created with background `color`. */
  function Render(c: Canvas, color: Pixel): seq<seq<Pixel>> {
    PaintAll(Blank(c.width, c.height, color), c.pasted)
  }

  /** All images are rectangular and as wide as the first (line 248's premise). */
  predicate SameWidth(images: seq<Image>) {
    forall i :: 0 <= i < |images| ==> images[i].Rectangular() && images[i].width == images[0].width
  }

  /** The single output image's pixels are the images' rows back to back:
      every canvas row is covered, by exactly the row Stitch puts there. */
  lemma RenderedImage(images: seq<Image>)
    requires images != [] && SameWidth(images)
    ensures OutputResultImage(images).Ok?
    ensures Render(OutputResultImage(images).value, Black) == Stitch(images)
  {
    var n := |images|;
    RenderStacked(images, n, Black);
    assert StackedPastes(images)[..n] == StackedPastes(images);
    assert images[..n] == images;
  }

  /** After the first `i` stacked pastes, the rows above `Offset(images, i)`
      show the first `i` images and the rows below are still background. */
  lemma {:induction false} RenderStacked(images: seq<Image>, i: nat, color: Pixel)
    requires images != [] && SameWidth(images) && i <= |images|
    ensures |Painted(images, i, color)| == SumHeights(images)
    ensures Offset(images, i) <= SumHeights(images)
    ensures forall r :: 0 <= r < Offset(images, i) ==>
      Painted(images, i, color)[r] == Stitch(images[..i])[r]
    ensures forall r :: Offset(images, i) <= r < SumHeights(images) ==>
      Painted(images, i, color)[r] == seq(images[0].width, _ => color)
  {
    var w, h := images[0].width, SumHeights(images);
    var p := StackedPastes(images);
    if i == 0 {
      assert p[..0] == [];
    } else {
      var j := i - 1;
      RenderStacked(images, j, color);
      var before := Painted(images, j, color);
      var off := Offset(images, j);
      assert p[..i][..j] == p[..j];
      assert Painted(images, i, color) == Paint(before, p[j]);
      assert p[j] == Placement(images[j], off);
      SumHeightsPrefix(images, j);
      StitchPrefix(images, j);
      StitchBound(images, j);
      PaintStep(before, images[j], off, Stitch(images[..j]), w, color);
    }
  }

  /** The rows of a canvas after the first `i` stacked pastes. */
  function Painted(images: seq<Image>, i: nat, color: Pixel): seq<seq<Pixel>>
    requires images != [] && i <= |images|
  {
    PaintAll(Blank(images[0].width, SumHeights(images), color), StackedPastes(images)[..i])
  }

  /** Pasting a rectangular image of the canvas width at the first background
      row extends the painted rows by the image's rows. */
  lemma PaintStep(before: seq<seq<Pixel>>, img: Image, off: nat, done: seq<seq<Pixel>>, w: nat, color: Pixel)
    requires img.Rectangular() && img.width == w
    requires |done| == off && off + img.Height() <= |before|
    requires forall r :: 0 <= r < off ==> before[r] == done[r]
    requires forall r :: off <= r < |before| ==> before[r] == seq(w, _ => color)
    ensures forall r :: 0 <= r < off + img.Height() ==> Paint(before, Placement(img, off))[r] == (done + img.rows)[r]
    ensures forall r :: off + img.Height() <= r < |before| ==> Paint(before, Placement(img, off))[r] == seq(w, _ => color)
  {
    var after := Paint(before, Placement(img, off));
    forall r | off <= r < off + img.Height() ensures after[r] == (done + img.rows)[r] {
      assert |img.rows[r - off]| == w;
    }
  }

  // ------------------------------------------------------------ pagination

  /** Line 250: `int(842 / 595 * width)`, the A4 page height for `width`. */
  function PageHeight(width: nat): nat {
    (842 * width) / 595
  }

  /** The loop state of `_images_to_pages`: `page_images`, the pastes on
      `current_page`, and `current_page_height`. */
  datatype Packer = Packer(sealed: seq<Canvas>, current: seq<Placement>, offset: nat)

  /** Lines 255-263 for one image: seal the page if the image does not fit
      below `offset`, then paste it at `offset`. */
  function Step(st: Packer, img: Image, width: nat, pageHeight: nat): Packer {
    var st' :=
      if st.offset + img.Height() > pageHeight
      then Packer(st.sealed + [Canvas(width, pageHeight, st.current)], [], 0)
      else st;
    Packer(st'.sealed, st'.current + [Placement(img, st'.offset)], st'.offset + img.Height())
  }

  /** The loop state after the given images, starting from a blank page. */
  function Pack(images: seq<Image>, width: nat, pageHeight: nat): Packer {
    if images == [] then Packer([], [], 0)
    else Step(Pack(images[..|images| - 1], width, pageHeight), images[|images| - 1], width, pageHeight)
  }

  /** Lines 265-266 as written: the last page is added unless a page equal to it
      (PIL compares image contents) was already sealed. */
  function CloseAsWritten(st: Packer, width: nat, pageHeight: nat): seq<Canvas> {
    var last := Canvas(width, pageHeight, st.current);
    if last in st.sealed then st.sealed else st.sealed + [last]
  }

  /** The last page, which is never among the sealed ones, added unconditionally. */
  function Close(st: Packer, width: nat, pageHeight: nat): seq<Canvas> {
    st.sealed + [Canvas(width, pageHeight, st.current)]
  }

  /** All images pasted on the pages, page after page. */
  function Flatten(pages: seq<Canvas>): seq<Image> {
    if pages == [] then []
    else Flatten(pages[..|pages| - 1]) + ImagesOf(pages[|pages| - 1].pasted)
  }

  /** Every paste lies within the page, unless it was pasted at row 0. */
  predicate FitsPage(p: seq<Placement>, pageHeight: nat) {
    forall j :: 0 <= j < |p| ==> p[j].y == 0 || p[j].y + p[j].image.Height() <= pageHeight
  }

  predicate PageShape(c: Canvas, width: nat, pageHeight: nat) {
    c.width == width && c.height == pageHeight && Tiled(c.pasted) && FitsPage(c.pasted, pageHeight)
  }

  /** Page `a` was sealed because the first image of the next page `b` did not fit under it. */
  predicate SealedFull(a: Canvas, b: Canvas, pageHeight: nat) {
    |b.pasted| > 0 && Used(a.pasted) + b.pasted[0].image.Height() > pageHeight
  }

  /** What holds of the pages at every step: every page is `pageHeight` tall,
      its pastes tile it and each lies within it unless pasted at row 0; a page
      was sealed only because the first image of the next page did not fit
      under it (so every page after the first has something on it). */
  predicate PagesInv(pages: seq<Canvas>, width: nat, pageHeight: nat) {
    (forall i :: 0 <= i < |pages| ==> PageShape(pages[i], width, pageHeight)) &&
    (forall i :: 1 <= i < |pages| ==> SealedFull(pages[i - 1], pages[i], pageHeight)) &&
    FirstFits(pages, pageHeight)
  }

  /** The first paste on the first page lies within it. */
  predicate FirstFits(pages: seq<Canvas>, pageHeight: nat) {
    |pages| > 0 && |pages[0].pasted| > 0 ==> pages[0].pasted[0].image.Height() <= pageHeight
  }

  lemma {:induction false} FlattenAppend(pages: seq<Canvas>, c: Canvas)
    ensures Flatten(pages + [c]) == Flatten(pages) + ImagesOf(c.pasted)
  {
    assert (pages + [c])[..|pages|] == pages;
  }

  /** The state the loop keeps: the invariant on the pages so far (with the
      current page last), their images are those seen so far, and the offset
      is the first free row of the current page. */
  predicate PackerInv(st: Packer, images: seq<Image>, width: nat, pageHeight: nat) {
    PagesInv(Close(st, width, pageHeight), width, pageHeight) &&
    Flatten(Close(st, width, pageHeight)) == images &&
    st.offset == Used(st.current) &&
    (st.current == [] ==> st.sealed == [])
  }

  lemma StepSeals(st: Packer, images: seq<Image>, img: Image, width: nat, pageHeight: nat, st': Packer, seen: seq<Image>)
    requires PackerInv(st, images, width, pageHeight)
    requires st.offset + img.Height() > pageHeight
    requires st' == Step(st, img, width, pageHeight) && seen == images + [img]
    ensures PackerInv(st', seen, width, pageHeight)
  {
    var before := Close(st, width, pageHeight);
    var page := Canvas(width, pageHeight, [Placement(img, 0)]);
    assert st' == Packer(before, page.pasted, img.Height());
    assert Close(st', width, pageHeight) == before + [page];
    FlattenAppend(before, page);
    assert ImagesOf(page.pasted) == [img];
    assert before[|before| - 1].pasted == st.current;
    assert PageShape(page, width, pageHeight);
    AppendPage(before, page, width, pageHeight);
  }

  /** Sealing the last page and opening one that starts with an image that
      did not fit under it keeps the invariant. */
  lemma AppendPage(before: seq<Canvas>, page: Canvas, width: nat, pageHeight: nat)
    requires before != [] && PagesInv(before, width, pageHeight)
    requires PageShape(page, width, pageHeight)
    requires SealedFull(before[|before| - 1], page, pageHeight)
    ensures PagesInv(before + [page], width, pageHeight)
  {
    var after := before + [page];
    forall i | 0 <= i < |after| ensures PageShape(after[i], width, pageHeight) {
      if i < |before| { assert after[i] == before[i]; }
    }
    forall i | 1 <= i < |after| ensures SealedFull(after[i - 1], after[i], pageHeight) {
      assert after[i - 1] == before[i - 1];
      if i < |before| { assert after[i] == before[i]; }
    }
    assert after[0] == before[0];
  }

  lemma StepFits(st: Packer, images: seq<Image>, img: Image, width: nat, pageHeight: nat, st': Packer, seen: seq<Image>)
    requires PackerInv(st, images, width, pageHeight)
    requires st.offset + img.Height() <= pageHeight
    requires st' == Step(st, img, width, pageHeight) && seen == images + [img]
    ensures PackerInv(st', seen, width, pageHeight)
  {
    var before := Close(st, width, pageHeight);
    var cur := Canvas(width, pageHeight, st.current);
    var grown := Canvas(width, pageHeight, st.current + [Placement(img, st.offset)]);
    assert Step(st, img, width, pageHeight) == Packer(st.sealed, grown.pasted, st.offset + img.Height());
    assert Close(Step(st, img, width, pageHeight), width, pageHeight) == st.sealed + [grown];
    assert before == st.sealed + [cur];
    FlattenAppend(st.sealed, cur);
    FlattenAppend(st.sealed, grown);
    assert ImagesOf(grown.pasted) == ImagesOf(st.current) + [img];
    GrownShape(cur, grown, img, st.offset, width, pageHeight);
    ReplaceLast(st.sealed, cur, grown, width, pageHeight);
  }

  /** Pasting an image that fits at the first free row keeps a page's shape. */
  lemma GrownShape(cur: Canvas, grown: Canvas, img: Image, offset: nat, width: nat, pageHeight: nat)
    requires PageShape(cur, width, pageHeight) && offset == Used(cur.pasted)
    requires offset + img.Height() <= pageHeight
    requires grown == cur.(pasted := cur.pasted + [Placement(img, offset)])
    ensures PageShape(grown, width, pageHeight)
    ensures Used(grown.pasted) == offset + img.Height()
    ensures cur.pasted != [] ==> grown.pasted[0] == cur.pasted[0]
  {
    var p := grown.pasted;
    forall j | 0 <= j < |p| - 1 ensures p[j + 1].y == p[j].y + p[j].image.Height() {
      if j < |cur.pasted| - 1 { assert p[j] == cur.pasted[j] && p[j + 1] == cur.pasted[j + 1]; }
    }
    forall j | 0 <= j < |p| ensures p[j].y == 0 || p[j].y + p[j].image.Height() <= pageHeight {
      if j < |cur.pasted| { assert p[j] == cur.pasted[j]; }
    }
  }

  /** Growing the open (last) page, keeping its first paste, keeps the invariant. */
  lemma ReplaceLast(sealed: seq<Canvas>, cur: Canvas, grown: Canvas, width: nat, pageHeight: nat)
    requires PagesInv(sealed + [cur], width, pageHeight)
    requires PageShape(grown, width, pageHeight) && grown.pasted != []
    requires cur.pasted != [] ==> grown.pasted[0] == cur.pasted[0]
    requires cur.pasted == [] ==> sealed == [] && grown.pasted[0].image.Height() <= pageHeight
    ensures PagesInv(sealed + [grown], width, pageHeight)
  {
    var before, after := sealed + [cur], sealed + [grown];
    forall i | 0 <= i < |after| ensures PageShape(after[i], width, pageHeight) {
      if i < |sealed| { assert after[i] == before[i]; }
    }
    forall i | 1 <= i < |after| ensures SealedFull(after[i - 1], after[i], pageHeight) {
      assert after[i - 1] == before[i - 1];
      if i < |sealed| {
        assert after[i] == before[i];
      } else {
        assert before[i] == cur;
        assert SealedFull(before[i - 1], before[i], pageHeight);
      }
    }
    if sealed != [] { assert after[0] == before[0]; }
  }

  /** The invariant of the paging loop, by induction over the images. */
  lemma {:induction false} PackInvariant(images: seq<Image>, width: nat, pageHeight: nat)
    ensures PackerInv(Pack(images, width, pageHeight), images, width, pageHeight)
    ensures images != [] ==> Pack(images, width, pageHeight).current != []
  {
    if images == [] {
      PackEmpty(width, pageHeight);
    } else {
      var prefix, img := images[..|images| - 1], images[|images| - 1];
      var st := Pack(prefix, width, pageHeight);
      var st' := Pack(images, width, pageHeight);
      assert st' == Step(st, img, width, pageHeight);
      assert prefix + [img] == images;
      PackInvariant(prefix, width, pageHeight);
      if st.offset + img.Height() > pageHeight {
        StepSeals(st, prefix, img, width, pageHeight, st', images);
      } else {
        StepFits(st, prefix, img, width, pageHeight, st', images);
      }
    }
  }

  /** Before any image: one blank page. */
  lemma {:induction false} PackEmpty(width: nat, pageHeight: nat)
    ensures PackerInv(Pack([], width, pageHeight), [], width, pageHeight)
  {
    var blank := Canvas(width, pageHeight, []);
    assert Pack([], width, pageHeight) == Packer([], [], 0);
    BlankClose(width, pageHeight);
    BlankPage(width, pageHeight);
  }

  lemma BlankClose(width: nat, pageHeight: nat)
    ensures Close(Packer([], [], 0), width, pageHeight) == [Canvas(width, pageHeight, [])]
  {
    assert [] + [Canvas(width, pageHeight, [])] == [Canvas(width, pageHeight, [])];
  }

  /** A single blank page satisfies the invariant and holds no image. */
  lemma BlankPage(width: nat, pageHeight: nat)
    ensures PagesInv([Canvas(width, pageHeight, [])], width, pageHeight)
    ensures Flatten([Canvas(width, pageHeight, [])]) == []
  {
    var blank := Canvas(width, pageHeight, []);
    assert [blank][..0] == [];
    assert PageShape(blank, width, pageHeight);
  }

  lemma {:induction false} FlattenCons(pages: seq<Canvas>)
    requires pages != []
    ensures Flatten(pages) == ImagesOf(pages[0].pasted) + Flatten(pages[1..])
  {
    if |pages| > 1 {
      var init := pages[..|pages| - 1];
      FlattenCons(init);
      assert init[1..] == pages[1..][..|pages[1..]| - 1];
      assert init[0] == pages[0];
    } else {
      assert pages[1..] == [];
      assert pages[..0] == [];
    }
  }

  /** Pagination places every image exactly once and in order; pages are
      sealed only when the next image does not fit; every paste fits its page
      unless it starts the page; the first page is blank exactly when the first
      image is taller than the page, and no other page is ever blank. */
  lemma {:induction false} PagesCorrect(images: seq<Image>, width: nat, pageHeight: nat)
    requires images != []
    ensures Flatten(Close(Pack(images, width, pageHeight), width, pageHeight)) == images
    ensures PagesInv(Close(Pack(images, width, pageHeight), width, pageHeight), width, pageHeight)
    ensures Close(Pack(images, width, pageHeight), width, pageHeight)[0].pasted == [] <==>
      images[0].Height() > pageHeight
    ensures forall i :: 1 <= i < |Close(Pack(images, width, pageHeight), width, pageHeight)| ==>
      Close(Pack(images, width, pageHeight), width, pageHeight)[i].pasted != []
  {
    PackInvariant(images, width, pageHeight);
    var st := Pack(images, width, pageHeight);
    LeadingBlank(Close(st, width, pageHeight), images, width, pageHeight);
    OnlyLeadingBlank(Close(st, width, pageHeight), width, pageHeight);
  }

  /** Under the invariant, every page after the first has something on it. */
  lemma OnlyLeadingBlank(pages: seq<Canvas>, width: nat, pageHeight: nat)
    requires PagesInv(pages, width, pageHeight)
    ensures forall i :: 1 <= i < |pages| ==> pages[i].pasted != []
  {
    forall i | 1 <= i < |pages| ensures pages[i].pasted != [] {
      assert SealedFull(pages[i - 1], pages[i], pageHeight);
    }
  }

  /** Pages laid out under the invariant show a blank first page exactly when
      their first image is taller than a page. */
  lemma {:induction false} LeadingBlank(pages: seq<Canvas>, images: seq<Image>, width: nat, pageHeight: nat)
    requires images != [] && pages != []
    requires PagesInv(pages, width, pageHeight) && Flatten(pages) == images
    ensures pages[0].pasted == [] <==> images[0].Height() > pageHeight
  {
    FlattenCons(pages);
    if pages[0].pasted == [] {
      assert |pages| > 1;
      FlattenCons(pages[1..]);
      assert SealedFull(pages[0], pages[1], pageHeight);
      assert images[0] == pages[1].pasted[0].image;
    } else {
      assert FirstFits(pages, pageHeight);
      assert images[0] == pages[0].pasted[0].image;
    }
  }

  /** Lines 251-263: the paging loop over `images`, returning `page_images`,
      `current_page` and `current_page_height` when it ends. */
  method FillPages(images: seq<Image>, width: nat, pageHeight: nat)
    returns (pageImages: seq<Canvas>, currentPage: Canvas, currentPageHeight: nat)
    ensures Packer(pageImages, currentPage.pasted, currentPageHeight) == Pack(images, width, pageHeight)
    ensures currentPage.width == width && currentPage.height == pageHeight
  {
    pageImages := [];
    currentPage := Canvas(width, pageHeight, []);
    currentPageHeight := 0;
    for i := 0 to |images|
      invariant Packer(pageImages, currentPage.pasted, currentPageHeight) == Pack(images[..i], width, pageHeight)
      invariant currentPage.width == width && currentPage.height == pageHeight
    {
      var image := images[i];
      assert images[..i + 1][..i] == images[..i];
      if currentPageHeight + image.Height() > pageHeight {
        pageImages := pageImages + [currentPage];
        currentPage := Canvas(width, pageHeight, []);
        currentPageHeight := 0;
      }
      currentPage := currentPage.(pasted := currentPage.pasted + [Placement(image, currentPageHeight)]);
      currentPageHeight := currentPageHeight + image.Height();
    }
    assert images[..|images|] == images;
  }

  /** The last page of the paging loop equals a page sealed before it. */
  predicate LastRepeats(images: seq<Image>, width: nat, pageHeight: nat) {
    Canvas(width, pageHeight, Pack(images, width, pageHeight).current) in Pack(images, width, pageHeight).sealed
  }

  /** The pages as written keep the page invariant; they hold every image
      unless the last page repeats a sealed one, and then only a proper prefix
      of the images: those on the dropped page are lost. */
  lemma AsWrittenPages(images: seq<Image>, width: nat, pageHeight: nat)
    requires images != []
    ensures PagesInv(CloseAsWritten(Pack(images, width, pageHeight), width, pageHeight), width, pageHeight)
    ensures !LastRepeats(images, width, pageHeight) ==>
      Flatten(CloseAsWritten(Pack(images, width, pageHeight), width, pageHeight)) == images
    ensures LastRepeats(images, width, pageHeight) ==>
      Flatten(CloseAsWritten(Pack(images, width, pageHeight), width, pageHeight)) < images
  {
    var st := Pack(images, width, pageHeight);
    var last := Canvas(width, pageHeight, st.current);
    PagesCorrect(images, width, pageHeight);
    PackInvariant(images, width, pageHeight);
    if last in st.sealed {
      assert Close(st, width, pageHeight) == CloseAsWritten(st, width, pageHeight) + [last];
      FlattenAppend(st.sealed, last);
      assert |ImagesOf(last.pasted)| > 0;
      PagesInvPrefix(st.sealed, last, width, pageHeight);
    }
  }

  /** Dropping the last page keeps the page invariant. */
  lemma PagesInvPrefix(pages: seq<Canvas>, c: Canvas, width: nat, pageHeight: nat)
    requires PagesInv(pages + [c], width, pageHeight)
    ensures PagesInv(pages, width, pageHeight)
  {
    var all := pages + [c];
    forall i | 0 <= i < |pages| ensures PageShape(pages[i], width, pageHeight) {
      assert all[i] == pages[i];
    }
    forall i | 1 <= i < |pages| ensures SealedFull(pages[i - 1], pages[i], pageHeight) {
      assert all[i - 1] == pages[i - 1] && all[i] == pages[i];
    }
    if pages != [] { assert all[0] == pages[0]; }
  }

  /** `_images_to_pages` as written: the last page is added only if no equal
      page was sealed before it (line 265). */
  method ImagesToPagesAsWritten(images: seq<Image>) returns (r: Result<seq<Canvas>, Exception>)
    ensures r.Err? <==> images == []
    ensures r.Err? ==> r.error == IndexError
    ensures r.Ok? ==>
      r.value == CloseAsWritten(Pack(images, images[0].width, PageHeight(images[0].width)),
                                images[0].width, PageHeight(images[0].width))
    ensures r.Ok? ==> PagesInv(r.value, images[0].width, PageHeight(images[0].width))
    ensures r.Ok? && !LastRepeats(images, images[0].width, PageHeight(images[0].width)) ==>
      Flatten(r.value) == images
    ensures r.Ok? && LastRepeats(images, images[0].width, PageHeight(images[0].width)) ==>
      Flatten(r.value) < images
  {
    if |images| == 0 {
      return Err(IndexError);
    }
    var width := images[0].width;
    var pageHeight := PageHeight(width);
    var pageImages, currentPage, _ := FillPages(images, width, pageHeight);
    if currentPage !in pageImages {
      pageImages := pageImages + [currentPage];
    }
    r := Ok(pageImages);
    AsWrittenPages(images, width, pageHeight);
  }

  /** `_images_to_pages` with the last page always added, as its comment
      intends ("if it wasn't already added": it never is, by identity). */
  method ImagesToPages(images: seq<Image>) returns (r: Result<seq<Canvas>, Exception>)
    ensures r.Err? <==> images == []
    ensures r.Err? ==> r.error == IndexError
    ensures r.Ok? ==> Flatten(r.value) == images
    ensures r.Ok? ==> PagesInv(r.value, images[0].width, PageHeight(images[0].width))
    ensures r.Ok? ==> (r.value[0].pasted == [] <==> images[0].Height() > PageHeight(images[0].width))
    ensures r.Ok? ==>
      r.value == Close(Pack(images, images[0].width, PageHeight(images[0].width)),
                       images[0].width, PageHeight(images[0].width))
  {
    if |images| == 0 {
      return Err(IndexError);
    }
    var width := images[0].width;
    var pageHeight := PageHeight(width);
    var pageImages, currentPage, _ := FillPages(images, width, pageHeight);
    r := Ok(pageImages + [currentPage]);
    PagesCorrect(images, width, pageHeight);
  }

  /** Two different one-row images A, B, 1 pixel wide, so pages are 1 row tall
      (842 / 595 rounds down to 1): A, B, A puts each on its own page, the last
      page equals the first, and line 265 drops it. The second A is lost. */
  lemma LastPageDropped()
    ensures var a, b := Image(1, [[White]]), Image(1, [[Black]]);
      PageHeight(1) == 1 &&
      Flatten(CloseAsWritten(Pack([a, b, a], 1, 1), 1, 1)) == [a, b] &&
      Flatten(Close(Pack([a, b, a], 1, 1), 1, 1)) == [a, b, a]
  {
    var a, b := Image(1, [[White]]), Image(1, [[Black]]);
    var pa := Canvas(1, 1, [Placement(a, 0)]);
    var pb := Canvas(1, 1, [Placement(b, 0)]);
    PackOnePerPage(a, b);
    assert CloseAsWritten(Pack([a, b, a], 1, 1), 1, 1) == [pa, pb];
    assert Close(Pack([a, b, a], 1, 1), 1, 1) == [pa, pb] + [pa];
    FlattenOnePerPage(a, b);
  }

  /** With one-row pages, each one-row image fills a page of its own. */
  lemma PackOnePerPage(a: Image, b: Image)
    requires a.Height() == 1 && b.Height() == 1
    ensures Pack([a, b, a], 1, 1) ==
      Packer([Canvas(1, 1, [Placement(a, 0)]), Canvas(1, 1, [Placement(b, 0)])], [Placement(a, 0)], 1)
  {
    assert [a, b, a][..2] == [a, b] && [a, b][..1] == [a] && [a][..0] == [];
    assert Pack([a], 1, 1) == Packer([], [Placement(a, 0)], 1);
    assert Pack([a, b], 1, 1) == Packer([Canvas(1, 1, [Placement(a, 0)])], [Placement(b, 0)], 1);
  }

  lemma FlattenOnePerPage(a: Image, b: Image)
    ensures Flatten([Canvas(1, 1, [Placement(a, 0)]), Canvas(1, 1, [Placement(b, 0)])]) == [a, b]
    ensures Flatten([Canvas(1, 1, [Placement(a, 0)]), Canvas(1, 1, [Placement(b, 0)])] + [Canvas(1, 1, [Placement(a, 0)])]) == [a, b, a]
  {
    var pa := Canvas(1, 1, [Placement(a, 0)]);
    var pb := Canvas(1, 1, [Placement(b, 0)]);
    assert ImagesOf(pa.pasted) == [a] && ImagesOf(pb.pasted) == [b];
    FlattenAppend([], pa);
    assert [] + [pa] == [pa];
    FlattenAppend([pa], pb);
    assert [pa] + [pb] == [pa, pb];
    FlattenAppend([pa, pb], pa);
  }
}
