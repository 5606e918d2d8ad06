/** Export of the image list to a PDF (`generatePDF` in src/App.tsx): each image
    is scaled to fit the page with its aspect ratio kept, centred, and drawn on a
    page of its own, in list order. Sizes and positions are exact reals. */
module PdfExport {
  import opened Wrappers
  import opened ImageList

  /** The pixel size of a decoded image (`img.width`, `img.height`). */
  datatype PixelSize = PixelSize(width: nat, height: nat)

  /** Where an image is drawn on a page: top-left corner and drawn size. */
  datatype Placement = Placement(x: real, y: real, width: real, height: real)

  /** One `addImage` call: the image source, its declared format and placement. */
  datatype Drawing = Drawing(source: string, format: string, at: Placement)

  /** The drawings on one page, in the order they were added. */
  type Page = seq<Drawing>

  /** The document handed to the browser as a download. */
  datatype SavedPdf = SavedPdf(fileName: string, pages: seq<Page>)

  const FileName: string := "converted.pdf"
  const ImageFormat: string := "JPEG"

  /** `Math.min` on two reals. */
  function Min(a: real, b: real): real
  {
    if a <= b then a else b
  }

  /** The scale factor `min(pageWidth / w, pageHeight / h)`: the largest factor
      that fits the image on the page in both directions. */
  function Ratio(w: real, h: real, pageWidth: real, pageHeight: real): (r: real)
    requires w > 0.0 && h > 0.0 && pageWidth > 0.0 && pageHeight > 0.0
    ensures r > 0.0
    ensures w * r <= pageWidth && h * r <= pageHeight
    ensures w * r == pageWidth || h * r == pageHeight
  {
    var rw, rh := pageWidth / w, pageHeight / h;
    assert w * rw == pageWidth && h * rh == pageHeight;
    var r := Min(rw, rh);
    assert r <= rw && r <= rh && (r == rw || r == rh);
    assert w * r <= w * rw && h * r <= h * rh;
    r
  }

  /** Any factor that fits the image on the page is at most `Ratio`. */
  lemma RatioIsLargest(w: real, h: real, pageWidth: real, pageHeight: real, s: real)
    requires w > 0.0 && h > 0.0 && pageWidth > 0.0 && pageHeight > 0.0
    requires s > 0.0 && w * s <= pageWidth && h * s <= pageHeight
    ensures s <= Ratio(w, h, pageWidth, pageHeight)
  {
    var r := Ratio(w, h, pageWidth, pageHeight);
    if w * r == pageWidth {
      assert w * s <= w * r;
    } else {
      assert h * s <= h * r;
    }
  }

  /** The placement computed for one image: scaled by `Ratio` and centred with
      `x = (pageWidth - width) / 2`, `y = (pageHeight - height) / 2`. */
  function FitToPage(w: real, h: real, pageWidth: real, pageHeight: real): (p: Placement)
    requires w > 0.0 && h > 0.0 && pageWidth > 0.0 && pageHeight > 0.0
    ensures 0.0 < p.width <= pageWidth && 0.0 < p.height <= pageHeight
    ensures p.width == pageWidth || p.height == pageHeight
    ensures p.width * h == p.height * w
    ensures p.x >= 0.0 && p.y >= 0.0
    ensures 2.0 * p.x + p.width == pageWidth && 2.0 * p.y + p.height == pageHeight
  {
    var ratio := Ratio(w, h, pageWidth, pageHeight);
    var imgWidth := w * ratio;
    var imgHeight := h * ratio;
    assert imgWidth * h == imgHeight * w;
    Placement((pageWidth - imgWidth) / 2.0, (pageHeight - imgHeight) / 2.0, imgWidth, imgHeight)
  }

  /** The placement is determined by the aspect ratio alone: the only box that
      fits the page, touches one page bound and has the image's proportions. */
  lemma FitToPageUnique(w: real, h: real, pageWidth: real, pageHeight: real, width: real, height: real)
    requires w > 0.0 && h > 0.0 && pageWidth > 0.0 && pageHeight > 0.0
    requires 0.0 < width <= pageWidth && 0.0 < height <= pageHeight
    requires width == pageWidth || height == pageHeight
    requires width * h == height * w
    ensures FitToPage(w, h, pageWidth, pageHeight).width == width
    ensures FitToPage(w, h, pageWidth, pageHeight).height == height
  {
    var p := FitToPage(w, h, pageWidth, pageHeight);
    var s := width / w;
    assert width == w * s;
    assert height * w == (h * s) * w;
    assert height == h * s;
    RatioIsLargest(w, h, pageWidth, pageHeight, s);
    var r := Ratio(w, h, pageWidth, pageHeight);
    assert p.width == w * r && p.height == h * r;
    if width == pageWidth {
      assert w * r <= w * s;
    } else {
      assert h * r <= h * s;
    }
  }

  /** The example of two images on the nominal ISO A4 page, 210 x 297 mm (jsPDF's
      own A4 size, defined in points, is a fraction of a millimetre larger): a tall image
      (100 x 200) fills the page height, a wide one (300 x 100) the page width,
      and both are centred. */
  lemma TwoImageExample()
    ensures FitToPage(100.0, 200.0, 210.0, 297.0) == Placement(30.75, 0.0, 148.5, 297.0)
    ensures FitToPage(300.0, 100.0, 210.0, 297.0) == Placement(0.0, 113.5, 210.0, 70.0)
  {
  }

  /** The page the export produces for one image of the list. */
  function PageFor(image: ImageData, size: PixelSize, pageWidth: real, pageHeight: real): (page: Page)
    requires size.width > 0 && size.height > 0 && pageWidth > 0.0 && pageHeight > 0.0
  {
    [Drawing(image.url, ImageFormat, FitToPage(size.width as real, size.height as real, pageWidth, pageHeight))]
  }

  /** The jsPDF document being written: a page size fixed when it is created and
      the pages drawn so far. A new document holds one empty page; drawing goes
      to the last page. */
  class PdfDocument {
    const pageWidth: real
    const pageHeight: real
    var pages: seq<Page>

    ghost predicate Valid()
      reads this
    {
      pageWidth > 0.0 && pageHeight > 0.0 && |pages| > 0
    }

    /** `new jsPDF()` with the default page format. */
    constructor (pageWidth: real, pageHeight: real)
      requires pageWidth > 0.0 && pageHeight > 0.0
      ensures Valid()
      ensures this.pageWidth == pageWidth && this.pageHeight == pageHeight
      ensures pages == [[]]
    {
      this.pageWidth := pageWidth;
      this.pageHeight := pageHeight;
      pages := [[]];
    }

    /** `pdf.addPage()`: a new empty page of the same size becomes current. */
    method AddPage()
      requires Valid()
      modifies this
      ensures Valid()
      ensures pages == old(pages) + [[]]
    {
      pages := pages + [[]];
    }

    /** `pdf.addImage(...)`: the drawing goes at the end of the current page;
        earlier pages are untouched. */
    method AddImage(source: string, format: string, at: Placement)
      requires Valid()
      modifies this
      ensures Valid()
      ensures |pages| == |old(pages)|
      ensures pages[..|pages| - 1] == old(pages)[..|pages| - 1]
      ensures pages[|pages| - 1] == old(pages)[|pages| - 1] + [Drawing(source, format, at)]
    {
      var last := |pages| - 1;
      pages := pages[..last] + [pages[last] + [Drawing(source, format, at)]];
    }
  }

  /** `generatePDF`. `sizes[i]` is the pixel size image `i` decodes to, and the
      page size is that of the document's default format. An empty list yields
      no document. Otherwise page `i` holds exactly image `i`, fitted and
      centred; the first image goes on the document's initial page and every
      later one on a page added just before it. */
  method GeneratePdf(images: seq<ImageData>, sizes: seq<PixelSize>, pageWidth: real, pageHeight: real)
    returns (saved: Option<SavedPdf>)
    requires |sizes| == |images|
    requires forall k :: 0 <= k < |sizes| ==> sizes[k].width > 0 && sizes[k].height > 0
    requires pageWidth > 0.0 && pageHeight > 0.0
    ensures saved.None? <==> |images| == 0
    ensures saved.Some? ==>
      && saved.value.fileName == FileName
      && |saved.value.pages| == |images|
      && forall k :: 0 <= k < |images| ==>
           saved.value.pages[k] == PageFor(images[k], sizes[k], pageWidth, pageHeight)
  {
    if |images| == 0 {
      return None;
    }
    var pdf := new PdfDocument(pageWidth, pageHeight);
    for i := 0 to |images|
      invariant pdf.Valid() && pdf.pageWidth == pageWidth && pdf.pageHeight == pageHeight
      invariant i == 0 ==> pdf.pages == [[]]
      invariant i > 0 ==> |pdf.pages| == i
      invariant forall k :: 0 <= k < i ==> pdf.pages[k] == PageFor(images[k], sizes[k], pageWidth, pageHeight)
    {
      var imgData := images[i];
      var size := sizes[i];
      var placement := FitToPage(size.width as real, size.height as real, pdf.pageWidth, pdf.pageHeight);
      if i > 0 {
        pdf.AddPage();
      }
      pdf.AddImage(imgData.url, ImageFormat, placement);
    }
    saved := Some(SavedPdf(FileName, pdf.pages));
  }
}
