/**
 * fill_pdf_form_with_annotations.py: every page of the input PDF is copied to
 * the output; a page that has fields in `fields.json` first gets an overlay
 * with one text run per field that has both an entry box and entry text. Box
 * coordinates are image pixels (y down); the overlay uses PDF points (y up).
 */
module Annotations {
  import opened Wrappers
  import opened Faults
  import opened Layout
  import opened Outcomes

  /** A page of the input PDF, as far as this script looks at it: its media box size. */
  datatype PdfPage = PdfPage(width: real, height: real)

  /** One `drawString` on the overlay canvas, with the font size and fill colour then in force. */
  datatype TextRun = TextRun(x: real, y: real, text: string, fontSize: real, color: string)

  /** A page added to the writer: the input page, merged with an overlay when the page had fields. */
  datatype OutputPage = OutputPage(source: PdfPage, overlay: Option<seq<TextRun>>)

  /** The written document and the number of annotations the script reports. */
  datatype Filled = Filled(pages: seq<OutputPage>, reported: nat)

  /** The entry of `pages` kept for a page number: with duplicates, the last one. */
  ghost predicate LastFor(sizes: seq<PageSize>, n: int, k: int) {
    0 <= k < |sizes| && sizes[k].pageNumber == Some(n) &&
    forall j :: k < j < |sizes| ==> sizes[j].pageNumber != Some(n)
  }

  /** Only one entry is the last to name a page number, so the dictionary has one value per key. */
  lemma LastForUnique(sizes: seq<PageSize>, n: int, k: int, j: int)
    requires LastFor(sizes, n, k) && LastFor(sizes, n, j)
    ensures k == j
  {
  }

  /**
   * `{p['page_number']: p for p in pages}`: an entry without a page number
   * raises; otherwise each page number maps to the last entry that names it.
   */
  function PagesInfo(sizes: seq<PageSize>): (r: Result<map<int, PageSize>, Fault>)
    ensures r.Success? <==> forall k :: 0 <= k < |sizes| ==> sizes[k].pageNumber.Some?
    ensures r.Failure? ==> r.error == MissingKey
    ensures r.Success? ==> forall n :: n in r.value <==> exists k :: 0 <= k < |sizes| && sizes[k].pageNumber == Some(n)
    ensures r.Success? ==> forall n, k :: LastFor(sizes, n, k) ==> n in r.value && r.value[n] == sizes[k]
  {
    if sizes == [] then Success(map[])
    else
      var m := |sizes| - 1;
      match PagesInfo(sizes[..m])
      case Failure(e) => Failure(e)
      case Success(before) =>
        match sizes[m].pageNumber
        case None => Failure(MissingKey)
        case Some(n) =>
          PagesInfoStep(sizes, before);
          Success(before[n := sizes[m]])
  }

  /** The step of PagesInfo: the keys of the prefix plus the new one, the new entry shadowing. */
  lemma PagesInfoStep(sizes: seq<PageSize>, before: map<int, PageSize>)
    requires |sizes| > 0 && sizes[|sizes| - 1].pageNumber.Some?
    requires var prefix := sizes[..|sizes| - 1];
      (forall n :: n in before <==> exists k :: 0 <= k < |prefix| && prefix[k].pageNumber == Some(n)) &&
      (forall n, k :: LastFor(prefix, n, k) ==> n in before && before[n] == prefix[k])
    ensures var m := |sizes| - 1; var r := before[sizes[m].pageNumber.value := sizes[m]];
      (forall n :: n in r <==> exists k :: 0 <= k < |sizes| && sizes[k].pageNumber == Some(n)) &&
      (forall n, k :: LastFor(sizes, n, k) ==> n in r && r[n] == sizes[k])
  {
    var m := |sizes| - 1;
    var prefix := sizes[..m];
    var r := before[sizes[m].pageNumber.value := sizes[m]];
    forall n | n in r ensures exists k :: 0 <= k < |sizes| && sizes[k].pageNumber == Some(n) {
      if n != sizes[m].pageNumber.value {
        var k :| 0 <= k < m && prefix[k].pageNumber == Some(n);
        assert sizes[k] == prefix[k];
      }
    }
    forall n | exists k :: 0 <= k < |sizes| && sizes[k].pageNumber == Some(n) ensures n in r {
      var k :| 0 <= k < |sizes| && sizes[k].pageNumber == Some(n);
      if k < m {
        assert prefix[k] == sizes[k];
      }
    }
    forall n, k | LastFor(sizes, n, k) ensures n in r && r[n] == sizes[k] {
      if k < m {
        assert LastFor(prefix, n, k);
      }
    }
  }

  /** `pages_info.get(page_num, {}).get('image_width', page_width)`, and likewise the height. */
  function ImageSize(info: map<int, PageSize>, pageNum: int, page: PdfPage): (r: (real, real))
    ensures pageNum in info && info[pageNum].imageWidth.Some? ==> r.0 == info[pageNum].imageWidth.value
    ensures pageNum in info && info[pageNum].imageHeight.Some? ==> r.1 == info[pageNum].imageHeight.value
    ensures pageNum !in info || info[pageNum].imageWidth.None? ==> r.0 == page.width
    ensures pageNum !in info || info[pageNum].imageHeight.None? ==> r.1 == page.height
  {
    if pageNum in info then
      (info[pageNum].imageWidth.GetOr(page.width), info[pageNum].imageHeight.GetOr(page.height))
    else (page.width, page.height)
  }

  /** `page_width / img_width`, `page_height / img_height`: a zero image dimension raises. */
  function Scales(page: PdfPage, imgWidth: real, imgHeight: real): (r: Result<(real, real), Fault>)
    ensures r.Success? <==> imgWidth != 0.0 && imgHeight != 0.0
    ensures r.Failure? ==> r.error == DivisionByZero
    ensures r.Success? ==> r.value.0 * imgWidth == page.width && r.value.1 * imgHeight == page.height
  {
    if imgWidth == 0.0 || imgHeight == 0.0 then Failure(DivisionByZero)
    else Success((page.width / imgWidth, page.height / imgHeight))
  }

  /** With no size given for the page, the image is taken to be the page itself: scale 1. */
  lemma DefaultScaleIsOne(info: map<int, PageSize>, pageNum: int, page: PdfPage)
    requires pageNum !in info || (info[pageNum].imageWidth.None? && info[pageNum].imageHeight.None?)
    requires page.width != 0.0 && page.height != 0.0
    ensures var size := ImageSize(info, pageNum, page); Scales(page, size.0, size.1) == Success((1.0, 1.0))
  {
    assert page.width / page.width == 1.0;
    assert page.height / page.height == 1.0;
  }

  /** An image dimension given as zero is a division error: there is no fallback. */
  lemma ZeroImageDimensionFails(info: map<int, PageSize>, pageNum: int, page: PdfPage)
    requires pageNum in info
    requires info[pageNum].imageWidth == Some(0.0) || info[pageNum].imageHeight == Some(0.0)
    ensures var size := ImageSize(info, pageNum, page); Scales(page, size.0, size.1) == Failure(DivisionByZero)
  {
  }

  /**
   * The anchor of the text: the left edge scaled, and the bottom edge scaled
   * and flipped, since PDF y grows upward from the bottom of the page.
   */
  function Anchor(box: seq<real>, scaleX: real, scaleY: real, pageHeight: real): (p: (real, real))
    requires |box| >= 4
  {
    (box[0] * scaleX, pageHeight - box[3] * scaleY)
  }

  /** The inverse conversion: a point of the PDF page back to image pixels. */
  function ToImage(p: (real, real), scaleX: real, scaleY: real, pageHeight: real): (real, real)
    requires scaleX != 0.0 && scaleY != 0.0
  {
    (p.0 / scaleX, (pageHeight - p.1) / scaleY)
  }

  /** The anchor is the image's left-bottom corner of the entry box, carried over to the page. */
  lemma AnchorRoundTrip(box: seq<real>, scaleX: real, scaleY: real, pageHeight: real)
    requires |box| >= 4 && scaleX != 0.0 && scaleY != 0.0
    ensures ToImage(Anchor(box, scaleX, scaleY, pageHeight), scaleX, scaleY, pageHeight) == (box[0], box[3])
  {
    assert (box[0] * scaleX) / scaleX == box[0];
    assert (pageHeight - (pageHeight - box[3] * scaleY)) / scaleY == (box[3] * scaleY) / scaleY == box[3];
  }

  /** A 612x792 page drawn as a 1224x1584 image: the box [100, 125, 280, 142] anchors at (50, 721). */
  lemma AnchorExample()
    ensures Scales(PdfPage(612.0, 792.0), 1224.0, 1584.0) == Success((0.5, 0.5))
    ensures Anchor([100.0, 125.0, 280.0, 142.0], 0.5, 0.5, 792.0) == (50.0, 721.0)
  {
  }

  /** The fill colour: `#` and the given hex digits when the colour parser accepts them, else black. */
  function FillColor(fontColor: string, colorOk: string -> bool): (c: string)
    ensures colorOk("#" + fontColor) ==> c == "#" + fontColor
    ensures !colorOk("#" + fontColor) ==> c == "#000000"
  {
    if colorOk("#" + fontColor) then "#" + fontColor else "#000000"
  }

  /** The text size when `entry_text` has no `font_size`. */
  const DefaultFontSize: real := 12.0

  /**
   * What one field adds to its page's overlay: nothing unless both the entry
   * box and the entry text are present and non-empty; then one run, or an
   * IndexError when the box has fewer than four numbers.
   */
  function FieldRuns(f: Field, scaleX: real, scaleY: real, pageHeight: real, colorOk: string -> bool): (r: Result<seq<TextRun>, Fault>)
    ensures !(Present(f.entryBox) && HasEntryText(f)) ==> r == Success([])
    ensures Present(f.entryBox) && HasEntryText(f) ==> (r.Success? <==> |f.entryBox.value| >= 4)
    ensures r.Failure? ==> r.error == IndexOutOfRange
    ensures r.Success? ==> |r.value| <= 1
    ensures r.Success? && r.value != [] ==>
      var box := f.entryBox.value; var t := f.entryText.value;
      && r.value[0].x == box[0] * scaleX && r.value[0].y == pageHeight - box[3] * scaleY
      && r.value[0].text == t.text.GetOr("")
      && r.value[0].fontSize == t.fontSize.GetOr(DefaultFontSize)
      && (colorOk("#" + t.fontColor.GetOr("000000")) ==> r.value[0].color == "#" + t.fontColor.GetOr("000000"))
      && (!colorOk("#" + t.fontColor.GetOr("000000")) ==> r.value[0].color == "#000000")
  {
    if !(Present(f.entryBox) && HasEntryText(f)) then Success([])
    else if |f.entryBox.value| < 4 then Failure(IndexOutOfRange)
    else
      var t := f.entryText.value;
      var p := Anchor(f.entryBox.value, scaleX, scaleY, pageHeight);
      Success([TextRun(p.0, p.1, t.text.GetOr(""), t.fontSize.GetOr(DefaultFontSize),
        FillColor(t.fontColor.GetOr("000000"), colorOk))])
  }

  /** With an empty `entry_text` apart from the text, the run is 12-point black. */
  lemma DefaultsApplied(f: Field, scaleX: real, scaleY: real, pageHeight: real, colorOk: string -> bool)
    requires Present(f.entryBox) && |f.entryBox.value| >= 4 && HasEntryText(f)
    requires f.entryText.value.fontSize.None? && f.entryText.value.fontColor.None?
    ensures FieldRuns(f, scaleX, scaleY, pageHeight, colorOk) ==
      Success([TextRun(f.entryBox.value[0] * scaleX, pageHeight - f.entryBox.value[3] * scaleY,
        f.entryText.value.text.GetOr(""), 12.0, "#000000")])
  {
    assert "#" + "000000" == "#000000";
  }

  /** A colour the parser rejects does not abort: the run is drawn in black. */
  lemma BadColorFallsBackToBlack(f: Field, scaleX: real, scaleY: real, pageHeight: real, colorOk: string -> bool)
    requires Present(f.entryBox) && |f.entryBox.value| >= 4 && HasEntryText(f)
    requires f.entryText.value.fontColor.Some? && !colorOk("#" + f.entryText.value.fontColor.value)
    ensures FieldRuns(f, scaleX, scaleY, pageHeight, colorOk).Success?
    ensures FieldRuns(f, scaleX, scaleY, pageHeight, colorOk).value[0].color == "#000000"
  {
  }

  /** What each field of one page adds, in field order. */
  function RunSteps(fields: seq<Field>, scaleX: real, scaleY: real, pageHeight: real, colorOk: string -> bool): (r: seq<Result<seq<TextRun>, Fault>>)
    ensures |r| == |fields|
    ensures forall i :: 0 <= i < |fields| ==> r[i] == FieldRuns(fields[i], scaleX, scaleY, pageHeight, colorOk)
  {
    seq(|fields|, i requires 0 <= i < |fields| => FieldRuns(fields[i], scaleX, scaleY, pageHeight, colorOk))
  }

  /** The runs of the fields of one page, in field order; the only fault is an IndexError. */
  function PageRuns(fields: seq<Field>, scaleX: real, scaleY: real, pageHeight: real, colorOk: string -> bool): (r: Result<seq<TextRun>, Fault>)
    ensures r.Success? <==> forall i :: 0 <= i < |fields| ==> FieldRuns(fields[i], scaleX, scaleY, pageHeight, colorOk).Success?
    ensures r.Failure? ==> r.error == IndexOutOfRange
  {
    var steps := RunSteps(fields, scaleX, scaleY, pageHeight, colorOk);
    ConcatFault(steps, e => e == IndexOutOfRange);
    Concat(steps)
  }

  /**
   * One iteration of the page loop for the page at 0-based position `k`:
   * the scales are computed for every page, and an overlay is made exactly
   * when some field names this page.
   */
  function PageOutput(k: nat, page: PdfPage, info: map<int, PageSize>, fields: seq<Field>, colorOk: string -> bool): (r: Result<OutputPage, Fault>)
    ensures r.Success? ==> r.value.source == page
    ensures r.Success? ==> (r.value.overlay.Some? <==> OnPage(fields, k + 1) != [])
    ensures r.Failure? ==> r.error == DivisionByZero || r.error == IndexOutOfRange
  {
    var size := ImageSize(info, k + 1, page);
    match Scales(page, size.0, size.1)
    case Failure(e) => Failure(e)
    case Success(scale) =>
      var pageFields := OnPage(fields, k + 1);
      if pageFields == [] then Success(OutputPage(page, None))
      else
        match PageRuns(pageFields, scale.0, scale.1, page.height, colorOk)
        case Failure(e) => Failure(e)
        case Success(runs) => Success(OutputPage(page, Some(runs)))
  }

  /** One page's contribution to the writer: exactly its output page, or the fault that stops the loop. */
  function PageStep(k: nat, page: PdfPage, info: map<int, PageSize>, fields: seq<Field>, colorOk: string -> bool): (r: Result<seq<OutputPage>, Fault>)
    ensures r.Success? <==> PageOutput(k, page, info, fields, colorOk).Success?
    ensures r.Success? ==> |r.value| == 1 && r.value[0] == PageOutput(k, page, info, fields, colorOk).value
    ensures r.Failure? ==> r.error == DivisionByZero || r.error == IndexOutOfRange
  {
    match PageOutput(k, page, info, fields, colorOk)
    case Failure(e) => Failure(e)
    case Success(p) => Success([p])
  }

  /** A page's step reads the field list only through the fields on that page. */
  lemma PageStepReadsOwnFields(k: nat, page: PdfPage, info: map<int, PageSize>, f1: seq<Field>, f2: seq<Field>, colorOk: string -> bool)
    requires OnPage(f1, k + 1) == OnPage(f2, k + 1)
    ensures PageStep(k, page, info, f1, colorOk) == PageStep(k, page, info, f2, colorOk)
  {
  }

  function PageSteps(pages: seq<PdfPage>, info: map<int, PageSize>, fields: seq<Field>, colorOk: string -> bool): (r: seq<Result<seq<OutputPage>, Fault>>)
    ensures |r| == |pages|
    ensures forall k :: 0 <= k < |pages| ==> r[k] == PageStep(k, pages[k], info, fields, colorOk)
  {
    seq(|pages|, k requires 0 <= k < |pages| => PageStep(k, pages[k], info, fields, colorOk))
  }

  /** `fill_form_with_annotations` as a value: the pages are processed in order, the first fault aborting. */
  function FillForm(doc: FieldsDocument, pages: seq<PdfPage>, colorOk: string -> bool): (r: Result<Filled, Fault>)
    ensures r.Failure? ==> r.error == MissingKey || r.error == DivisionByZero || r.error == IndexOutOfRange
  {
    match PagesInfo(doc.pages.GetOr([]))
    case Failure(e) => Failure(e)
    case Success(info) =>
      var steps := PageSteps(pages, info, FormFields(doc), colorOk);
      ConcatFault(steps, e => e == DivisionByZero || e == IndexOutOfRange);
      match Concat(steps)
      case Failure(e) => Failure(e)
      case Success(out) => Success(Filled(out, |FormFields(doc)|))
  }

  /**
   * Every input page is written exactly once, in input order, whether or not
   * it has fields; the reported count is the number of `form_fields`, not
   * the number of runs drawn.
   */
  lemma {:induction false} EveryPageOnce(doc: FieldsDocument, pages: seq<PdfPage>, colorOk: string -> bool)
    requires FillForm(doc, pages, colorOk).Success?
    ensures |FillForm(doc, pages, colorOk).value.pages| == |pages|
    ensures forall k :: 0 <= k < |pages| ==> FillForm(doc, pages, colorOk).value.pages[k].source == pages[k]
    ensures forall k :: 0 <= k < |pages| ==>
      (FillForm(doc, pages, colorOk).value.pages[k].overlay.Some? <==> OnPage(FormFields(doc), k + 1) != [])
    ensures FillForm(doc, pages, colorOk).value.reported == |FormFields(doc)|
  {
    var info := PagesInfo(doc.pages.GetOr([])).value;
    var steps := PageSteps(pages, info, FormFields(doc), colorOk);
    forall k | 0 <= k < |steps| ensures steps[k].Success? && |steps[k].value| == 1 {
      var p := PageOutput(k, pages[k], info, FormFields(doc), colorOk);
    }
    ConcatSingletons(steps);
  }

  /** The run succeeds exactly when the page sizes parse and every page's step does. */
  lemma FillFormSucceeds(doc: FieldsDocument, pages: seq<PdfPage>, colorOk: string -> bool)
    requires PagesInfo(doc.pages.GetOr([])).Success?
    ensures var info := PagesInfo(doc.pages.GetOr([])).value;
      FillForm(doc, pages, colorOk).Success? <==>
      forall k :: 0 <= k < |pages| ==> PageOutput(k, pages[k], info, FormFields(doc), colorOk).Success?
  {
  }

  /** A field naming no page of the PDF changes nothing that is written. */
  lemma FieldOnMissingPageIgnored(pages: seq<PdfPage>, info: map<int, PageSize>, a: seq<Field>, f: Field, b: seq<Field>, colorOk: string -> bool)
    requires !(1 <= PageOf(f) <= |pages|)
    ensures PageSteps(pages, info, a + [f] + b, colorOk) == PageSteps(pages, info, a + b, colorOk)
  {
    var with, without := PageSteps(pages, info, a + [f] + b, colorOk), PageSteps(pages, info, a + b, colorOk);
    forall k | 0 <= k < |pages|
      ensures with[k] == without[k]
    {
      PageStepIgnoresField(k, pages[k], info, a, f, b, colorOk);
    }
    assert with == without;
  }

  /** A field naming another page leaves a page's step unchanged. */
  lemma PageStepIgnoresField(k: nat, page: PdfPage, info: map<int, PageSize>, a: seq<Field>, f: Field, b: seq<Field>, colorOk: string -> bool)
    requires PageOf(f) != k + 1
    ensures PageStep(k, page, info, a + [f] + b, colorOk) == PageStep(k, page, info, a + b, colorOk)
  {
    OnPageIgnoresOtherPages(a, f, b, k + 1);
    PageStepReadsOwnFields(k, page, info, a + [f] + b, a + b, colorOk);
  }

  /** The field loop of one page: each field with a box and text is drawn on the overlay canvas. */
  method DrawFields(pageFields: seq<Field>, scaleX: real, scaleY: real, pageHeight: real, colorOk: string -> bool) returns (r: Result<seq<TextRun>, Fault>)
    ensures r == PageRuns(pageFields, scaleX, scaleY, pageHeight, colorOk)
  {
    ghost var steps := RunSteps(pageFields, scaleX, scaleY, pageHeight, colorOk);
    var runs: seq<TextRun> := [];
    var i := 0;
    while i < |pageFields|
      invariant 0 <= i <= |pageFields|
      invariant Concat(steps[..i]) == Success(runs)
    {
      var field := pageFields[i];
      ConcatStep(steps, i);
      if Present(field.entryBox) && HasEntryText(field) {
        var box := field.entryBox.value;
        if |box| < 4 {
          return Failure(IndexOutOfRange);
        }
        var t := field.entryText.value;
        var anchor := Anchor(box, scaleX, scaleY, pageHeight);
        var fontColor := t.fontColor.GetOr("000000");
        var color := if colorOk("#" + fontColor) then "#" + fontColor else "#000000";
        var run := TextRun(anchor.0, anchor.1, t.text.GetOr(""), t.fontSize.GetOr(DefaultFontSize), color);
        assert color == FillColor(fontColor, colorOk);
        assert steps[i] == FieldRuns(field, scaleX, scaleY, pageHeight, colorOk) == Success([run]);
        runs := runs + [run];
      } else {
        assert runs + [] == runs;
      }
      i := i + 1;
    }
    assert steps[..i] == steps;
    r := Success(runs);
  }

  /** The body of the page loop: the scales, then the overlay when some field names the page. */
  method MergePage(k: nat, page: PdfPage, info: map<int, PageSize>, fields: seq<Field>, colorOk: string -> bool) returns (r: Result<OutputPage, Fault>)
    ensures r == PageOutput(k, page, info, fields, colorOk)
  {
    var size := ImageSize(info, k + 1, page);
    if size.0 == 0.0 || size.1 == 0.0 {
      return Failure(DivisionByZero);
    }
    var scaleX := page.width / size.0;
    var scaleY := page.height / size.1;
    assert Scales(page, size.0, size.1) == Success((scaleX, scaleY));
    var pageFields := OnPage(fields, k + 1);
    var overlay: Option<seq<TextRun>> := None;
    if pageFields != [] {
      var runs := DrawFields(pageFields, scaleX, scaleY, page.height, colorOk);
      if runs.Failure? {
        return Failure(runs.error);
      }
      overlay := Some(runs.value);
    }
    r := Success(OutputPage(page, overlay));
  }

  /**
   * `fill_form_with_annotations` once the PDF and the JSON are loaded: the
   * page loop, which adds every page to the writer after merging its overlay.
   */
  method FillFormWithAnnotations(doc: FieldsDocument, pages: seq<PdfPage>, colorOk: string -> bool) returns (r: Result<Filled, Fault>)
    ensures r == FillForm(doc, pages, colorOk)
  {
    var infoResult := PagesInfo(doc.pages.GetOr([]));
    if infoResult.Failure? {
      return Failure(infoResult.error);
    }
    var info := infoResult.value;
    var fields := FormFields(doc);
    ghost var steps := PageSteps(pages, info, fields, colorOk);
    var written: seq<OutputPage> := [];
    var k := 0;
    while k < |pages|
      invariant 0 <= k <= |pages|
      invariant Concat(steps[..k]) == Success(written)
    {
      ConcatStep(steps, k);
      var output := MergePage(k, pages[k], info, fields, colorOk);
      if output.Failure? {
        return Failure(output.error);
      }
      written := written + [output.value];
      k := k + 1;
    }
    assert steps[..k] == steps;
    r := Success(Filled(written, |fields|));
  }
}
