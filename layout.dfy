/**
 * The field-description document (`fields.json`) that the bounding-box
 * checker, the annotation filler and the validation-image renderer all read:
 * a list of form fields with boxes in image pixels (origin top-left, y
 * growing downward) and an optional list of page image sizes.
 */
module Layout {
  import opened Wrappers
  import opened Faults

  /** A rectangle `[left, top, right, bottom]` once its four numbers are unpacked. */
  datatype Rect = Rect(left: real, top: real, right: real, bottom: real)

  /** The `entry_text` object of a field; `otherKeys` records keys the scripts never read. */
  datatype EntryText = EntryText(
    text: Option<string>,
    fontSize: Option<real>,
    fontColor: Option<string>,
    otherKeys: bool)

  /**
   * One entry of `form_fields`. A box is the JSON list as written (None when
   * the key is missing or null), so an empty or wrongly sized list is representable.
   */
  datatype Field = Field(
    pageNumber: Option<int>,
    description: Option<string>,
    labelBox: Option<seq<real>>,
    entryBox: Option<seq<real>>,
    entryText: Option<EntryText>)

  /** One entry of `pages`: the pixel size of the image the boxes were drawn on. */
  datatype PageSize = PageSize(
    pageNumber: Option<int>,
    imageWidth: Option<real>,
    imageHeight: Option<real>)

  /** The whole document; both top-level keys may be missing. */
  datatype FieldsDocument = FieldsDocument(
    formFields: Option<seq<Field>>,
    pages: Option<seq<PageSize>>)

  /** `data.get('form_fields', [])` */
  function FormFields(doc: FieldsDocument): seq<Field> {
    doc.formFields.GetOr([])
  }

  /** `field.get('page_number', 1)` */
  function PageOf(f: Field): (n: int)
    ensures f.pageNumber.Some? ==> n == f.pageNumber.value
    ensures f.pageNumber.None? ==> n == 1
  {
    f.pageNumber.GetOr(1)
  }

  /** Python truthiness of a box: a missing box and an empty list are both false. */
  predicate Present(box: Option<seq<real>>) {
    box.Some? && box.value != []
  }

  /** Python truthiness of `entry_text`: missing, null and `{}` are false. */
  predicate HasEntryText(f: Field) {
    f.entryText.Some? &&
    var t := f.entryText.value;
    t.text.Some? || t.fontSize.Some? || t.fontColor.Some? || t.otherKeys
  }

  /** `left, top, right, bottom = box`: unpacking succeeds exactly for four numbers. */
  function Unpack(box: seq<real>): (r: Result<Rect, Fault>)
    ensures r.Success? <==> |box| == 4
    ensures r.Success? ==> [r.value.left, r.value.top, r.value.right, r.value.bottom] == box
    ensures r.Failure? ==> r.error == BadUnpack
  {
    if |box| == 4 then Success(Rect(box[0], box[1], box[2], box[3])) else Failure(BadUnpack)
  }

  /** `[f for f in fields if f.get('page_number', 1) == page]` */
  function OnPage(fields: seq<Field>, page: int): (r: seq<Field>)
    ensures |r| <= |fields|
    ensures forall f :: f in r <==> f in fields && PageOf(f) == page
  {
    if fields == [] then []
    else (if PageOf(fields[0]) == page then [fields[0]] else []) + OnPage(fields[1..], page)
  }

  /** Filtering distributes over concatenation: the selected fields keep their order. */
  lemma {:induction false} OnPageAppend(a: seq<Field>, b: seq<Field>, page: int)
    ensures OnPage(a + b, page) == OnPage(a, page) + OnPage(b, page)
  {
    if a == [] {
      assert a + b == b;
    } else {
      assert (a + b)[1..] == a[1..] + b;
      OnPageAppend(a[1..], b, page);
    }
  }

  /** A field on another page does not change the selection. */
  lemma OnPageIgnoresOtherPages(a: seq<Field>, f: Field, b: seq<Field>, page: int)
    requires PageOf(f) != page
    ensures OnPage(a + [f] + b, page) == OnPage(a + b, page)
  {
    OnPageAppend(a + [f], b, page);
    OnPageAppend(a, [f], page);
    OnPageAppend(a, b, page);
  }
}
