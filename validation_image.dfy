/**
 * create_validation_image.py: the fields of one page of `fields.json` are
 * drawn over the page image, a red outline for each entry box and then a
 * blue outline for each label box, with the box coordinates exactly as
 * written; the script then reports how many of each it drew.
 */
module ValidationImage {
  import opened Wrappers
  import opened Faults
  import opened Layout

  datatype Color = Red | Blue

  /** The outline width every rectangle is drawn with. */
  const OutlineWidth: nat := 2

  /** One `draw.rectangle([left, top, right, bottom], outline=..., width=2)` call. */
  datatype Command = Rectangle(box: Rect, outline: Color, width: nat)

  /** The drawing, and the two counts the script prints after saving it. */
  datatype Rendered = Rendered(commands: seq<Command>, redCount: nat, blueCount: nat)

  /** The outline for one box: nothing for a missing or empty box; a box that is not four numbers raises. */
  function BoxCommands(box: Option<seq<real>>, outline: Color): (r: Result<seq<Command>, Fault>)
    ensures r.Success? <==> (Present(box) ==> |box.value| == 4)
    ensures r.Failure? ==> r.error == BadUnpack
    ensures r.Success? && !Present(box) ==> r.value == []
    ensures r.Success? && Present(box) ==> |r.value| == 1
    ensures r.Success? ==> forall c :: c in r.value ==>
      c.outline == outline && c.width == OutlineWidth &&
      [c.box.left, c.box.top, c.box.right, c.box.bottom] == box.value
  {
    if !Present(box) then Success([])
    else
      match Unpack(box.value)
      case Failure(e) => Failure(e)
      case Success(rect) => Success([Rectangle(rect, outline, OutlineWidth)])
  }

  /** One iteration of the drawing loop: the entry box in red, then the label box in blue. */
  function FieldCommands(f: Field): (r: Result<seq<Command>, Fault>)
    ensures r.Success? <==> BoxCommands(f.entryBox, Red).Success? && BoxCommands(f.labelBox, Blue).Success?
    ensures r.Failure? ==> r.error == BadUnpack
    ensures r.Success? ==> r.value == BoxCommands(f.entryBox, Red).value + BoxCommands(f.labelBox, Blue).value
  {
    match BoxCommands(f.entryBox, Red)
    case Failure(e) => Failure(e)
    case Success(red) =>
      match BoxCommands(f.labelBox, Blue)
      case Failure(e) => Failure(e)
      case Success(blue) => Success(red + blue)
  }

  /** The commands for a list of fields, in field order; the first field that raises aborts the drawing. */
  function Commands(fields: seq<Field>): (r: Result<seq<Command>, Fault>)
    ensures r.Success? <==> forall k :: 0 <= k < |fields| ==> FieldCommands(fields[k]).Success?
    ensures r.Failure? ==> r.error == BadUnpack
  {
    if fields == [] then Success([])
    else
      var n := |fields| - 1;
      match Commands(fields[..n])
      case Failure(e) => Failure(e)
      case Success(before) =>
        match FieldCommands(fields[n])
        case Failure(e) => Failure(e)
        case Success(mine) => Success(before + mine)
  }

  /** `sum(1 for f in page_fields if f.get('entry_bounding_box'))` */
  function EntryCount(fields: seq<Field>): (n: nat)
    ensures n <= |fields|
    ensures n == 0 <==> forall k :: 0 <= k < |fields| ==> !Present(fields[k].entryBox)
  {
    if fields == [] then 0
    else EntryCount(fields[..|fields| - 1]) + (if Present(fields[|fields| - 1].entryBox) then 1 else 0)
  }

  /** `sum(1 for f in page_fields if f.get('label_bounding_box'))` */
  function LabelCount(fields: seq<Field>): (n: nat)
    ensures n <= |fields|
    ensures n == 0 <==> forall k :: 0 <= k < |fields| ==> !Present(fields[k].labelBox)
  {
    if fields == [] then 0
    else LabelCount(fields[..|fields| - 1]) + (if Present(fields[|fields| - 1].labelBox) then 1 else 0)
  }

  /** The number of commands drawn in colour `c`. */
  function ColorCount(commands: seq<Command>, c: Color): nat {
    if commands == [] then 0
    else ColorCount(commands[..|commands| - 1], c) + (if commands[|commands| - 1].outline == c then 1 else 0)
  }

  lemma {:induction false} ColorCountAppend(a: seq<Command>, b: seq<Command>, c: Color)
    ensures ColorCount(a + b, c) == ColorCount(a, c) + ColorCount(b, c)
    decreases |b|
  {
    if b == [] {
      assert a + b == a;
    } else {
      var n := |b| - 1;
      assert (a + b)[..|a| + n] == a + b[..n];
      assert (a + b)[|a| + n] == b[n];
      ColorCountAppend(a, b[..n], c);
    }
  }

  /** A field draws at most one red and one blue outline, each exactly when its box is present. */
  lemma FieldColorCounts(f: Field)
    requires FieldCommands(f).Success?
    ensures ColorCount(FieldCommands(f).value, Red) == (if Present(f.entryBox) then 1 else 0)
    ensures ColorCount(FieldCommands(f).value, Blue) == (if Present(f.labelBox) then 1 else 0)
  {
    var red := BoxCommands(f.entryBox, Red).value;
    var blue := BoxCommands(f.labelBox, Blue).value;
    ColorCountAppend(red, blue, Red);
    ColorCountAppend(red, blue, Blue);
    if Present(f.entryBox) {
      assert red == [red[0]] && red[0] in red;
    }
    if Present(f.labelBox) {
      assert blue == [blue[0]] && blue[0] in blue;
    }
  }

  /**
   * The reported counts are the numbers of outlines actually drawn: red ones
   * for the fields with an entry box, blue ones for the fields with a label box.
   */
  lemma {:induction false} CountsMatchDrawing(fields: seq<Field>)
    requires Commands(fields).Success?
    ensures ColorCount(Commands(fields).value, Red) == EntryCount(fields)
    ensures ColorCount(Commands(fields).value, Blue) == LabelCount(fields)
  {
    if fields != [] {
      var n := |fields| - 1;
      assert forall k :: 0 <= k < n ==> fields[..n][k] == fields[k];
      CountsMatchDrawing(fields[..n]);
      FieldColorCounts(fields[n]);
      ColorCountAppend(Commands(fields[..n]).value, FieldCommands(fields[n]).value, Red);
      ColorCountAppend(Commands(fields[..n]).value, FieldCommands(fields[n]).value, Blue);
    }
  }

  /** The outline is field `f`'s box of its colour, as written: red for the entry box, blue for the label box. */
  predicate DrawnFrom(c: Command, f: Field) {
    var box := if c.outline == Red then f.entryBox else f.labelBox;
    c.width == OutlineWidth && Present(box) && [c.box.left, c.box.top, c.box.right, c.box.bottom] == box.value
  }

  /** Every outline is the box of one of the drawn fields, unchanged: no scaling and no axis flip. */
  lemma {:induction false} OutlinesAreFieldBoxes(fields: seq<Field>)
    requires Commands(fields).Success?
    ensures forall c :: c in Commands(fields).value ==> exists k :: 0 <= k < |fields| && DrawnFrom(c, fields[k])
  {
    if fields != [] {
      var n := |fields| - 1;
      assert forall k :: 0 <= k < n ==> fields[..n][k] == fields[k];
      OutlinesAreFieldBoxes(fields[..n]);
      forall c | c in FieldCommands(fields[n]).value
        ensures DrawnFrom(c, fields[n])
      {
      }
    }
  }

  /** What the script prints and saves for page `pageNum`, when the drawing does not raise. */
  function Render(doc: FieldsDocument, pageNum: int): (r: Result<Rendered, Fault>)
    ensures r.Success? <==> Commands(OnPage(FormFields(doc), pageNum)).Success?
    ensures r.Success? ==>
      var pageFields := OnPage(FormFields(doc), pageNum);
      r.value.redCount == ColorCount(r.value.commands, Red) == EntryCount(pageFields) &&
      r.value.blueCount == ColorCount(r.value.commands, Blue) == LabelCount(pageFields)
  {
    var pageFields := OnPage(FormFields(doc), pageNum);
    match Commands(pageFields)
    case Failure(e) => Failure(e)
    case Success(commands) =>
      CountsMatchDrawing(pageFields);
      Success(Rendered(commands, EntryCount(pageFields), LabelCount(pageFields)))
  }

  /** A field on another page changes neither the drawing nor the counts. */
  lemma FieldOnOtherPageIgnored(a: seq<Field>, f: Field, b: seq<Field>, pages: Option<seq<PageSize>>, pageNum: int)
    requires PageOf(f) != pageNum
    ensures Render(FieldsDocument(Some(a + [f] + b), pages), pageNum) == Render(FieldsDocument(Some(a + b), pages), pageNum)
  {
    OnPageIgnoresOtherPages(a, f, b, pageNum);
  }

  /** A field on the requested page is kept, after the fields kept before it. */
  lemma OnPageSnoc(before: seq<Field>, f: Field, pageNum: int)
    requires PageOf(f) == pageNum
    ensures OnPage(before + [f], pageNum) == OnPage(before, pageNum) + [f]
  {
    OnPageAppend(before, [f], pageNum);
    assert OnPage([f], pageNum) == [f];
  }

  /** One more field after fields that were drawn: its outlines come last. */
  lemma CommandsSnoc(prior: seq<Field>, f: Field)
    requires Commands(prior).Success? && FieldCommands(f).Success?
    ensures Commands(prior + [f]) == Success(Commands(prior).value + FieldCommands(f).value)
  {
    var fields := prior + [f];
    assert fields[..|prior|] == prior;
    assert fields[|prior|] == f;
  }

  /** A field with both boxes: its red outline, then its blue one. */
  lemma BothBoxesDrawn(f: Field)
    requires Present(f.entryBox) && |f.entryBox.value| == 4
    requires Present(f.labelBox) && |f.labelBox.value| == 4
    ensures FieldCommands(f) == Success([
      Rectangle(Unpack(f.entryBox.value).value, Red, OutlineWidth),
      Rectangle(Unpack(f.labelBox.value).value, Blue, OutlineWidth)])
  {
    var red := Rectangle(Unpack(f.entryBox.value).value, Red, OutlineWidth);
    var blue := Rectangle(Unpack(f.labelBox.value).value, Blue, OutlineWidth);
    assert [red] + [blue] == [red, blue];
  }

  /** A field on the requested page with both boxes gets its red outline and then its blue one, at the end. */
  lemma FieldDrawnRedThenBlue(before: seq<Field>, f: Field, pageNum: int)
    requires PageOf(f) == pageNum
    requires Commands(OnPage(before, pageNum)).Success?
    requires Present(f.entryBox) && |f.entryBox.value| == 4
    requires Present(f.labelBox) && |f.labelBox.value| == 4
    ensures var r := Render(FieldsDocument(Some(before + [f]), None), pageNum);
      r.Success? && |r.value.commands| >= 2 &&
      var n := |r.value.commands|;
      r.value.commands[n - 2] == Rectangle(Unpack(f.entryBox.value).value, Red, OutlineWidth) &&
      r.value.commands[n - 1] == Rectangle(Unpack(f.labelBox.value).value, Blue, OutlineWidth)
  {
    var prior := OnPage(before, pageNum);
    OnPageSnoc(before, f, pageNum);
    BothBoxesDrawn(f);
    CommandsSnoc(prior, f);
    assert FormFields(FieldsDocument(Some(before + [f]), None)) == before + [f];
  }

  /** `create_validation_image`, with the JSON already loaded and the image left out. */
  method CreateValidationImage(doc: FieldsDocument, pageNum: int) returns (r: Result<Rendered, Fault>)
    ensures r == Render(doc, pageNum)
  {
    var pageFields := OnPage(FormFields(doc), pageNum);
    var commands: seq<Command> := [];
    var i := 0;
    while i < |pageFields|
      invariant 0 <= i <= |pageFields|
      invariant Commands(pageFields[..i]) == Success(commands)
    {
      CommandsStep(pageFields, i);
      var drawn := DrawField(pageFields[i]);
      if drawn.Failure? {
        return Failure(drawn.error);
      }
      commands := commands + drawn.value;
      i := i + 1;
    }
    assert pageFields[..i] == pageFields;
    r := Success(Rendered(commands, EntryCount(pageFields), LabelCount(pageFields)));
  }

  /** The body of the drawing loop: the entry box in red, then the label box in blue. */
  method DrawField(field: Field) returns (r: Result<seq<Command>, Fault>)
    ensures r == FieldCommands(field)
  {
    var drawn: seq<Command> := [];
    if Present(field.entryBox) {
      var entryRect := Unpack(field.entryBox.value);
      if entryRect.Failure? {
        return Failure(entryRect.error);
      }
      drawn := drawn + [Rectangle(entryRect.value, Red, OutlineWidth)];
    }
    assert drawn == BoxCommands(field.entryBox, Red).value;
    if Present(field.labelBox) {
      var labelRect := Unpack(field.labelBox.value);
      if labelRect.Failure? {
        return Failure(labelRect.error);
      }
      drawn := drawn + [Rectangle(labelRect.value, Blue, OutlineWidth)];
    }
    assert drawn == FieldCommands(field).value;
    r := Success(drawn);
  }

  /** One more field after a prefix that was drawn: its outlines follow, or its fault aborts the drawing. */
  lemma CommandsStep(fields: seq<Field>, i: nat)
    requires i < |fields|
    requires Commands(fields[..i]).Success?
    ensures FieldCommands(fields[i]).Success? ==>
      Commands(fields[..i + 1]) == Success(Commands(fields[..i]).value + FieldCommands(fields[i]).value)
    ensures FieldCommands(fields[i]).Failure? ==> Commands(fields).Failure?
  {
    assert fields[..i + 1][..i] == fields[..i];
    assert fields[..i + 1][i] == fields[i];
    if FieldCommands(fields[i]).Failure? {
      CommandsFailurePropagates(fields, i + 1);
    }
  }

  /** A field that raises aborts the whole drawing with its exception. */
  lemma {:induction false} CommandsFailurePropagates(fields: seq<Field>, n: nat)
    requires n <= |fields|
    requires Commands(fields[..n]).Failure?
    ensures Commands(fields).Failure?
  {
    if n < |fields| {
      var m := |fields| - 1;
      assert fields[..m][..n] == fields[..n];
      CommandsFailurePropagates(fields[..m], n);
    } else {
      assert fields[..n] == fields;
    }
  }
}
