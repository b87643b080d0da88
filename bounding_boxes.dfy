/**
 * check_bounding_boxes.py: label and entry boxes of a field must not overlap,
 * and an entry box must be at least 15 pixels tall.
 */
module BoundingBoxes {
  import opened Wrappers
  import opened Faults
  import opened Text
  import opened Layout

  /** The script's MIN_HEIGHT, in image pixels. */
  const MinHeight: real := 15.0

  /** Two boxes fail to intersect only when a strict gap separates them on some axis. */
  predicate Intersects(a: Rect, b: Rect) {
    !(a.right < b.left || b.right < a.left) && !(a.bottom < b.top || b.bottom < a.top)
  }

  /** A box whose corners are in order: left <= right and top <= bottom. */
  predicate Ordered(a: Rect) {
    a.left <= a.right && a.top <= a.bottom
  }

  /** The closed region of a box: its interior together with its edges. */
  predicate Contains(a: Rect, x: real, y: real) {
    a.left <= x <= a.right && a.top <= y <= a.bottom
  }

  /** The two closed regions have a point in common (touching edges included). */
  ghost predicate ShareAPoint(a: Rect, b: Rect) {
    exists x: real, y: real :: Contains(a, x, y) && Contains(b, x, y)
  }

  /** For boxes in order, the test is exactly "the closed regions meet". */
  lemma IntersectsIffShareAPoint(a: Rect, b: Rect)
    requires Ordered(a) && Ordered(b)
    ensures Intersects(a, b) <==> ShareAPoint(a, b)
  {
    if Intersects(a, b) {
      var x := if a.left < b.left then b.left else a.left;
      var y := if a.top < b.top then b.top else a.top;
      assert Contains(a, x, y) && Contains(b, x, y);
    }
  }

  function AsRect(box: seq<real>): Rect
    requires |box| == 4
  {
    Rect(box[0], box[1], box[2], box[3])
  }

  /**
   * `boxes_intersect(box1, box2)`: false when either box is missing or empty;
   * otherwise both are unpacked (a list of any other length than four raises).
   */
  function BoxesIntersect(box1: Option<seq<real>>, box2: Option<seq<real>>): (r: Result<bool, Fault>)
    ensures !Present(box1) || !Present(box2) ==> r == Success(false)
    ensures Present(box1) && Present(box2) ==>
      (r.Success? <==> |box1.value| == 4 && |box2.value| == 4)
    ensures r.Failure? ==> r.error == BadUnpack
    ensures r.Success? && Present(box1) && Present(box2) ==>
      (r.value <==> Intersects(AsRect(box1.value), AsRect(box2.value)))
    ensures r.Success? && Present(box1) && Present(box2) ==>
      (Ordered(AsRect(box1.value)) && Ordered(AsRect(box2.value)) ==>
         (r.value <==> ShareAPoint(AsRect(box1.value), AsRect(box2.value))))
  {
    if !Present(box1) || !Present(box2) then Success(false)
    else
      match (Unpack(box1.value), Unpack(box2.value))
      case (Success(a), Success(b)) =>
        IntersectsIffShareAPoint'(a, b);
        Success(Intersects(a, b))
      case (Failure(e), _) => Failure(e)
      case (_, Failure(e)) => Failure(e)
  }

  /** IntersectsIffShareAPoint, restricted to the boxes where it applies. */
  lemma IntersectsIffShareAPoint'(a: Rect, b: Rect)
    ensures Ordered(a) && Ordered(b) ==> (Intersects(a, b) <==> ShareAPoint(a, b))
  {
    if Ordered(a) && Ordered(b) {
      IntersectsIffShareAPoint(a, b);
    }
  }

  /** The test does not depend on the order of its arguments, nor does its failure. */
  lemma BoxesIntersectSymmetric(box1: Option<seq<real>>, box2: Option<seq<real>>)
    ensures BoxesIntersect(box1, box2) == BoxesIntersect(box2, box1)
  {
  }

  /** Boxes that only touch along an edge count as intersecting. */
  lemma TouchingBoxesIntersect(a: Rect, b: Rect)
    requires a.right == b.left || a.bottom == b.top
    requires Ordered(a) && Ordered(b)
    requires a.right == b.left ==> a.top <= b.bottom && b.top <= a.bottom
    requires a.bottom == b.top ==> a.left <= b.right && b.left <= a.right
    ensures Intersects(a, b)
  {
  }

  /** Two unit-free boxes meeting at a single corner intersect. */
  lemma CornerContactExample()
    ensures BoxesIntersect(Some([0.0, 0.0, 10.0, 10.0]), Some([10.0, 10.0, 20.0, 20.0])) == Success(true)
    ensures BoxesIntersect(Some([0.0, 0.0, 10.0, 10.0]), Some([10.5, 0.0, 20.0, 10.0])) == Success(false)
    ensures BoxesIntersect(Some([]), Some([0.0, 0.0, 10.0, 10.0])) == Success(false)
  {
    assert Unpack([0.0, 0.0, 10.0, 10.0]) == Success(Rect(0.0, 0.0, 10.0, 10.0));
    assert Unpack([10.0, 10.0, 20.0, 20.0]) == Success(Rect(10.0, 10.0, 20.0, 20.0));
    assert Unpack([10.5, 0.0, 20.0, 10.0]) == Success(Rect(10.5, 0.0, 20.0, 10.0));
  }

  /**
   * A box with its corners swapped is still "intersecting" when the gap
   * tests find no gap, although its closed region is empty.
   */
  lemma InvertedBoxIntersects()
    ensures BoxesIntersect(Some([10.0, 0.0, 0.0, 10.0]), Some([0.0, 0.0, 10.0, 10.0])) == Success(true)
    ensures !ShareAPoint(Rect(10.0, 0.0, 0.0, 10.0), Rect(0.0, 0.0, 10.0, 10.0))
  {
    assert Unpack([10.0, 0.0, 0.0, 10.0]) == Success(Rect(10.0, 0.0, 0.0, 10.0));
    assert Unpack([0.0, 0.0, 10.0, 10.0]) == Success(Rect(0.0, 0.0, 10.0, 10.0));
  }

  /** What a reported problem says about its field. */
  datatype Problem = Overlapping | TooShort(height: real)

  /** One error message, kept as its parts: the page, the field's description and the problem. */
  datatype Issue = Issue(page: int, description: string, problem: Problem)

  /** `field.get('description', f'Field {i}')` */
  function Describe(i: nat, f: Field): (d: string)
    ensures f.description.Some? ==> d == f.description.value
    ensures f.description.None? ==> d == "Field " + DecimalString(i)
    ensures f.description.None? ==> |d| > 6 && ParseInt(d[6..]) == Some(i)
  {
    var fallback := "Field " + DecimalString(i);
    assert fallback[6..] == DecimalString(i);
    ParseDigits(DecimalString(i));
    f.description.GetOr(fallback)
  }

  /** `entry_box[3] - entry_box[1]`: bottom minus top. */
  function Height(box: seq<real>): real
    requires |box| >= 4
  {
    box[3] - box[1]
  }

  /**
   * The fields the loop gets through without raising: when both boxes are
   * present they must both unpack, and an entry box must reach index 3.
   */
  predicate Checkable(f: Field) {
    && (Present(f.labelBox) && Present(f.entryBox) ==> |f.labelBox.value| == 4 && |f.entryBox.value| == 4)
    && (Present(f.entryBox) ==> |f.entryBox.value| >= 4)
  }

  predicate OverlapDetected(f: Field)
    requires Checkable(f)
  {
    Present(f.labelBox) && Present(f.entryBox) && Intersects(AsRect(f.labelBox.value), AsRect(f.entryBox.value))
  }

  predicate TooShortDetected(f: Field)
    requires Checkable(f)
  {
    Present(f.entryBox) && Height(f.entryBox.value) < MinHeight
  }

  /** The errors one iteration of the loop appends for field number `i`. */
  function FieldIssues(i: nat, f: Field): (r: Result<seq<Issue>, Fault>)
    ensures r.Success? <==> Checkable(f)
    ensures r.Failure? ==> r.error == (if Present(f.labelBox) && Present(f.entryBox) && !(|f.labelBox.value| == 4 && |f.entryBox.value| == 4) then BadUnpack else IndexOutOfRange)
    ensures r.Success? ==> (r.value ==
      (if OverlapDetected(f) then [Issue(PageOf(f), Describe(i, f), Overlapping)] else []) +
      (if TooShortDetected(f) then [Issue(PageOf(f), Describe(i, f), TooShort(Height(f.entryBox.value)))] else []))
  {
    var page := PageOf(f);
    var description := Describe(i, f);
    var overlap :=
      if Present(f.labelBox) && Present(f.entryBox) then BoxesIntersect(f.labelBox, f.entryBox)
      else Success(false);
    if overlap.Failure? then Failure(overlap.error)
    else
      var first := if overlap.value then [Issue(page, description, Overlapping)] else [];
      if !Present(f.entryBox) then Success(first)
      else if |f.entryBox.value| < 4 then Failure(IndexOutOfRange)
      else
        var height := Height(f.entryBox.value);
        Success(first + if height < MinHeight then [Issue(page, description, TooShort(height))] else [])
  }

  /** The errors collected over the fields, in field order; the first raising field aborts. */
  function Issues(fields: seq<Field>): (r: Result<seq<Issue>, Fault>)
    ensures r.Success? <==> forall k :: 0 <= k < |fields| ==> Checkable(fields[k])
    ensures r.Success? ==> |r.value| <= 2 * |fields|
  {
    if fields == [] then Success([])
    else
      var n := |fields| - 1;
      match Issues(fields[..n])
      case Failure(e) => Failure(e)
      case Success(before) =>
        match FieldIssues(n, fields[n])
        case Failure(e) => Failure(e)
        case Success(mine) => Success(before + mine)
  }

  /** An exception at some field is the exception of the whole check. */
  lemma {:induction false} IssuesFailurePropagates(fields: seq<Field>, n: nat)
    requires n <= |fields|
    requires Issues(fields[..n]).Failure?
    ensures Issues(fields) == Failure(Issues(fields[..n]).error)
  {
    if n < |fields| {
      var m := |fields| - 1;
      assert fields[..m][..n] == fields[..n];
      IssuesFailurePropagates(fields[..m], n);
    } else {
      assert fields[..n] == fields;
    }
  }

  /**
   * Errors follow field order: the errors of the first `n` fields come first,
   * and field `n`'s own errors (at most two) come right after them.
   */
  lemma {:induction false} IssuesInFieldOrder(fields: seq<Field>, n: nat)
    requires n < |fields|
    requires Issues(fields).Success?
    ensures Issues(fields[..n]).Success? && Issues(fields[..n + 1]).Success? && FieldIssues(n, fields[n]).Success?
    ensures Issues(fields[..n + 1]).value == Issues(fields[..n]).value + FieldIssues(n, fields[n]).value
    ensures Issues(fields[..n + 1]).value <= Issues(fields).value
  {
    var m := |fields| - 1;
    assert fields[..n + 1][..n] == fields[..n];
    assert fields[..n + 1][n] == fields[n];
    if n < m {
      assert fields[..m][..n] == fields[..n];
      assert fields[..m][..n + 1] == fields[..n + 1];
      assert fields[..m][n] == fields[n];
      IssuesInFieldOrder(fields[..m], n);
    } else {
      assert fields[..n + 1] == fields;
    }
  }

  /** What the script decides: the error list, and whether the boxes passed. */
  datatype Report = Report(errors: seq<Issue>, valid: bool)

  /** `check_bounding_boxes`, with the JSON file already loaded into `doc`. */
  method CheckBoundingBoxes(doc: FieldsDocument) returns (r: Result<Report, Fault>)
    ensures r.Success? <==> Issues(FormFields(doc)).Success?
    ensures r.Success? ==> r.value.errors == Issues(FormFields(doc)).value
    ensures r.Success? ==> (r.value.valid <==> r.value.errors == [])
    ensures r.Failure? ==> r.error == Issues(FormFields(doc)).error
    ensures FormFields(doc) == [] ==> r == Success(Report([], true))
  {
    var errors: seq<Issue> := [];
    var fields := FormFields(doc);
    var i := 0;
    while i < |fields|
      invariant 0 <= i <= |fields|
      invariant Issues(fields[..i]) == Success(errors)
    {
      IssuesStep(fields, i);
      var mine := CheckField(i, fields[i]);
      if mine.Failure? {
        return Failure(mine.error);
      }
      errors := errors + mine.value;
      i := i + 1;
    }
    assert fields[..i] == fields;
    r := Success(Report(errors, errors == []));
  }

  /** The body of the loop over the fields: the overlap check, then the height check. */
  method CheckField(i: nat, field: Field) returns (r: Result<seq<Issue>, Fault>)
    ensures r == FieldIssues(i, field)
  {
    var errors: seq<Issue> := [];
    var description := Describe(i, field);
    var page := PageOf(field);
    if Present(field.labelBox) && Present(field.entryBox) {
      var overlap := BoxesIntersect(field.labelBox, field.entryBox);
      if overlap.Failure? {
        return Failure(overlap.error);
      }
      if overlap.value {
        errors := errors + [Issue(page, description, Overlapping)];
      }
    }
    if Present(field.entryBox) {
      if |field.entryBox.value| < 4 {
        return Failure(IndexOutOfRange);
      }
      var height := field.entryBox.value[3] - field.entryBox.value[1];
      if height < MinHeight {
        errors := errors + [Issue(page, description, TooShort(height))];
      }
    }
    assert FieldIssues(i, field).Success?;
    assert errors == FieldIssues(i, field).value;
    r := Success(errors);
  }

  /** One more field after a prefix that was checked: its errors follow, or its exception ends the check. */
  lemma IssuesStep(fields: seq<Field>, i: nat)
    requires i < |fields|
    requires Issues(fields[..i]).Success?
    ensures FieldIssues(i, fields[i]).Success? ==>
      Issues(fields[..i + 1]) == Success(Issues(fields[..i]).value + FieldIssues(i, fields[i]).value)
    ensures FieldIssues(i, fields[i]).Failure? ==> Issues(fields) == Failure(FieldIssues(i, fields[i]).error)
  {
    assert fields[..i + 1][..i] == fields[..i];
    assert fields[..i + 1][i] == fields[i];
    if FieldIssues(i, fields[i]).Failure? {
      IssuesFailurePropagates(fields, i + 1);
    }
  }
}
