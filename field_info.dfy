/**
 * extract_form_field_info.py: one record per field of a fillable PDF's form
 * catalogue, giving its id, page, rectangle and type, with the on-values of a
 * checkbox, the options of a radio group (one per widget appearance) or the
 * options of a choice field. Field flags are those of section 12.7.4.2 of ISO
 * 32000-1; choice options, section 12.7.4.4.
 */
module FieldInfo {
  import opened Wrappers
  import opened Faults
  import opened Outcomes

  /** A widget annotation among a field's `/Kids`: its `/Rect` and the keys of its `/AP /N` dictionary. */
  datatype Widget = Widget(rect: Option<seq<real>>, appearances: Option<seq<string>>)

  /** One element of a choice field's `/Opt` array: a text, or an array `[export, display]`. */
  datatype OptEntry = Scalar(text: string) | Pair(items: seq<string>)

  /**
   * A field dictionary as pypdf returns it. Missing entries are None; `page`
   * is the object number `/P` refers to, `appearances` the keys of `/AP /N`
   * (None when either dictionary is absent).
   */
  datatype PdfField = PdfField(
    fieldType: Option<string>,
    rect: Option<seq<real>>,
    page: Option<nat>,
    flags: Option<int>,
    kids: Option<seq<Widget>>,
    appearances: Option<seq<string>>,
    options: Option<seq<OptEntry>>)

  datatype RadioOption = RadioOption(value: string, rect: Option<seq<real>>)

  datatype ChoiceOption = ChoiceOption(value: string, text: string)

  /** The `type` of a record together with the keys that go with it. */
  datatype FieldKind =
    | Text
    | Checkbox(checkedValue: string, uncheckedValue: string)
    | RadioGroup(radioOptions: seq<RadioOption>)
    | Choice(choiceOptions: seq<ChoiceOption>)

  datatype FieldRecord = FieldRecord(fieldId: string, page: nat, rect: seq<real>, kind: FieldKind)

  /** What the script produces: nothing at all for a PDF without fields, else the JSON list. */
  datatype Extraction = NoFields | Written(records: seq<FieldRecord>)

  /** Bit position 16 of `/Ff` (value `1 << 15`): the Radio flag of a button field. */
  const RadioBit: int := 32768

  /**
   * `int(ff) & (1 << 15)` is non-zero. Python's `&` acts on the infinite
   * two's-complement form, so for negative flags too the bit is the 16th of
   * `floor(ff / 2^15)`; Dafny's division by a positive number is that floor.
   */
  predicate RadioFlagSet(ff: int) {
    (ff / RadioBit) % 2 == 1
  }

  /** 2 to the power `k`. */
  function Pow2(k: nat): (p: nat)
    ensures p >= 1
  {
    if k == 0 then 1 else 2 * Pow2(k - 1)
  }

  /**
   * Python's `x & (1 << k)` for any integer `x`, by the two rules that fix `&`
   * on the two's-complement form bit by bit: `x & 1 == x % 2`, and
   * `x & (2 << k) == 2 * ((x >> 1) & (1 << k))` with `x >> 1 == x // 2`.
   */
  function AndPow2(x: int, k: nat): int
    decreases k
  {
    if k == 0 then x % 2 else 2 * AndPow2(x / 2, k - 1)
  }

  /** Floor division leaves one quotient and one remainder. */
  lemma DivUnique(x: int, d: int, q: int, r: int)
    requires d > 0 && 0 <= r < d && x == d * q + r
    ensures x / d == q
  {
    var q', r' := x / d, x % d;
    assert d * (q - q') == r' - r;
    if q - q' >= 1 {
      assert false;
    } else if q - q' <= -1 {
      assert false;
    }
  }

  /** Halving and then dividing by `m` is dividing by `2m`. */
  lemma DivHalf(x: int, m: int)
    requires m > 0
    ensures (x / 2) / m == x / (2 * m)
  {
    var q := x / 2;
    var q2 := q / m;
    assert x == 2 * q + x % 2;
    assert q == m * q2 + q % m;
    assert x == (2 * m) * q2 + (2 * (q % m) + x % 2);
    DivUnique(x, 2 * m, q2, 2 * (q % m) + x % 2);
  }

  /** `x & (1 << k)` is `1 << k` when bit `k` of `floor(x / 2^k)` is set, and 0 otherwise. */
  lemma {:induction false} AndPow2IsQuotientBit(x: int, k: nat)
    ensures AndPow2(x, k) == Pow2(k) * ((x / Pow2(k)) % 2)
    decreases k
  {
    if k > 0 {
      AndPow2IsQuotientBit(x / 2, k - 1);
      DivHalf(x, Pow2(k - 1));
    }
  }

  /** The flag test is `ff & (1 << 15) != 0` for every integer, negative ones included. */
  lemma RadioFlagIsBitAnd(ff: int)
    ensures RadioFlagSet(ff) <==> AndPow2(ff, 15) != 0
  {
    assert Pow2(15) == RadioBit;
    AndPow2IsQuotientBit(ff, 15);
  }

  /**
   * The flag read on a few words: Radio alone, Radio with NoToggleToOff,
   * NoToggleToOff alone (bit position 15), Pushbutton alone (bit position
   * 17), and -1, whose two's-complement form has every bit set.
   */
  lemma RadioFlagExamples()
    ensures RadioFlagSet(0x8000) && RadioFlagSet(0xC000) && RadioFlagSet(-1)
    ensures !RadioFlagSet(0) && !RadioFlagSet(0x4000) && !RadioFlagSet(0x1_0000)
  {
  }

  /** The four kinds the script tells apart. */
  datatype TypeTag = TextTag | CheckboxTag | RadioTag | ChoiceTag

  /**
   * `/FT` (default `/Tx`): a button with the Radio flag is a radio group, any
   * other button a checkbox, `/Ch` a choice, and anything else text.
   */
  function TypeOf(f: PdfField): (t: TypeTag)
    ensures t == RadioTag <==> f.fieldType.GetOr("/Tx") == "/Btn" && f.flags.Some? && RadioFlagSet(f.flags.value)
    ensures t == CheckboxTag <==> f.fieldType.GetOr("/Tx") == "/Btn" && !(f.flags.Some? && RadioFlagSet(f.flags.value))
    ensures t == ChoiceTag <==> f.fieldType.GetOr("/Tx") == "/Ch"
    ensures t == TextTag <==> f.fieldType.GetOr("/Tx") !in {"/Btn", "/Ch"}
  {
    var ft := f.fieldType.GetOr("/Tx");
    if ft == "/Btn" then
      if f.flags.Some? && RadioFlagSet(f.flags.value) then RadioTag else CheckboxTag
    else if ft == "/Ch" then ChoiceTag
    else TextTag
  }

  /** A field without `/FT` is a text field, whatever its flags. */
  lemma MissingTypeIsText(f: PdfField)
    requires f.fieldType.None?
    ensures TypeOf(f) == TextTag
  {
  }

  /** The Radio flag only matters for buttons. */
  lemma RadioFlagOnlyForButtons(f: PdfField)
    requires f.flags.Some? && RadioFlagSet(f.flags.value)
    ensures TypeOf(f) == RadioTag || f.fieldType.GetOr("/Tx") != "/Btn"
  {
  }

  /** The on-value of a checkbox: the last appearance key other than `/Off`, if there is one. */
  function LastOnState(keys: seq<string>): (r: Option<nat>)
    ensures r.Some? ==> (r.value < |keys| && keys[r.value] != "/Off" &&
      forall j :: r.value < j < |keys| ==> keys[j] == "/Off")
    ensures r.None? ==> forall j :: 0 <= j < |keys| ==> keys[j] == "/Off"
  {
    if keys == [] then None
    else if keys[|keys| - 1] != "/Off" then Some(|keys| - 1)
    else LastOnState(keys[..|keys| - 1])
  }

  /** `checked_value`: `/Yes` unless the field's own appearances name an on-state. */
  function CheckedValue(appearances: Option<seq<string>>): (v: string)
    ensures v != "/Off"
    ensures appearances.None? ==> v == "/Yes"
  {
    match appearances
    case None => "/Yes"
    case Some(keys) =>
      match LastOnState(keys)
      case None => "/Yes"
      case Some(k) => keys[k]
  }

  /** The loop that overwrites `checked_value` with each key other than `/Off`. */
  method ScanCheckedValue(appearances: Option<seq<string>>) returns (checked: string)
    ensures checked == CheckedValue(appearances)
  {
    checked := "/Yes";
    if appearances.Some? {
      var keys := appearances.value;
      var i := 0;
      while i < |keys|
        invariant 0 <= i <= |keys|
        invariant match LastOnState(keys[..i])
          case None => checked == "/Yes"
          case Some(k) => checked == keys[k]
      {
        assert keys[..i + 1][..i] == keys[..i];
        if keys[i] != "/Off" {
          checked := keys[i];
        }
        i := i + 1;
      }
      assert keys[..i] == keys;
    }
  }

  /** The `rect` of a radio option: the widget's numbers, `[0,0,0,0]` when it has none, None when empty. */
  function OptionRect(rect: Option<seq<real>>): (r: Option<seq<real>>)
    ensures rect.None? ==> r == Some([0.0, 0.0, 0.0, 0.0])
    ensures rect.Some? && rect.value == [] ==> r.None?
    ensures rect.Some? && rect.value != [] ==> r == rect
  {
    match rect
    case None => Some([0.0, 0.0, 0.0, 0.0])
    case Some(xs) => if xs == [] then None else Some(xs)
  }

  /** The options one widget adds: one per appearance key other than `/Off`, in key order. */
  function WidgetOptions(w: Widget): (r: seq<RadioOption>)
    ensures forall o :: o in r ==> o.value != "/Off" && o.rect == OptionRect(w.rect)
    ensures w.appearances.None? ==> r == []
  {
    match w.appearances
    case None => []
    case Some(keys) => OnStates(keys, OptionRect(w.rect))
  }

  /** The keys other than `/Off`, each with the widget's rect. */
  function OnStates(keys: seq<string>, rect: Option<seq<real>>): (r: seq<RadioOption>)
    ensures |r| <= |keys|
    ensures forall o :: o in r <==> o.value in keys && o.value != "/Off" && o.rect == rect
  {
    if keys == [] then []
    else OnStates(keys[..|keys| - 1], rect) + (if keys[|keys| - 1] != "/Off" then [RadioOption(keys[|keys| - 1], rect)] else [])
  }

  /** The options of each widget, in `/Kids` order. */
  function WidgetOptionLists(kids: seq<Widget>): (r: seq<seq<RadioOption>>)
    ensures |r| == |kids|
    ensures forall k :: 0 <= k < |kids| ==> r[k] == WidgetOptions(kids[k])
  {
    seq(|kids|, k requires 0 <= k < |kids| => WidgetOptions(kids[k]))
  }

  /** `radio_options`: the options of the widgets, in `/Kids` order; none of them is `/Off`. */
  function RadioOptions(kids: seq<Widget>): (r: seq<RadioOption>)
    ensures forall o :: o in r ==> o.value != "/Off"
  {
    var lists := WidgetOptionLists(kids);
    FlattenAll(lists, (o: RadioOption) => o.value != "/Off");
    Flatten(lists)
  }

  /** The options of a list of widgets are those of its parts, in order. */
  lemma RadioOptionsAppend(a: seq<Widget>, b: seq<Widget>)
    ensures RadioOptions(a + b) == RadioOptions(a) + RadioOptions(b)
  {
    assert WidgetOptionLists(a + b) == WidgetOptionLists(a) + WidgetOptionLists(b);
    FlattenAppend(WidgetOptionLists(a), WidgetOptionLists(b));
  }

  /** The options of a single widget are its own. */
  lemma RadioOptionsOfOne(w: Widget)
    ensures RadioOptions([w]) == WidgetOptions(w)
  {
    var lists := WidgetOptionLists([w]);
    assert lists == [WidgetOptions(w)];
    assert lists[..0] == [];
    assert Flatten(lists) == [] + WidgetOptions(w);
  }

  /** One more widget after a prefix of `/Kids`: its options come last. */
  lemma RadioOptionsStep(kids: seq<Widget>, i: nat)
    requires i < |kids|
    ensures RadioOptions(kids[..i + 1]) == RadioOptions(kids[..i]) + WidgetOptions(kids[i])
  {
    assert kids[..i + 1] == kids[..i] + [kids[i]];
    RadioOptionsAppend(kids[..i], [kids[i]]);
    RadioOptionsOfOne(kids[i]);
  }

  /** A widget without `/AP /N` contributes nothing, wherever it stands. */
  lemma WidgetWithoutAppearancesAddsNothing(a: seq<Widget>, w: Widget, b: seq<Widget>)
    requires w.appearances.None?
    ensures RadioOptions(a + [w] + b) == RadioOptions(a + b)
  {
    RadioOptionsAppend(a + [w], b);
    RadioOptionsAppend(a, [w]);
    RadioOptionsAppend(a, b);
    assert WidgetOptionLists([w]) == [[]];
    assert Flatten<RadioOption>([[]]) == Flatten<RadioOption>([]) + [];
    assert RadioOptions(a) + [] == RadioOptions(a);
  }

  /** The loop over one widget's appearance keys. */
  method CollectOnStates(keys: seq<string>, rect: Option<seq<real>>) returns (options: seq<RadioOption>)
    ensures options == OnStates(keys, rect)
  {
    options := [];
    var j := 0;
    while j < |keys|
      invariant 0 <= j <= |keys|
      invariant options == OnStates(keys[..j], rect)
    {
      OnStatesStep(keys, j, rect);
      if keys[j] != "/Off" {
        options := options + [RadioOption(keys[j], rect)];
      }
      j := j + 1;
    }
    assert keys[..j] == keys;
  }

  /** One more appearance key: it adds its option unless it is `/Off`. */
  lemma OnStatesStep(keys: seq<string>, j: nat, rect: Option<seq<real>>)
    requires j < |keys|
    ensures keys[j] != "/Off" ==> OnStates(keys[..j + 1], rect) == OnStates(keys[..j], rect) + [RadioOption(keys[j], rect)]
    ensures keys[j] == "/Off" ==> OnStates(keys[..j + 1], rect) == OnStates(keys[..j], rect)
  {
    assert keys[..j + 1][..j] == keys[..j];
    if keys[j] == "/Off" {
      assert OnStates(keys[..j], rect) + [] == OnStates(keys[..j], rect);
    }
  }

  /** The nested loops over `/Kids` and their appearance keys. */
  method CollectRadioOptions(kids: seq<Widget>) returns (options: seq<RadioOption>)
    ensures options == RadioOptions(kids)
  {
    options := [];
    var i := 0;
    while i < |kids|
      invariant 0 <= i <= |kids|
      invariant options == RadioOptions(kids[..i])
    {
      var kid := kids[i];
      RadioOptionsStep(kids, i);
      if kid.appearances.Some? {
        var mine := CollectOnStates(kid.appearances.value, OptionRect(kid.rect));
        assert mine == WidgetOptions(kid);
        options := options + mine;
      } else {
        assert WidgetOptions(kid) == [];
        assert options + [] == options;
      }
      i := i + 1;
    }
    assert kids[..i] == kids;
  }

  /**
   * One `/Opt` element: a text is both value and display text; an array
   * gives its first element as value (`""` for an empty array) and its
   * second, else its first, as text, so an empty array raises an IndexError.
   */
  function ChoiceOptionOf(opt: OptEntry): (r: Result<ChoiceOption, Fault>)
    ensures r.Failure? <==> opt == Pair([])
    ensures r.Failure? ==> r.error == IndexOutOfRange
    ensures opt.Scalar? ==> r == Success(ChoiceOption(opt.text, opt.text))
    ensures opt.Pair? && |opt.items| >= 2 ==> r == Success(ChoiceOption(opt.items[0], opt.items[1]))
    ensures opt.Pair? && |opt.items| == 1 ==> r == Success(ChoiceOption(opt.items[0], opt.items[0]))
  {
    match opt
    case Scalar(s) => Success(ChoiceOption(s, s))
    case Pair(items) =>
      var value := if items != [] then items[0] else "";
      if |items| > 1 then Success(ChoiceOption(value, items[1]))
      else if items != [] then Success(ChoiceOption(value, items[0]))
      else Failure(IndexOutOfRange)
  }

  function OptionStep(opt: OptEntry): Result<seq<ChoiceOption>, Fault> {
    match ChoiceOptionOf(opt)
    case Failure(e) => Failure(e)
    case Success(o) => Success([o])
  }

  function OptionSteps(opts: seq<OptEntry>): (r: seq<Result<seq<ChoiceOption>, Fault>>)
    ensures |r| == |opts|
    ensures forall k :: 0 <= k < |opts| ==> r[k] == OptionStep(opts[k])
  {
    seq(|opts|, k requires 0 <= k < |opts| => OptionStep(opts[k]))
  }

  /** `choice_options`: one option per `/Opt` element, in order, unless an empty array raises. */
  function ChoiceOptions(opts: seq<OptEntry>): (r: Result<seq<ChoiceOption>, Fault>)
    ensures r.Success? <==> Pair([]) !in opts
    ensures r.Failure? ==> r.error == IndexOutOfRange
    ensures r.Success? ==> (|r.value| == |opts| &&
      forall k :: 0 <= k < |opts| ==> r.value[k] == ChoiceOptionOf(opts[k]).value)
  {
    var steps := OptionSteps(opts);
    assert Pair([]) in opts <==> exists k :: 0 <= k < |opts| && steps[k].Failure?;
    ConcatFault(steps, e => e == IndexOutOfRange);
    if Pair([]) !in opts then
      ConcatSingletons(steps);
      Concat(steps)
    else
      Concat(steps)
  }

  /** The body of the loop over `/Opt`: the option of one element. */
  method ReadChoiceOption(opt: OptEntry) returns (r: Result<ChoiceOption, Fault>)
    ensures r == ChoiceOptionOf(opt)
  {
    match opt {
    case Pair(items) =>
      var value := if items != [] then items[0] else "";
      if |items| > 1 {
        r := Success(ChoiceOption(value, items[1]));
      } else if items != [] {
        r := Success(ChoiceOption(value, items[0]));
      } else {
        r := Failure(IndexOutOfRange);
      }
    case Scalar(s) =>
      r := Success(ChoiceOption(s, s));
    }
  }

  /** The loop over `/Opt`. */
  method CollectChoiceOptions(opts: seq<OptEntry>) returns (r: Result<seq<ChoiceOption>, Fault>)
    ensures r == ChoiceOptions(opts)
  {
    ghost var steps := OptionSteps(opts);
    var options: seq<ChoiceOption> := [];
    var i := 0;
    while i < |opts|
      invariant 0 <= i <= |opts|
      invariant Concat(steps[..i]) == Success(options)
    {
      ConcatStep(steps, i);
      var option := ReadChoiceOption(opts[i]);
      if option.Failure? {
        return Failure(option.error);
      }
      options := options + [option.value];
      i := i + 1;
    }
    assert steps[..i] == steps;
    r := Success(options);
  }

  /** The position of the first page whose reference is `p`. */
  function FirstPageWith(pages: seq<nat>, p: nat): (r: Option<nat>)
    ensures r.Some? ==> r.value < |pages| && pages[r.value] == p && p !in pages[..r.value]
    ensures r.None? <==> p !in pages
  {
    if pages == [] then None
    else if pages[0] == p then Some(0)
    else match FirstPageWith(pages[1..], p)
      case None => None
      case Some(i) =>
        assert pages[..i + 1] == [pages[0]] + pages[1..][..i];
        Some(i + 1)
  }

  /** `page`: 1 plus the position of the page `/P` refers to; 1 when `/P` is absent or matches no page. */
  function PageNumber(pages: seq<nat>, p: Option<nat>): (n: nat)
    ensures 1 <= n && (n <= |pages| || n == 1)
    ensures p.Some? && p.value in pages ==> pages[n - 1] == p.value && p.value !in pages[..n - 1]
    ensures p.None? || p.value !in pages ==> n == 1
  {
    if p.None? then 1
    else match FirstPageWith(pages, p.value)
      case None => 1
      case Some(i) => i + 1
  }

  /** The page search, stopping at the first match. */
  method FindPage(pages: seq<nat>, p: Option<nat>) returns (pageNum: nat)
    ensures pageNum == PageNumber(pages, p)
  {
    pageNum := 1;
    if p.Some? {
      var i := 0;
      while i < |pages|
        invariant 0 <= i <= |pages|
        invariant p.value !in pages[..i]
      {
        if pages[i] == p.value {
          pageNum := i + 1;
          assert FirstPageWith(pages, p.value) == Some(i);
          return;
        }
        assert pages[..i + 1] == pages[..i] + [pages[i]];
        i := i + 1;
      }
      assert pages[..i] == pages;
    }
  }

  /** `rect`: the `/Rect` numbers, or `[0,0,0,0]` when the entry is missing or empty. */
  function RecordRect(rect: Option<seq<real>>): (r: seq<real>)
    ensures rect.Some? && rect.value != [] ==> r == rect.value
    ensures rect.None? || rect.value == [] ==> r == [0.0, 0.0, 0.0, 0.0]
  {
    match rect
    case None => [0.0, 0.0, 0.0, 0.0]
    case Some(xs) => if xs == [] then [0.0, 0.0, 0.0, 0.0] else xs
  }

  /** The record of one catalogue field. */
  function RecordOf(name: string, f: PdfField, pages: seq<nat>): (r: Result<FieldRecord, Fault>)
    ensures r.Failure? <==> TypeOf(f) == ChoiceTag && Pair([]) in f.options.GetOr([])
    ensures r.Failure? ==> r.error == IndexOutOfRange
    ensures r.Success? ==> (r.value.fieldId == name && r.value.page == PageNumber(pages, f.page) &&
      r.value.rect == RecordRect(f.rect))
    ensures r.Success? ==> match TypeOf(f)
      case TextTag => r.value.kind == Text
      case CheckboxTag => r.value.kind == Checkbox(CheckedValue(f.appearances), "/Off")
      case RadioTag => r.value.kind == RadioGroup(RadioOptions(f.kids.GetOr([])))
      case ChoiceTag => r.value.kind == Choice(ChoiceOptions(f.options.GetOr([])).value)
  {
    var base := FieldRecord(name, PageNumber(pages, f.page), RecordRect(f.rect), Text);
    match TypeOf(f)
    case TextTag => Success(base)
    case CheckboxTag => Success(base.(kind := Checkbox(CheckedValue(f.appearances), "/Off")))
    case RadioTag => Success(base.(kind := RadioGroup(RadioOptions(f.kids.GetOr([])))))
    case ChoiceTag =>
      match ChoiceOptions(f.options.GetOr([]))
      case Failure(e) => Failure(e)
      case Success(options) => Success(base.(kind := Choice(options)))
  }

  /** A checkbox is never unchecked by its on-value: the two values always differ. */
  lemma CheckboxValuesDiffer(name: string, f: PdfField, pages: seq<nat>)
    requires TypeOf(f) == CheckboxTag
    ensures RecordOf(name, f, pages).Success?
    ensures RecordOf(name, f, pages).value.kind.checkedValue != RecordOf(name, f, pages).value.kind.uncheckedValue
  {
  }

  function RecordStep(entry: (string, PdfField), pages: seq<nat>): (r: Result<seq<FieldRecord>, Fault>)
    ensures r.Failure? ==> r.error == IndexOutOfRange
  {
    match RecordOf(entry.0, entry.1, pages)
    case Failure(e) => Failure(e)
    case Success(rec) => Success([rec])
  }

  function RecordSteps(catalogue: seq<(string, PdfField)>, pages: seq<nat>): (r: seq<Result<seq<FieldRecord>, Fault>>)
    ensures |r| == |catalogue|
    ensures forall k :: 0 <= k < |catalogue| ==> r[k] == RecordStep(catalogue[k], pages)
  {
    seq(|catalogue|, k requires 0 <= k < |catalogue| => RecordStep(catalogue[k], pages))
  }

  /**
   * `extract_form_fields` once the PDF is read: `catalogue` is
   * `reader.get_fields()` in its order, `pages` the references of the pages.
   */
  function Extract(catalogue: seq<(string, PdfField)>, pages: seq<nat>): (r: Result<Extraction, Fault>)
    ensures r.Failure? ==> r.error == IndexOutOfRange
    ensures r.Success? ==> (r.value.NoFields? <==> catalogue == [])
  {
    if catalogue == [] then Success(NoFields)
    else
      var steps := RecordSteps(catalogue, pages);
      ConcatFault(steps, e => e == IndexOutOfRange);
      match Concat(steps)
      case Failure(e) => Failure(e)
      case Success(records) => Success(Written(records))
  }

  /** One record per catalogue field, in catalogue order, carrying the field's name. */
  lemma OneRecordPerField(catalogue: seq<(string, PdfField)>, pages: seq<nat>)
    requires catalogue != []
    requires Extract(catalogue, pages).Success?
    ensures Extract(catalogue, pages).value.Written?
    ensures |Extract(catalogue, pages).value.records| == |catalogue|
    ensures forall k :: 0 <= k < |catalogue| ==>
      Extract(catalogue, pages).value.records[k] == RecordOf(catalogue[k].0, catalogue[k].1, pages).value &&
      Extract(catalogue, pages).value.records[k].fieldId == catalogue[k].0
  {
    var steps := RecordSteps(catalogue, pages);
    forall k | 0 <= k < |steps| ensures steps[k].Success? && |steps[k].value| == 1 {
    }
    ConcatSingletons(steps);
  }

  /** The body of the loop over the catalogue: the record of one field. */
  method ReadFieldRecord(name: string, field: PdfField, pages: seq<nat>) returns (r: Result<FieldRecord, Fault>)
    ensures r == RecordOf(name, field, pages)
  {
    var pageNum := FindPage(pages, field.page);
    var rec := FieldRecord(name, pageNum, RecordRect(field.rect), Text);
    var fieldType := field.fieldType.GetOr("/Tx");
    if fieldType == "/Btn" {
      if field.flags.Some? && RadioFlagSet(field.flags.value) {
        var options := CollectRadioOptions(field.kids.GetOr([]));
        rec := rec.(kind := RadioGroup(options));
      } else {
        var checked := ScanCheckedValue(field.appearances);
        rec := rec.(kind := Checkbox(checked, "/Off"));
      }
    } else if fieldType == "/Ch" {
      var options := CollectChoiceOptions(field.options.GetOr([]));
      if options.Failure? {
        return Failure(options.error);
      }
      rec := rec.(kind := Choice(options.value));
    }
    r := Success(rec);
  }

  /** The loop over the catalogue. */
  method ExtractFormFields(catalogue: seq<(string, PdfField)>, pages: seq<nat>) returns (r: Result<Extraction, Fault>)
    ensures r == Extract(catalogue, pages)
  {
    if catalogue == [] {
      return Success(NoFields);
    }
    ghost var steps := RecordSteps(catalogue, pages);
    var records: seq<FieldRecord> := [];
    var i := 0;
    while i < |catalogue|
      invariant 0 <= i <= |catalogue|
      invariant Concat(steps[..i]) == Success(records)
    {
      var (name, field) := catalogue[i];
      ConcatStep(steps, i);
      var rec := ReadFieldRecord(name, field, pages);
      if rec.Failure? {
        return Failure(rec.error);
      }
      records := records + [rec.value];
      i := i + 1;
    }
    assert steps[..i] == steps;
    r := Success(Written(records));
  }
}
