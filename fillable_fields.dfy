/**
 * fill_fillable_fields.py: the field values are gathered into a dictionary
 * (a later entry for the same field replaces an earlier one, which keeps its
 * place); the PDF must have form fields, and every supplied field ID must be
 * one of them, or the script stops and lists the unknown IDs and the known
 * ones in sorted order. Otherwise the values are written into the form.
 */
module FillableFields {
  import opened Wrappers
  import opened Faults
  import opened Outcomes

  /** One entry of `field_values.json`; a missing `field_id` or `value` key is None. */
  datatype FieldValue = FieldValue(fieldId: Option<string>, value: Option<string>)

  /** A Python dict from field IDs to values, as its items in insertion order. */
  type Entries = seq<(string, string)>

  /** `d.keys()`, in order. */
  function Keys(d: Entries): (r: seq<string>)
    ensures |r| == |d|
    ensures forall i :: 0 <= i < |d| ==> r[i] == d[i].0
  {
    seq(|d|, i requires 0 <= i < |d| => d[i].0)
  }

  lemma KeysSnoc(d: Entries, n: nat)
    requires n < |d|
    ensures Keys(d[..n + 1]) == Keys(d[..n]) + [d[n].0]
  {
  }

  predicate Distinct(s: seq<string>) {
    forall i, j :: 0 <= i < j < |s| ==> s[i] != s[j]
  }

  /** The position of the first occurrence of `x` in `s`, or `|s|` when it does not occur. */
  function IndexOf(s: seq<string>, x: string): (i: nat)
    ensures i <= |s|
    ensures i < |s| <==> x in s
    ensures i < |s| ==> s[i] == x
    ensures x !in s[..i]
  {
    if s == [] then 0
    else if s[0] == x then 0
    else
      var j := IndexOf(s[1..], x);
      assert s[..1 + j] == [s[0]] + s[1..][..j];
      1 + j
  }

  lemma {:induction false} IndexOfAppend(s: seq<string>, x: string, y: string)
    ensures IndexOf(s + [x], y) == if y in s then IndexOf(s, y) else if y == x then |s| else |s| + 1
  {
    if s != [] {
      assert (s + [x])[1..] == s[1..] + [x];
      IndexOfAppend(s[1..], x, y);
    }
  }

  /** `d.get(k)`: the value stored under `k`. */
  function Lookup(d: Entries, k: string): Option<string> {
    var i := IndexOf(Keys(d), k);
    if i < |d| then Some(d[i].1) else None
  }

  /** `d[k] = v`: an existing key keeps its place and takes the new value; a new key goes last. */
  function Put(d: Entries, k: string, v: string): (r: Entries)
    ensures Keys(r) == if k in Keys(d) then Keys(d) else Keys(d) + [k]
  {
    if k in Keys(d) then seq(|d|, i requires 0 <= i < |d| => if d[i].0 == k then (k, v) else d[i])
    else d + [(k, v)]
  }

  /** After `d[k] = v`, looking up `k` gives `v` and every other key is unaffected. */
  lemma PutLookup(d: Entries, k: string, v: string, k': string)
    ensures Lookup(Put(d, k, v), k') == if k' == k then Some(v) else Lookup(d, k')
  {
    if k !in Keys(d) {
      IndexOfAppend(Keys(d), k, k');
    }
  }

  /** The value of the last pair with key `k`, scanning from the end. */
  function LastValue(pairs: Entries, k: string): Option<string> {
    if pairs == [] then None
    else if pairs[|pairs| - 1].0 == k then Some(pairs[|pairs| - 1].1)
    else LastValue(pairs[..|pairs| - 1], k)
  }

  /** `{item['field_id']: item['value'] for item in field_values}`, once the pairs are read. */
  function Dict(pairs: Entries): (r: Entries)
    ensures |r| <= |pairs|
  {
    if pairs == [] then []
    else
      var n := |pairs| - 1;
      Put(Dict(pairs[..n]), pairs[n].0, pairs[n].1)
  }

  /** The dictionary has each supplied ID exactly once, and no other key. */
  lemma {:induction false} DictKeys(pairs: Entries)
    ensures Distinct(Keys(Dict(pairs)))
    ensures forall k :: k in Keys(Dict(pairs)) <==> k in Keys(pairs)
  {
    if pairs != [] {
      var n := |pairs| - 1;
      DictKeys(pairs[..n]);
      KeysSnoc(pairs, n);
      assert pairs[..n + 1] == pairs;
    }
  }

  /** Last write wins: each ID maps to the value of its last occurrence. */
  lemma {:induction false} DictLookup(pairs: Entries, k: string)
    ensures Lookup(Dict(pairs), k) == LastValue(pairs, k)
  {
    if pairs != [] {
      var n := |pairs| - 1;
      DictLookup(pairs[..n], k);
      PutLookup(Dict(pairs[..n]), pairs[n].0, pairs[n].1, k);
    }
  }

  /** The keys of `s` appear in the order of their first occurrence in `ids`. */
  predicate FirstOccurrenceOrder(s: seq<string>, ids: seq<string>) {
    forall i, j :: 0 <= i < j < |s| ==> IndexOf(ids, s[i]) < IndexOf(ids, s[j])
  }

  /** The dictionary's keys keep the order in which each ID first appears. */
  lemma {:induction false} DictOrder(pairs: Entries)
    ensures FirstOccurrenceOrder(Keys(Dict(pairs)), Keys(pairs))
  {
    if pairs != [] {
      var n := |pairs| - 1;
      var d := Dict(pairs[..n]);
      DictOrder(pairs[..n]);
      DictKeys(pairs[..n]);
      KeysSnoc(pairs, n);
      assert pairs[..n + 1] == pairs;
      OrderSnoc(Keys(d), Keys(pairs[..n]), pairs[n].0);
    }
  }

  /**
   * One more ID at the end of the supplied IDs: the keys, which hold the same
   * IDs in first-occurrence order, stay in that order, with the ID added last
   * when it is new.
   */
  lemma OrderSnoc(keys: seq<string>, ids: seq<string>, x: string)
    requires FirstOccurrenceOrder(keys, ids)
    requires forall y :: y in keys <==> y in ids
    ensures FirstOccurrenceOrder(if x in keys then keys else keys + [x], ids + [x])
  {
    forall y | y in ids
      ensures IndexOf(ids + [x], y) == IndexOf(ids, y) < |ids|
    {
      IndexOfAppend(ids, x, y);
    }
    if x in keys {
      forall i, j | 0 <= i < j < |keys|
        ensures IndexOf(ids + [x], keys[i]) < IndexOf(ids + [x], keys[j])
      {
        assert keys[i] in keys && keys[j] in keys;
      }
    } else {
      IndexOfAppend(ids, x, x);
      var next := keys + [x];
      forall i, j | 0 <= i < j < |next|
        ensures IndexOf(ids + [x], next[i]) < IndexOf(ids + [x], next[j])
      {
        assert next[i] == keys[i] && keys[i] in keys;
        if j < |keys| {
          assert next[j] == keys[j] && keys[j] in keys;
        }
      }
    }
  }

  /** The number of distinct elements of a list without repetitions is its length. */
  lemma {:induction false} DistinctCardinality(s: seq<string>)
    requires Distinct(s)
    ensures |set x | x in s| == |s|
  {
    if s != [] {
      var n := |s| - 1;
      DistinctCardinality(s[..n]);
      assert (set x | x in s) == (set x | x in s[..n]) + {s[n]} by {
        assert s == s[..n] + [s[n]];
      }
      assert s[n] !in s[..n];
    }
  }

  /** `item['field_id']` and `item['value']` for one item: a missing key raises. */
  function ItemStep(item: FieldValue): Result<Entries, Fault> {
    if item.fieldId.Some? && item.value.Some? then Success([(item.fieldId.value, item.value.value)])
    else Failure(MissingKey)
  }

  /** The `(field_id, value)` pairs of the items, in order; an item missing either key raises. */
  function Pairs(items: seq<FieldValue>): (r: Result<Entries, Fault>)
    ensures r.Success? <==> forall k :: 0 <= k < |items| ==> items[k].fieldId.Some? && items[k].value.Some?
    ensures r.Failure? ==> r.error == MissingKey
    ensures r.Success? ==> |r.value| == |items|
    ensures r.Success? ==> forall k :: 0 <= k < |items| ==> r.value[k] == (items[k].fieldId.value, items[k].value.value)
  {
    var steps := seq(|items|, k requires 0 <= k < |items| => ItemStep(items[k]));
    assert forall k :: 0 <= k < |items| ==>
      (steps[k].Success? <==> items[k].fieldId.Some? && items[k].value.Some?);
    ConcatFault(steps, (e: Fault) => e == MissingKey);
    if forall k :: 0 <= k < |items| ==> items[k].fieldId.Some? && items[k].value.Some? then
      ConcatSingletons(steps);
      Concat(steps)
    else
      Concat(steps)
  }

  /** The IDs of `keys` that are not in `valid`, in the order of `keys`. */
  function Unknown(keys: seq<string>, valid: seq<string>): (r: seq<string>)
    ensures forall x :: x in r <==> x in keys && x !in valid
    ensures |r| <= |keys|
  {
    if keys == [] then []
    else
      var n := |keys| - 1;
      assert keys == keys[..n] + [keys[n]];
      Unknown(keys[..n], valid) + (if keys[n] in valid then [] else [keys[n]])
  }

  /** Filtering keeps the first-occurrence order of the keys, and so their distinctness. */
  lemma {:induction false} UnknownOrder(keys: seq<string>, valid: seq<string>, ids: seq<string>)
    requires FirstOccurrenceOrder(keys, ids)
    ensures FirstOccurrenceOrder(Unknown(keys, valid), ids)
  {
    if keys != [] {
      var n := |keys| - 1;
      assert FirstOccurrenceOrder(keys[..n], ids);
      UnknownOrder(keys[..n], valid, ids);
      var before := Unknown(keys[..n], valid);
      forall y | y in before
        ensures IndexOf(ids, y) < IndexOf(ids, keys[n])
      {
        var m :| 0 <= m < n && keys[..n][m] == y;
        assert keys[m] == y;
      }
      var r := Unknown(keys, valid);
      forall i, j | 0 <= i < j < |r|
        ensures IndexOf(ids, r[i]) < IndexOf(ids, r[j])
      {
        assert r[i] == before[i];
        if j < |before| {
          assert r[j] == before[j];
        } else {
          assert before[i] in before;
        }
      }
    }
  }

  /** A list whose elements have strictly increasing first positions has no repetitions. */
  lemma OrderedIsDistinct(s: seq<string>, ids: seq<string>)
    requires FirstOccurrenceOrder(s, ids)
    ensures Distinct(s)
  {
    forall i, j | 0 <= i < j < |s|
      ensures s[i] != s[j]
    {
      assert IndexOf(ids, s[i]) < IndexOf(ids, s[j]);
    }
  }

  /** Python's `<` on strings: code point by code point, a proper prefix first. */
  predicate Less(a: string, b: string) {
    if a == [] then b != []
    else if b == [] then false
    else if a[0] != b[0] then a[0] < b[0]
    else Less(a[1..], b[1..])
  }

  lemma {:induction false} LessIrreflexive(a: string)
    ensures !Less(a, a)
  {
    if a != [] {
      LessIrreflexive(a[1..]);
    }
  }

  lemma {:induction false} LessTransitive(a: string, b: string, c: string)
    requires Less(a, b) && Less(b, c)
    ensures Less(a, c)
  {
    if a != [] && a[0] == b[0] && b[0] == c[0] {
      LessTransitive(a[1..], b[1..], c[1..]);
    }
  }

  lemma {:induction false} LessTotal(a: string, b: string)
    ensures a == b || Less(a, b) || Less(b, a)
  {
    if a != [] && b != [] && a[0] == b[0] {
      LessTotal(a[1..], b[1..]);
      if a[1..] == b[1..] {
        assert a == [a[0]] + a[1..] && b == [b[0]] + b[1..];
      }
    }
  }

  predicate StrictlySorted(s: seq<string>) {
    forall i, j :: 0 <= i < j < |s| ==> Less(s[i], s[j])
  }

  /** `x` put into its place in a sorted list, unless it is there already. */
  function Insert(x: string, s: seq<string>): (r: seq<string>)
    ensures forall y :: y in r <==> y == x || y in s
  {
    if s == [] then [x]
    else if x == s[0] then s
    else if Less(x, s[0]) then [x] + s
    else [s[0]] + Insert(x, s[1..])
  }

  lemma {:induction false} InsertSorted(x: string, s: seq<string>)
    requires StrictlySorted(s)
    ensures StrictlySorted(Insert(x, s))
  {
    if s != [] && x != s[0] {
      if Less(x, s[0]) {
        forall j | 1 <= j < |s|
          ensures Less(x, s[j])
        {
          LessTransitive(x, s[0], s[j]);
        }
        var r := [x] + s;
        forall i, j | 0 <= i < j < |r|
          ensures Less(r[i], r[j])
        {
          if i > 0 {
            assert r[i] == s[i - 1] && r[j] == s[j - 1];
          }
        }
      } else {
        LessTotal(x, s[0]);
        assert StrictlySorted(s[1..]);
        InsertSorted(x, s[1..]);
        var t := Insert(x, s[1..]);
        forall k | 0 <= k < |t|
          ensures Less(s[0], t[k])
        {
          assert t[k] in t;
          if t[k] != x {
            var m :| 0 <= m < |s| - 1 && s[1..][m] == t[k];
            assert s[m + 1] == t[k];
          }
        }
        var r := [s[0]] + t;
        forall i, j | 0 <= i < j < |r|
          ensures Less(r[i], r[j])
        {
          assert r[j] == t[j - 1];
          if i > 0 {
            assert r[i] == t[i - 1];
          }
        }
      }
    }
  }

  /** `sorted(set(names))` */
  function SortedSet(names: seq<string>): (r: seq<string>)
    ensures forall x :: x in r <==> x in names
  {
    if names == [] then []
    else
      var n := |names| - 1;
      assert names == names[..n] + [names[n]];
      Insert(names[n], SortedSet(names[..n]))
  }

  lemma {:induction false} SortedSetSorted(names: seq<string>)
    ensures StrictlySorted(SortedSet(names))
  {
    if names != [] {
      var n := |names| - 1;
      SortedSetSorted(names[..n]);
      InsertSorted(names[n], SortedSet(names[..n]));
    }
  }

  /** A strictly sorted list is determined by its elements: the listing depends only on the set. */
  lemma {:induction false} StrictlySortedUnique(a: seq<string>, b: seq<string>)
    requires StrictlySorted(a) && StrictlySorted(b)
    requires forall x :: x in a <==> x in b
    ensures a == b
  {
    if a != [] {
      assert a[0] in a;
      assert b != [];
      var k :| 0 <= k < |b| && b[k] == a[0];
      assert b[0] in b;
      var m :| 0 <= m < |a| && a[m] == b[0];
      if k > 0 && m > 0 {
        LessTransitive(a[0], b[0], a[0]);
        LessIrreflexive(a[0]);
      }
      if k == 0 || m == 0 {
        assert a[0] == b[0];
      }
      forall x
        ensures x in a[1..] <==> x in b[1..]
      {
        if x in a[1..] {
          var i :| 0 <= i < |a| - 1 && a[1..][i] == x;
          assert Less(a[0], a[i + 1]);
          if x == a[0] {
            LessIrreflexive(x);
          }
          assert x in b;
          var j :| 0 <= j < |b| && b[j] == x;
          assert j != 0;
          assert b[1..][j - 1] == x;
        }
        if x in b[1..] {
          var i :| 0 <= i < |b| - 1 && b[1..][i] == x;
          assert Less(b[0], b[i + 1]);
          if x == b[0] {
            LessIrreflexive(x);
          }
          assert x in a;
          var j :| 0 <= j < |a| && a[j] == x;
          assert j != 0;
          assert a[1..][j - 1] == x;
        }
      }
      StrictlySortedUnique(a[1..], b[1..]);
      assert a == [a[0]] + a[1..] && b == [b[0]] + b[1..];
    }
  }

  /** Why the script stops without writing the form. */
  datatype FillFailure =
    | Raised(fault: Fault)                                 // an exception
    | NoFillableFields                                     // the PDF has no form fields
    | UnknownIds(invalid: seq<string>, valid: seq<string>) // the unknown IDs, then the known ones sorted

  /** The written form: the copied pages, the values set on the first page, and the count reported. */
  datatype Written = Written(pageCount: nat, values: Entries, reported: nat)

  /**
   * `fill_form_fields`, with the JSON loaded into `items`, the PDF's field
   * names (`reader.get_fields()`, None when it has none) in `catalogue`, and
   * the number of pages it has in `pageCount`.
   */
  function FillFields(items: seq<FieldValue>, catalogue: Option<seq<string>>, pageCount: nat): (r: Result<Written, FillFailure>)
    ensures r.Failure? && r.error.Raised? ==> r.error.fault == MissingKey || r.error.fault == IndexOutOfRange
    ensures r.Success? ==> r.value.pageCount == pageCount && r.value.reported == |r.value.values| <= |items|
  {
    match Pairs(items)
    case Failure(e) => Failure(Raised(e))
    case Success(pairs) =>
      var valuesDict := Dict(pairs);
      var fields := catalogue.GetOr([]);
      if fields == [] then Failure(NoFillableFields)
      else
        var invalid := Unknown(Keys(valuesDict), fields);
        if invalid != [] then Failure(UnknownIds(invalid, SortedSet(fields)))
        else if pageCount == 0 then Failure(Raised(IndexOutOfRange))
        else Success(Written(pageCount, valuesDict, |valuesDict|))
  }

  /**
   * The form is written exactly when every item has both keys, the PDF has
   * fields, every supplied ID is one of them and there is a first page.
   */
  lemma FillSucceedsIff(items: seq<FieldValue>, catalogue: Option<seq<string>>, pageCount: nat)
    ensures FillFields(items, catalogue, pageCount).Success? <==>
      Pairs(items).Success? && catalogue.Some? && catalogue.value != [] &&
      (forall k :: k in Keys(Pairs(items).value) ==> k in catalogue.value) &&
      pageCount > 0
  {
    if Pairs(items).Success? && catalogue.Some? {
      var keys := Keys(Dict(Pairs(items).value));
      DictKeys(Pairs(items).value);
      var invalid := Unknown(keys, catalogue.value);
      if invalid != [] {
        assert invalid[0] in invalid;
      }
    }
  }

  /**
   * What is written: each supplied ID with the value of its last occurrence,
   * in first-occurrence order, and a reported count equal to the number of
   * distinct IDs supplied.
   */
  lemma FilledValues(items: seq<FieldValue>, catalogue: Option<seq<string>>, pageCount: nat)
    requires FillFields(items, catalogue, pageCount).Success?
    ensures var pairs := Pairs(items).value;
      var w := FillFields(items, catalogue, pageCount).value;
      && w.pageCount == pageCount
      && (forall k :: Lookup(w.values, k) == LastValue(pairs, k))
      && FirstOccurrenceOrder(Keys(w.values), Keys(pairs))
      && w.reported == |set k | k in Keys(pairs)|
  {
    var pairs := Pairs(items).value;
    var d := Dict(pairs);
    assert FillFields(items, catalogue, pageCount).value == Written(pageCount, d, |d|);
    DictOrder(pairs);
    forall k
      ensures Lookup(d, k) == LastValue(pairs, k)
    {
      DictLookup(pairs, k);
    }
    DictSize(pairs);
  }

  /** The dictionary has one entry per distinct ID. */
  lemma DictSize(pairs: Entries)
    ensures |Dict(pairs)| == |set k | k in Keys(pairs)|
  {
    var d := Dict(pairs);
    DictKeys(pairs);
    DistinctCardinality(Keys(d));
    assert (set k | k in Keys(d)) == (set k | k in Keys(pairs));
  }

  /**
   * An ID the PDF does not have stops the script: it reports each unknown ID
   * once, in first-occurrence order, and then every known ID in sorted order.
   */
  lemma UnknownIdsReported(items: seq<FieldValue>, catalogue: Option<seq<string>>, pageCount: nat, id: string)
    requires Pairs(items).Success? && catalogue.Some? && catalogue.value != []
    requires id in Keys(Pairs(items).value) && id !in catalogue.value
    ensures var r := FillFields(items, catalogue, pageCount);
      r.Failure? && r.error.UnknownIds? &&
      var pairs := Pairs(items).value;
      && id in r.error.invalid
      && (forall x :: x in r.error.invalid <==> x in Keys(pairs) && x !in catalogue.value)
      && FirstOccurrenceOrder(r.error.invalid, Keys(pairs))
      && Distinct(r.error.invalid)
      && StrictlySorted(r.error.valid)
      && (forall x :: x in r.error.valid <==> x in catalogue.value)
  {
    var pairs := Pairs(items).value;
    DictKeys(pairs);
    DictOrder(pairs);
    UnknownOrder(Keys(Dict(pairs)), catalogue.value, Keys(pairs));
    OrderedIsDistinct(Unknown(Keys(Dict(pairs)), catalogue.value), Keys(pairs));
    SortedSetSorted(catalogue.value);
  }

  /** Without form fields the script stops before it looks at a single ID. */
  lemma NoFieldsStopsFirst(items: seq<FieldValue>, catalogue: Option<seq<string>>, pageCount: nat)
    requires Pairs(items).Success?
    requires catalogue.None? || catalogue.value == []
    ensures FillFields(items, catalogue, pageCount) == Failure(NoFillableFields)
  {
  }

  /** `fill_form_fields`, with its validation loop over the dictionary's keys. */
  method FillFormFields(items: seq<FieldValue>, catalogue: Option<seq<string>>, pageCount: nat)
    returns (r: Result<Written, FillFailure>)
    ensures r == FillFields(items, catalogue, pageCount)
  {
    var pairs := Pairs(items);
    if pairs.Failure? {
      return Failure(Raised(pairs.error));
    }
    var valuesDict := Dict(pairs.value);
    var fields := catalogue.GetOr([]);
    if fields == [] {
      return Failure(NoFillableFields);
    }
    var keys := Keys(valuesDict);
    var invalid: seq<string> := [];
    for i := 0 to |keys|
      invariant invalid == Unknown(keys[..i], fields)
    {
      assert keys[..i + 1][..i] == keys[..i];
      if keys[i] !in fields {
        invalid := invalid + [keys[i]];
      }
    }
    assert keys[..|keys|] == keys;
    if invalid != [] {
      return Failure(UnknownIds(invalid, SortedSet(fields)));
    }
    if pageCount == 0 {
      return Failure(Raised(IndexOutOfRange));
    }
    r := Success(Written(pageCount, valuesDict, |valuesDict|));
  }
}
