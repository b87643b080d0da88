/**
 * split_pdf.py: `parse_page_range` turns a 1-based range expression such as
 * "1-3,5" into 0-based page indices, and `extract_pages` copies those pages,
 * in that order, into a new document.
 */
module PageRange {
  import opened Wrappers
  import opened Faults
  import opened Text
  import opened Outcomes

  /** Python's `range(lo, hi)`. */
  function Range(lo: int, hi: int): (r: seq<int>)
    ensures |r| == if lo < hi then hi - lo else 0
    ensures forall k :: 0 <= k < |r| ==> r[k] == lo + k
    decreases hi - lo
  {
    if lo < hi then [lo] + Range(lo + 1, hi) else []
  }

  function Min(a: int, b: int): int {
    if a < b then a else b
  }

  /** The token, once stripped, is a span whose start is written as 0 ("0-2"). */
  predicate SpanFromZero(token: string) {
    var part := Strip(token);
    '-' in part && |Split(part, '-')| == 2 && ParseInt(Split(part, '-')[0]) == Some(0)
  }

  /**
   * What one comma-separated token adds: a span `a-b` gives `a-1` up to
   * `min(b, total) - 1`; a single page `n` gives `n-1` when it is in range and
   * nothing otherwise. The start of a span is not checked, so "0-…" yields -1,
   * but nothing lower: a start cannot carry a minus sign, that sign would be a
   * second separator.
   */
  function TokenPages(token: string, total: int): (r: Result<seq<int>, Fault>)
    ensures r.Success? ==> forall k :: 0 <= k < |r.value| ==> -1 <= r.value[k] < total
    ensures r.Success? && !SpanFromZero(token) ==> forall k :: 0 <= k < |r.value| ==> 0 <= r.value[k]
    ensures r.Success? ==> Strip(token) != []
    ensures r.Failure? ==> r.error == BadUnpack || r.error == NotAnInteger
  {
    var part := Strip(token);
    if '-' in part then
      var halves := Split(part, '-');
      if |halves| != 2 then Failure(BadUnpack)
      else
        match (ParseInt(halves[0]), ParseInt(halves[1]))
        case (Some(first), Some(last)) =>
          assert '-' !in halves[0] && first >= 0;
          assert SpanFromZero(token) <==> first == 0;
          Success(SpanPages(first, last, total))
        case _ => Failure(NotAnInteger)
    else
      match ParseInt(part)
      case Some(n) => Success(if 0 <= n - 1 < total then [n - 1] else [])
      case None => Failure(NotAnInteger)
  }

  /** The pages of a span `first-last`: from `first - 1` up to the last page of the document. */
  function SpanPages(first: int, last: int, total: int): (r: seq<int>)
    ensures forall k :: 0 <= k < |r| ==> first - 1 <= r[k] < total
  {
    Range(first - 1, Min(last, total))
  }

  /** No digit is a minus sign. */
  lemma DigitsHaveNoDash(d: string)
    requires AllDigits(d)
    ensures '-' !in d
  {
  }

  /** A token whose stripped text has no `-` is a single page number. */
  lemma SingleTokenCase(token: string, n: int, total: int)
    requires '-' !in Strip(token) && ParseInt(Strip(token)) == Some(n)
    ensures TokenPages(token, total) == Success(if 1 <= n <= total then [n - 1] else [])
  {
    var part := Strip(token);
    assert !('-' in part);
    assert (0 <= n - 1 < total) == (1 <= n <= total);
  }

  /** A token whose stripped text splits at its one `-` into two integers is a span. */
  lemma SpanTokenCase(token: string, x: string, y: string, a: int, b: int, total: int)
    requires Split(Strip(token), '-') == [x, y]
    requires ParseInt(x) == Some(a) && ParseInt(y) == Some(b)
    ensures TokenPages(token, total) == Success(Range(a - 1, Min(b, total)))
  {
    var part := Strip(token);
    assert '-' in part by {
      if '-' !in part {
        SplitWithoutSeparator(part, '-');
      }
    }
  }

  /** Whitespace around the digits of `n` is stripped away. */
  lemma StripDecimalString(n: nat, pre: string, post: string)
    requires AllSpaces(pre) && AllSpaces(post)
    ensures Strip(pre + DecimalString(n) + post) == DecimalString(n)
  {
    var d := DecimalString(n);
    assert IsDigit(d[0]) && IsDigit(d[|d| - 1]);
    StripPadded(pre, d, post);
  }

  lemma ParseBareDecimalString(n: nat)
    ensures ParseInt(DecimalString(n)) == Some(n)
  {
    ParseDigits(DecimalString(n));
  }

  /** A single page number contributes its 0-based index iff it lies in 1..total. */
  lemma SinglePageToken(n: nat, total: int, pre: string, post: string)
    requires AllSpaces(pre) && AllSpaces(post)
    ensures TokenPages(pre + DecimalString(n) + post, total) ==
      Success(if 1 <= n <= total then [n - 1] else [])
  {
    StripDecimalString(n, pre, post);
    ParseBareDecimalString(n);
    DigitsHaveNoDash(DecimalString(n));
    SingleTokenCase(pre + DecimalString(n) + post, n, total);
  }

  /** `a-b` is its own stripped text. */
  lemma StripSpan(da: string, db: string)
    requires AllDigits(da) && AllDigits(db) && da != [] && db != []
    ensures Strip(da + "-" + db) == da + "-" + db
  {
    var token := da + "-" + db;
    assert token[0] == da[0];
    assert token[|token| - 1] == db[|db| - 1];
    StripPadded([], token, []);
    assert [] + token + [] == token;
  }

  /** `a-b` splits into its two numbers. */
  lemma SplitSpan(da: string, db: string)
    requires AllDigits(da) && AllDigits(db)
    ensures Split(da + "-" + db, '-') == [da, db]
  {
    DigitsHaveNoDash(da);
    DigitsHaveNoDash(db);
    assert da + "-" + db == Join([da, db], '-');
    SplitJoin([da, db], '-');
  }

  /** A span `a-b` contributes a-1, …, min(b, total)-1, which is empty when a > min(b, total). */
  lemma SpanToken(a: nat, b: nat, total: int)
    ensures TokenPages(DecimalString(a) + "-" + DecimalString(b), total) ==
      Success(Range(a - 1, Min(b, total)))
  {
    var da, db := DecimalString(a), DecimalString(b);
    StripSpan(da, db);
    SplitSpan(da, db);
    ParseBareDecimalString(a);
    ParseBareDecimalString(b);
    SpanTokenCase(da + "-" + db, da, db, a, b, total);
  }

  /** A token with two or more `-` cannot be unpacked into a start and an end. */
  lemma TooManyDashesFails(token: string, total: int)
    requires multiset(Strip(token))['-'] >= 2
    ensures TokenPages(token, total) == Failure(BadUnpack)
  {
    var part := Strip(token);
    SplitCount(part, '-');
    assert '-' in multiset(part);
  }

  /** An empty token (as a trailing comma leaves) is not an integer. */
  lemma EmptyTokenFails(token: string, total: int)
    requires AllSpaces(token)
    ensures TokenPages(token, total) == Failure(NotAnInteger)
  {
    StripPadded(token, [], []);
    assert token + [] + [] == token;
  }

  /** The contribution of each token, in token order. */
  function Contributions(tokens: seq<string>, total: int): (r: seq<Result<seq<int>, Fault>>)
    ensures |r| == |tokens|
    ensures forall k :: 0 <= k < |tokens| ==> r[k] == TokenPages(tokens[k], total)
  {
    seq(|tokens|, k requires 0 <= k < |tokens| => TokenPages(tokens[k], total))
  }

  /**
   * `parse_page_range(range_str, total_pages)` as a value: the concatenation,
   * in token order, of what each comma-separated token contributes; the first
   * failing token aborts the whole parse.
   */
  function PageRangeOf(rangeStr: string, total: int): (r: Result<seq<int>, Fault>)
    ensures r.Success? <==> AllTokensParse(Split(rangeStr, ','), total)
    ensures r.Failure? ==> r.error == BadUnpack || r.error == NotAnInteger
  {
    var tokens := Split(rangeStr, ',');
    ContributionsOutcome(tokens, total);
    Concat(Contributions(tokens, total))
  }

  /** Every comma-separated token parses on its own. */
  predicate AllTokensParse(tokens: seq<string>, total: int) {
    forall k :: 0 <= k < |tokens| ==> TokenPages(tokens[k], total).Success?
  }

  /** The tokens' contributions concatenate iff each token parses, and fail only as a token does. */
  lemma ContributionsOutcome(tokens: seq<string>, total: int)
    ensures Concat(Contributions(tokens, total)).Success? <==> AllTokensParse(tokens, total)
    ensures Concat(Contributions(tokens, total)).Failure? ==>
      Concat(Contributions(tokens, total)).error == BadUnpack || Concat(Contributions(tokens, total)).error == NotAnInteger
  {
    var steps := Contributions(tokens, total);
    ConcatFault(steps, e => e == BadUnpack || e == NotAnInteger);
  }

  /** Every index produced lies in -1..total-1, and only a span written from 0 produces -1. */
  lemma PageRangeBounds(rangeStr: string, total: int)
    requires PageRangeOf(rangeStr, total).Success?
    ensures forall x :: x in PageRangeOf(rangeStr, total).value ==> -1 <= x < total
    ensures (forall k :: 0 <= k < |Split(rangeStr, ',')| ==> !SpanFromZero(Split(rangeStr, ',')[k])) ==>
      forall x :: x in PageRangeOf(rangeStr, total).value ==> 0 <= x
  {
    var tokens := Split(rangeStr, ',');
    var steps := Contributions(tokens, total);
    assert forall k :: 0 <= k < |steps| ==> steps[k].Success?;
    ConcatAll(steps, x => -1 <= x < total);
    if forall k :: 0 <= k < |tokens| ==> !SpanFromZero(tokens[k]) {
      ConcatAll(steps, x => 0 <= x);
    }
  }

  /** Tokens parsed one list after another: the pages concatenate. */
  lemma ContributionsAppend(a: seq<string>, b: seq<string>, total: int)
    ensures Contributions(a + b, total) == Contributions(a, total) + Contributions(b, total)
  {
  }

  /** Text without a comma is one token. */
  lemma OneToken(t: string, total: int)
    requires ',' !in t
    ensures PageRangeOf(t, total) == TokenPages(t, total)
  {
    SplitWithoutSeparator(t, ',');
    assert Contributions([t], total) == [TokenPages(t, total)];
    ConcatSingle(TokenPages(t, total));
  }

  /**
   * Parsing `s,t` parses `s` and then `t`: the pages concatenate, and the
   * first fault, if any, is the fault of the whole.
   */
  lemma CommaJoin(s: string, t: string, total: int)
    ensures PageRangeOf(s, total).Failure? ==> PageRangeOf(s + [','] + t, total) == PageRangeOf(s, total)
    ensures PageRangeOf(s, total).Success? && PageRangeOf(t, total).Failure? ==>
      PageRangeOf(s + [','] + t, total) == PageRangeOf(t, total)
    ensures PageRangeOf(s, total).Success? && PageRangeOf(t, total).Success? ==>
      PageRangeOf(s + [','] + t, total) == Success(PageRangeOf(s, total).value + PageRangeOf(t, total).value)
  {
    SplitAtSeparator(s, t, ',');
    ContributionsAppend(Split(s, ','), Split(t, ','), total);
    ConcatAppend(Contributions(Split(s, ','), total), Contributions(Split(t, ','), total));
  }

  /** A trailing comma adds an empty token: the parse fails, with the earlier fault if there was one. */
  lemma TrailingCommaFails(rangeStr: string, total: int)
    ensures PageRangeOf(rangeStr + ",", total) ==
      if PageRangeOf(rangeStr, total).Failure? then PageRangeOf(rangeStr, total) else Failure(NotAnInteger)
  {
    assert rangeStr + "," == rangeStr + [','] + [];
    OneToken([], total);
    EmptyTokenFails([], total);
    assert PageRangeOf([], total) == Failure(NotAnInteger);
    CommaJoin(rangeStr, [], total);
  }

  /** A span alone selects a-1 up to min(b, total)-1. */
  lemma SpanRange(a: nat, b: nat, total: int)
    ensures PageRangeOf(DecimalString(a) + "-" + DecimalString(b), total) == Success(Range(a - 1, Min(b, total)))
  {
    var t := DecimalString(a) + "-" + DecimalString(b);
    assert ',' !in t by {
      DigitsHaveNoDash(DecimalString(a));
      assert forall k :: 0 <= k < |t| ==> t[k] == '-' || IsDigit(t[k]);
    }
    OneToken(t, total);
    SpanToken(a, b, total);
  }

  /** What a page number `n` alone contributes. */
  function PageOrNothing(n: nat, total: int): seq<int> {
    if 1 <= n <= total then [n - 1] else []
  }

  /** A page number after some whitespace: the whitespace is stripped. */
  lemma PaddedPageRange(pre: string, n: nat, total: int)
    requires AllSpaces(pre)
    ensures PageRangeOf(pre + DecimalString(n), total) == Success(PageOrNothing(n, total))
  {
    var t := pre + DecimalString(n);
    assert ',' !in t by {
      assert forall k :: 0 <= k < |t| ==> IsSpace(t[k]) || IsDigit(t[k]);
    }
    OneToken(t, total);
    SinglePageToken(n, total, pre, []);
    assert pre + DecimalString(n) + [] == t;
  }

  /** "a-b,n": the span's pages, then the page. */
  lemma SpanThenPage(a: nat, b: nat, n: nat, total: int)
    ensures PageRangeOf((DecimalString(a) + "-" + DecimalString(b)) + [','] + DecimalString(n), total) ==
      Success(Range(a - 1, Min(b, total)) + PageOrNothing(n, total))
  {
    SpanRange(a, b, total);
    PaddedPageRange([], n, total);
    assert [] + DecimalString(n) == DecimalString(n);
    CommaJoin(DecimalString(a) + "-" + DecimalString(b), DecimalString(n), total);
  }

  /** "n1,<pre>n2,n3": three pages, in the order written. */
  lemma ThreePages(n1: nat, pre: string, n2: nat, n3: nat, total: int)
    requires AllSpaces(pre)
    ensures PageRangeOf((DecimalString(n1) + [','] + (pre + DecimalString(n2))) + [','] + DecimalString(n3), total) ==
      Success(PageOrNothing(n1, total) + PageOrNothing(n2, total) + PageOrNothing(n3, total))
  {
    TwoPages(n1, pre, n2, total);
    PaddedPageRange([], n3, total);
    assert [] + DecimalString(n3) == DecimalString(n3);
    CommaJoin(DecimalString(n1) + [','] + (pre + DecimalString(n2)), DecimalString(n3), total);
  }

  /** "n1,<pre>n2": two pages, in the order written. */
  lemma TwoPages(n1: nat, pre: string, n2: nat, total: int)
    requires AllSpaces(pre)
    ensures PageRangeOf(DecimalString(n1) + [','] + (pre + DecimalString(n2)), total) ==
      Success(PageOrNothing(n1, total) + PageOrNothing(n2, total))
  {
    PaddedPageRange([], n1, total);
    PaddedPageRange(pre, n2, total);
    assert [] + DecimalString(n1) == DecimalString(n1);
    CommaJoin(DecimalString(n1), pre + DecimalString(n2), total);
  }

  /*
   * The examples below name their input through a parameter and keep every
   * computation on literals in a lemma of its own: a literal argument would
   * make the verifier evaluate the whole parser eagerly.
   */

  lemma Spelling1To3And5()
    ensures "1-3,5" == (DecimalString(1) + "-" + DecimalString(3)) + [','] + DecimalString(5)
  {
  }

  lemma Value1To3And5()
    ensures Range(1 - 1, Min(3, 10)) + PageOrNothing(5, 10) == [0, 1, 2, 4]
  {
    assert Range(0, 3) == [0, 1, 2];
  }

  lemma Example1To3And5(rangeStr: string)
    requires rangeStr == "1-3,5"
    ensures PageRangeOf(rangeStr, 10) == Success([0, 1, 2, 4])
  {
    Spelling1To3And5();
    SpanThenPage(1, 3, 5, 10);
    Value1To3And5();
  }

  lemma SpellingDropsOutOfRange()
    ensures "1,3,5" == (DecimalString(1) + [','] + ([] + DecimalString(3))) + [','] + DecimalString(5)
  {
  }

  lemma ValueDropsOutOfRange()
    ensures PageOrNothing(1, 4) + PageOrNothing(3, 4) + PageOrNothing(5, 4) == [0, 2]
  {
  }

  lemma ExampleDropsOutOfRange(rangeStr: string)
    requires rangeStr == "1,3,5"
    ensures PageRangeOf(rangeStr, 4) == Success([0, 2])
  {
    SpellingDropsOutOfRange();
    ThreePages(1, [], 3, 5, 4);
    ValueDropsOutOfRange();
  }

  lemma SpellingClampsSpanEnd()
    ensures "8-12" == DecimalString(8) + "-" + DecimalString(12)
  {
  }

  lemma ValueClampsSpanEnd()
    ensures Range(8 - 1, Min(12, 10)) == [7, 8, 9]
  {
  }

  lemma ExampleClampsSpanEnd(rangeStr: string)
    requires rangeStr == "8-12"
    ensures PageRangeOf(rangeStr, 10) == Success([7, 8, 9])
  {
    SpellingClampsSpanEnd();
    SpanRange(8, 12, 10);
    ValueClampsSpanEnd();
  }

  lemma SpellingKeepsOrderAndRepeats()
    ensures "3, 1,1" == (DecimalString(3) + [','] + (" " + DecimalString(1))) + [','] + DecimalString(1)
  {
  }

  lemma ValueKeepsOrderAndRepeats()
    ensures PageOrNothing(3, 5) + PageOrNothing(1, 5) + PageOrNothing(1, 5) == [2, 0, 0]
  {
  }

  /** The result is neither sorted nor deduplicated, and spaces around tokens are ignored. */
  lemma ExampleKeepsOrderAndRepeats(rangeStr: string)
    requires rangeStr == "3, 1,1"
    ensures PageRangeOf(rangeStr, 5) == Success([2, 0, 0])
  {
    SpellingKeepsOrderAndRepeats();
    ThreePages(3, " ", 1, 1, 5);
    ValueKeepsOrderAndRepeats();
  }

  lemma SpellingSpanFromZero()
    ensures "0-2" == DecimalString(0) + "-" + DecimalString(2)
  {
  }

  lemma ValueSpanFromZero(a: nat, b: nat, total: int)
    requires a == 0 && b == 2 && total == 10
    ensures Range(a - 1, Min(b, total)) == [-1, 0, 1]
  {
  }

  /** A span written from 0 yields the index -1. */
  lemma ExampleSpanFromZero(rangeStr: string, total: int)
    requires rangeStr == "0-2" && total == 10
    ensures PageRangeOf(rangeStr, total) == Success([-1, 0, 1])
  {
    var a, b := 0, 2;
    SpellingSpanFromZero();
    SpanRange(a, b, total);
    ValueSpanFromZero(a, b, total);
  }

  /** `parse_page_range`: the loop over the comma-separated tokens. */
  method ParsePageRange(rangeStr: string, total: int) returns (r: Result<seq<int>, Fault>)
    ensures r == PageRangeOf(rangeStr, total)
  {
    var tokens := Split(rangeStr, ',');
    ghost var steps := Contributions(tokens, total);
    var pages: seq<int> := [];
    var i := 0;
    while i < |tokens|
      invariant 0 <= i <= |tokens|
      invariant Concat(steps[..i]) == Success(pages)
    {
      var contribution := TokenPages(tokens[i], total);
      ConcatStep(steps, i);
      if contribution.Failure? {
        return Failure(contribution.error);
      }
      pages := pages + contribution.value;
      i := i + 1;
    }
    assert steps[..i] == steps;
    r := Success(pages);
  }

  /**
   * `reader.pages[i]`: the page list indexes like a Python list, so a negative
   * index counts from the end; anything outside -n..n-1 raises.
   */
  function ResolveIndex(i: int, n: nat): (r: Option<nat>)
    ensures r.Some? <==> -(n as int) <= i < n
    ensures r.Some? ==> r.value < n && (if i >= 0 then r.value == i else r.value == n + i)
  {
    if 0 <= i < n then Some(i)
    else if -(n as int) <= i < 0 then Some(n + i)
    else None
  }

  /** What `extract_pages` writes, and the count it reports. */
  datatype Extracted<P> = Extracted(pages: seq<P>, count: nat)

  /** The pages of `doc` at the given indices, in that order. */
  function Select<P>(doc: seq<P>, indices: seq<int>): (r: Result<seq<P>, Fault>)
    ensures r.Success? <==> forall k :: 0 <= k < |indices| ==> ResolveIndex(indices[k], |doc|).Some?
    ensures r.Failure? ==> r.error == IndexOutOfRange
    ensures r.Success? ==> (|r.value| == |indices| &&
      forall k :: 0 <= k < |indices| ==> r.value[k] == doc[ResolveIndex(indices[k], |doc|).value])
  {
    if indices == [] then Success([])
    else
      var n := |indices| - 1;
      match Select(doc, indices[..n])
      case Failure(e) => Failure(e)
      case Success(before) =>
        match ResolveIndex(indices[n], |doc|)
        case None => Failure(IndexOutOfRange)
        case Some(j) => Success(before + [doc[j]])
  }

  lemma {:induction false} SelectFailurePropagates<P>(doc: seq<P>, indices: seq<int>, n: nat)
    requires n <= |indices|
    requires Select(doc, indices[..n]).Failure?
    ensures Select(doc, indices) == Failure(Select(doc, indices[..n]).error)
  {
    if n < |indices| {
      var m := |indices| - 1;
      assert indices[..m][..n] == indices[..n];
      SelectFailurePropagates(doc, indices[..m], n);
    } else {
      assert indices[..n] == indices;
    }
  }

  /** One more index after a prefix that selected pages: its page comes last, or it raises for the whole list. */
  lemma SelectStep<P>(doc: seq<P>, indices: seq<int>, i: nat)
    requires i < |indices|
    requires Select(doc, indices[..i]).Success?
    ensures ResolveIndex(indices[i], |doc|).Some? ==>
      Select(doc, indices[..i + 1]) == Success(Select(doc, indices[..i]).value + [doc[ResolveIndex(indices[i], |doc|).value]])
    ensures ResolveIndex(indices[i], |doc|).None? ==> Select(doc, indices) == Failure(IndexOutOfRange)
  {
    assert indices[..i + 1][..i] == indices[..i];
    assert indices[..i + 1][i] == indices[i];
    if ResolveIndex(indices[i], |doc|).None? {
      SelectFailurePropagates(doc, indices, i + 1);
    }
  }

  /** `extract_pages` once the document is read: parse, then add each page in turn. */
  method ExtractPages<P>(doc: seq<P>, rangeStr: string) returns (r: Result<Extracted<P>, Fault>)
    ensures PageRangeOf(rangeStr, |doc|).Failure? ==> r == Failure(PageRangeOf(rangeStr, |doc|).error)
    ensures PageRangeOf(rangeStr, |doc|).Success? ==>
      var indices := PageRangeOf(rangeStr, |doc|).value;
      match Select(doc, indices)
      case Success(pages) => r == Success(Extracted(pages, |indices|))
      case Failure(e) => r == Failure(e)
  {
    var parsed := ParsePageRange(rangeStr, |doc|);
    if parsed.Failure? {
      return Failure(parsed.error);
    }
    var indices := parsed.value;
    var written: seq<P> := [];
    var i := 0;
    while i < |indices|
      invariant 0 <= i <= |indices|
      invariant Select(doc, indices[..i]) == Success(written)
    {
      SelectStep(doc, indices, i);
      var j := ResolveIndex(indices[i], |doc|);
      if j.None? {
        return Failure(IndexOutOfRange);
      }
      written := written + [doc[j.value]];
      i := i + 1;
    }
    assert indices[..i] == indices;
    r := Success(Extracted(written, |indices|));
  }

  /** Indices in -1..n-1 all select a page of a non-empty document; -1 is the last one. */
  lemma SelectInRange<P>(doc: seq<P>, indices: seq<int>)
    requires |doc| > 0
    requires forall x :: x in indices ==> -1 <= x < |doc|
    ensures Select(doc, indices).Success?
    ensures forall k :: 0 <= k < |indices| ==>
      Select(doc, indices).value[k] == (if indices[k] >= 0 then doc[indices[k]] else doc[|doc| - 1])
  {
    forall k | 0 <= k < |indices|
      ensures ResolveIndex(indices[k], |doc|).Some?
    {
      assert indices[k] in indices;
    }
    var r := Select(doc, indices).value;
    forall k | 0 <= k < |indices|
      ensures r[k] == (if indices[k] >= 0 then doc[indices[k]] else doc[|doc| - 1])
    {
      assert indices[k] in indices;
      var j := ResolveIndex(indices[k], |doc|).value;
      assert r[k] == doc[j];
      if indices[k] < 0 {
        assert indices[k] == -1;
        assert j == |doc| - 1;
      }
    }
  }

  /**
   * On a non-empty document every parsed index selects a page: the output is
   * exactly the parsed pages in parsed order (index -1 being the last page).
   */
  lemma ExtractionSucceedsOnNonEmptyDocument<P>(doc: seq<P>, rangeStr: string)
    requires |doc| > 0
    requires PageRangeOf(rangeStr, |doc|).Success?
    ensures var indices := PageRangeOf(rangeStr, |doc|).value;
      Select(doc, indices).Success? &&
      forall k :: 0 <= k < |indices| ==>
        Select(doc, indices).value[k] == (if indices[k] >= 0 then doc[indices[k]] else doc[|doc| - 1])
  {
    PageRangeBounds(rangeStr, |doc|);
    SelectInRange(doc, PageRangeOf(rangeStr, |doc|).value);
  }

  lemma SpellingFromZeroToOne()
    ensures "0-1" == DecimalString(0) + "-" + DecimalString(1)
  {
  }

  lemma ValueFromZeroToOne(a: nat, b: nat, total: int)
    requires a == 0 && b == 1 && total == 0
    ensures Range(a - 1, Min(b, total)) == [-1]
  {
  }

  /** No index selects a page of an empty document. */
  lemma SelectFromEmpty<P>(doc: seq<P>, i: int)
    requires doc == []
    ensures Select(doc, [i]) == Failure(IndexOutOfRange)
  {
    assert [i][..0] == [];
  }

  /** On an empty document the span "0-1" yields index -1, which selects nothing and raises. */
  lemma ExtractionFromZeroOnEmptyDocumentFails<P>(doc: seq<P>, rangeStr: string)
    requires doc == [] && rangeStr == "0-1"
    ensures PageRangeOf(rangeStr, |doc|) == Success([-1])
    ensures Select(doc, [-1]) == Failure(IndexOutOfRange)
  {
    var a, b := 0, 1;
    SpellingFromZeroToOne();
    SpanRange(a, b, |doc|);
    ValueFromZeroToOne(a, b, |doc|);
    SelectFromEmpty(doc, -1);
  }
}
