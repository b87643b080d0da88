/**
 * The string operations the scripts rely on: Python's `str.strip()`,
 * `str.split(sep)` with a one-character separator, `int()` on text and the
 * decimal rendering of a non-negative integer in an f-string.
 */
module Text {
  import opened Wrappers

  /** The characters Python's `str.strip()` and `int()` treat as whitespace. */
  predicate IsSpace(c: char) {
    || c == ' '
    || ('\t' <= c <= '\r')
    || ('\U{1C}' <= c <= '\U{1F}')
    || c == '\U{85}' || c == '\U{A0}' || c == '\U{1680}'
    || ('\U{2000}' <= c <= '\U{200A}')
    || c == '\U{2028}' || c == '\U{2029}' || c == '\U{202F}' || c == '\U{205F}' || c == '\U{3000}'
  }

  predicate AllSpaces(s: string) {
    forall i :: 0 <= i < |s| ==> IsSpace(s[i])
  }

  /** The number of whitespace characters at the start of `s`. */
  function LeadingSpaces(s: string): (n: nat)
    ensures n <= |s|
    ensures AllSpaces(s[..n])
    ensures n < |s| ==> !IsSpace(s[n])
  {
    if s != [] && IsSpace(s[0]) then 1 + LeadingSpaces(s[1..]) else 0
  }

  /** The number of whitespace characters at the end of `s`. */
  function TrailingSpaces(s: string): (n: nat)
    ensures n <= |s|
    ensures AllSpaces(s[|s| - n..])
    ensures n < |s| ==> !IsSpace(s[|s| - 1 - n])
  {
    if s != [] && IsSpace(s[|s| - 1]) then 1 + TrailingSpaces(s[..|s| - 1]) else 0
  }

  /** Python's `s.strip()`: `s` without its leading and trailing whitespace. */
  function Strip(s: string): (r: string)
    ensures r == [] || (!IsSpace(r[0]) && !IsSpace(r[|r| - 1]))
    ensures |r| <= |s|
  {
    var t := s[LeadingSpaces(s)..];
    t[..|t| - TrailingSpaces(t)]
  }

  /**
   * Strip removes exactly the whitespace padding: a core that neither starts
   * nor ends with whitespace comes back unchanged from any padding.
   */
  lemma StripPadded(pre: string, core: string, post: string)
    requires AllSpaces(pre) && AllSpaces(post)
    requires core == [] || (!IsSpace(core[0]) && !IsSpace(core[|core| - 1]))
    ensures Strip(pre + core + post) == core
  {
    var s := pre + core + post;
    if core == [] {
      assert AllSpaces(s) by {
        forall i | 0 <= i < |s| ensures IsSpace(s[i]) {
          if i < |pre| { assert s[i] == pre[i]; } else { assert s[i] == post[i - |pre|]; }
        }
      }
    } else {
      assert s[|pre|] == core[0];
      var n := LeadingSpaces(s);
      assert n == |pre|;
      var t := s[n..];
      assert t == core + post;
      assert t[|core| - 1] == core[|core| - 1];
      var m := TrailingSpaces(t);
      assert m == |post|;
      assert t[..|t| - m] == core;
    }
  }

  /** Python's `s.split(sep)`: the pieces of `s` between occurrences of `sep`. */
  function Split(s: string, sep: char): (parts: seq<string>)
    ensures |parts| >= 1
    ensures forall k :: 0 <= k < |parts| ==> sep !in parts[k]
  {
    if s == [] then [[]]
    else
      var rest := Split(s[1..], sep);
      if s[0] == sep then [[]] + rest else [[s[0]] + rest[0]] + rest[1..]
  }

  /** Python's `sep.join(parts)`. */
  function Join(parts: seq<string>, sep: char): string
    requires |parts| >= 1
  {
    if |parts| == 1 then parts[0] else parts[0] + [sep] + Join(parts[1..], sep)
  }

  /** Splitting loses nothing: joining the pieces gives back the text. */
  lemma {:induction false} JoinSplit(s: string, sep: char)
    ensures Join(Split(s, sep), sep) == s
  {
    if s != [] {
      JoinSplit(s[1..], sep);
      var rest := Split(s[1..], sep);
      if s[0] != sep && |rest| > 1 {
        assert Split(s, sep)[1..] == rest[1..];
      }
    }
  }

  /** Splitting `s` yields one more piece than `s` has separators. */
  lemma {:induction false} SplitCount(s: string, sep: char)
    ensures |Split(s, sep)| == multiset(s)[sep] + 1
  {
    if s != [] {
      SplitCount(s[1..], sep);
      assert s == [s[0]] + s[1..];
      assert multiset(s) == multiset{s[0]} + multiset(s[1..]);
    }
  }

  /** A piece free of `sep` followed by `sep` starts a new piece. */
  lemma {:induction false} SplitAfterPiece(piece: string, sep: char, rest: string)
    requires sep !in piece
    ensures Split(piece + [sep] + rest, sep) == [piece] + Split(rest, sep)
  {
    if piece == [] {
      assert piece + [sep] + rest == [sep] + rest;
    } else {
      assert (piece + [sep] + rest)[1..] == piece[1..] + [sep] + rest;
      SplitAfterPiece(piece[1..], sep, rest);
      assert [piece[0]] + piece[1..] == piece;
    }
  }

  /** Text free of `sep` is a single piece. */
  lemma {:induction false} SplitWithoutSeparator(s: string, sep: char)
    requires sep !in s
    ensures Split(s, sep) == [s]
  {
    if s != [] {
      SplitWithoutSeparator(s[1..], sep);
      assert [s[0]] + s[1..] == s;
    }
  }

  /** Joining pieces free of `sep` and splitting again gives back the pieces. */
  lemma {:induction false} SplitJoin(parts: seq<string>, sep: char)
    requires |parts| >= 1
    requires forall k :: 0 <= k < |parts| ==> sep !in parts[k]
    ensures Split(Join(parts, sep), sep) == parts
  {
    if |parts| == 1 {
      SplitWithoutSeparator(parts[0], sep);
    } else {
      SplitJoin(parts[1..], sep);
      SplitAfterPiece(parts[0], sep, Join(parts[1..], sep));
    }
  }

  /** Splitting at one occurrence of the separator splits the two sides independently. */
  lemma {:induction false} SplitAtSeparator(s: string, t: string, sep: char)
    ensures Split(s + [sep] + t, sep) == Split(s, sep) + Split(t, sep)
  {
    if s == [] {
      assert s + [sep] + t == [sep] + t;
    } else {
      assert (s + [sep] + t)[1..] == s[1..] + [sep] + t;
      SplitAtSeparator(s[1..], t, sep);
    }
  }

  predicate IsDigit(c: char) {
    '0' <= c <= '9'
  }

  predicate AllDigits(s: string) {
    forall i :: 0 <= i < |s| ==> IsDigit(s[i])
  }

  /** The value of a string of decimal digits, most significant first. */
  function DigitsValue(s: string): nat
    requires AllDigits(s)
  {
    if s == [] then 0 else 10 * DigitsValue(s[..|s| - 1]) + (s[|s| - 1] as int - '0' as int)
  }

  /** `t` without its leading sign, if it has one. */
  function Unsigned(t: string): (d: string)
    ensures |d| <= |t|
  {
    if t != [] && (t[0] == '+' || t[0] == '-') then t[1..] else t
  }

  /** -1 for text that starts with a minus sign, 1 otherwise. */
  function SignOf(t: string): int {
    if t != [] && t[0] == '-' then -1 else 1
  }

  /** An optional `+` or `-` followed by one or more decimal digits. */
  predicate IntegerLiteral(t: string) {
    Unsigned(t) != [] && AllDigits(Unsigned(t))
  }

  /**
   * Python's `int(s)` on text: optional surrounding whitespace, an optional
   * `+` or `-`, then one or more decimal digits; anything else is None (a
   * ValueError in Python).
   */
  function ParseInt(s: string): (r: Option<int>)
    ensures r.Some? <==> IntegerLiteral(Strip(s))
    ensures r.Some? ==> r.value == SignOf(Strip(s)) * DigitsValue(Unsigned(Strip(s)))
    ensures r.Some? ==> Strip(s) != []
    ensures '-' !in s && r.Some? ==> r.value >= 0
  {
    var t := Strip(s);
    if t != [] && (t[0] == '+' || t[0] == '-') then
      var digits := t[1..];
      if digits != [] && AllDigits(digits) then
        Some(if t[0] == '-' then -(DigitsValue(digits) as int) else DigitsValue(digits))
      else None
    else if t != [] && AllDigits(t) then Some(DigitsValue(t))
    else None
  }

  /** The decimal rendering of `n`, as `f'{n}'` or `str(n)` gives it. */
  function DecimalString(n: nat): (r: string)
    ensures r != [] && AllDigits(r)
    ensures DigitsValue(r) == n
    ensures r[0] != '0' || n == 0
  {
    var last := ['0' + ((n % 10) as char)];
    if n < 10 then last else DecimalString(n / 10) + last
  }

  /** `int(str(n))` gives back `n`, whatever whitespace surrounds the digits. */
  lemma ParseDecimalString(n: nat, pre: string, post: string)
    requires AllSpaces(pre) && AllSpaces(post)
    ensures ParseInt(pre + DecimalString(n) + post) == Some(n)
  {
    var d := DecimalString(n);
    assert IsDigit(d[0]) && IsDigit(d[|d| - 1]);
    StripPadded(pre, d, post);
  }

  /**
   * `int()` on a few texts: padding and leading zeros are accepted, as is a
   * `+`, and `-0` is zero.
   */
  lemma ParseIntAccepts()
    ensures ParseInt(" 007 ") == Some(7)
    ensures ParseInt("+12") == Some(12)
    ensures ParseInt("-0") == Some(0)
  {
    ParsePaddedZeros();
    ParsePlus();
    ParseMinusZero();
  }

  /** Inner whitespace, a lone sign and the empty text are refused (a ValueError). */
  lemma ParseIntRejects()
    ensures ParseInt("1 2") == None
    ensures ParseInt("+") == None
    ensures ParseInt("") == None
  {
    ParseInnerSpace();
    ParseLoneSign();
  }

  lemma ParsePaddedZeros()
    ensures ParseInt(" 007 ") == Some(7)
  {
    var pad, d := " ", "007";
    ValueWithLeadingZeros(d);
    ParsePaddedDigits(pad, d, pad);
    assert pad + d + pad == " 007 ";
  }

  lemma ValueWithLeadingZeros(d: string)
    requires d == "007"
    ensures AllDigits(d) && DigitsValue(d) == 7
  {
    var z, zz := d[..1], d[..2];
    assert z[..0] == [] && zz[..1] == z;
    assert DigitsValue(z) == 0;
    assert DigitsValue(zz) == 10 * DigitsValue(z) + 0;
    assert DigitsValue(d) == 10 * DigitsValue(zz) + 7;
  }

  lemma ParsePlus()
    ensures ParseInt("+12") == Some(12)
  {
    var none := "";
    StripPadded(none, "+12", none);
    assert none + "+12" + none == "+12";
    assert "+12"[1..] == "12" && "12"[..1] == "1" && "1"[..0] == [];
    assert DigitsValue("1") == 1;
    assert DigitsValue("12") == 12;
  }

  lemma ParseMinusZero()
    ensures ParseInt("-0") == Some(0)
  {
    var none := "";
    StripPadded(none, "-0", none);
    assert none + "-0" + none == "-0";
    assert "-0"[1..] == "0";
  }

  lemma ParseInnerSpace()
    ensures ParseInt("1 2") == None
  {
    var none := "";
    StripPadded(none, "1 2", none);
    assert none + "1 2" + none == "1 2";
    assert !IsDigit("1 2"[1]);
  }

  lemma ParseLoneSign()
    ensures ParseInt("+") == None
  {
    var none := "";
    StripPadded(none, "+", none);
    assert none + "+" + none == "+";
    assert "+"[1..] == [];
  }

  /** Bare digits have nothing to strip and no sign: `int(digits)` is their value. */
  lemma ParseDigits(d: string)
    requires d != [] && AllDigits(d)
    ensures ParseInt(d) == Some(DigitsValue(d))
  {
    var none := "";
    assert IsDigit(d[0]) && IsDigit(d[|d| - 1]);
    StripPadded(none, d, none);
    assert none + d + none == d;
    assert d[0] != '+' && d[0] != '-';
  }

  /** Digits inside whitespace, leading zeros included, parse to their value. */
  lemma ParsePaddedDigits(pre: string, d: string, post: string)
    requires AllSpaces(pre) && AllSpaces(post)
    requires d != [] && AllDigits(d)
    ensures ParseInt(pre + d + post) == Some(DigitsValue(d))
  {
    assert IsDigit(d[0]) && IsDigit(d[|d| - 1]);
    StripPadded(pre, d, post);
    assert d[0] != '+' && d[0] != '-';
  }

  /** A minus sign followed by digits has nothing to strip. */
  lemma StripNegative(d: string)
    requires d != [] && AllDigits(d)
    ensures Strip(['-'] + d) == ['-'] + d
  {
    var s := ['-'] + d;
    assert s[|s| - 1] == d[|d| - 1];
    StripPadded([], s, []);
    assert [] + s + [] == s;
  }

  /** `int('-' + digits)` is minus the digits' value. */
  lemma ParseNegative(d: string)
    requires d != [] && AllDigits(d)
    ensures ParseInt(['-'] + d) == Some(-(DigitsValue(d) as int))
  {
    var s := ['-'] + d;
    StripNegative(d);
    assert s[0] == '-' && s[1..] == d;
  }

  /** `int('-' + str(n))` gives back `-n`. */
  lemma ParseNegativeDecimalString(n: nat)
    ensures ParseInt(['-'] + DecimalString(n)) == Some(-(n as int))
  {
    ParseNegative(DecimalString(n));
  }
}
