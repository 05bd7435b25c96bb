/**
 The three regular expressions of the translation catalog as scanners over the bytes of a
 message, each proved against a declarative reading of its expression.
 */
module Scanners {
  import opened Wrappers

  predicate IsDigit(c: char) { '0' <= c <= '9' }

  predicate IsFlag(c: char) {
    c == '-' || c == '#' || c == '+' || c == '0' || c == ',' || c == '(' || c == '<'
  }

  predicate IsConversion(c: char) {
    || 'a' <= c <= 'h' || c == 'n' || c == 'o' || c == 's' || c == 't' || c == 'x'
    || 'A' <= c <= 'C' || c == 'E' || c == 'G' || c == 'H' || c == 'S' || c == 'T' || c == 'X'
  }

  predicate IsVerb(c: char) { c == 's' || c == 'd' }

  /** The end of the longest run of digits from `i`. */
  function DigitsEnd(s: string, i: nat): (end: nat)
    requires i <= |s|
    ensures i <= end <= |s|
    ensures forall k :: i <= k < end ==> IsDigit(s[k])
    ensures end < |s| ==> !IsDigit(s[end])
    decreases |s| - i
  {
    if i < |s| && IsDigit(s[i]) then DigitsEnd(s, i + 1) else i
  }

  function FlagsEnd(s: string, i: nat): (end: nat)
    requires i <= |s|
    ensures i <= end <= |s|
    ensures forall k :: i <= k < end ==> IsFlag(s[k])
    ensures end < |s| ==> !IsFlag(s[end])
    decreases |s| - i
  {
    if i < |s| && IsFlag(s[i]) then FlagsEnd(s, i + 1) else i
  }

  // ------------------------------------------------------------ \{(\d+)\}

  datatype Span = Span(start: nat, end: nat)

  /** An occurrence of the expression. */
  ghost predicate IsPlaceholder(s: string, span: Span) {
    && span.start + 3 <= span.end <= |s|
    && s[span.start] == '{' && s[span.end - 1] == '}'
    && forall k :: span.start < k < span.end - 1 ==> IsDigit(s[k])
  }

  /** The match starting at `i`, if any. */
  function MatchAt(s: string, i: nat): (end: Option<nat>)
    ensures end.Some? ==> i + 3 <= end.value <= |s|
  {
    if i < |s| && s[i] == '{' then
      var j := DigitsEnd(s, i + 1);
      if j > i + 1 && j < |s| && s[j] == '}' then Some(j + 1) else None
    else None
  }

  lemma MatchAtExact(s: string, i: nat, j: nat)
    ensures MatchAt(s, i) == Some(j) <==> IsPlaceholder(s, Span(i, j))
  {
    if IsPlaceholder(s, Span(i, j)) {
      var end := DigitsEnd(s, i + 1);
      assert s[j - 1] == '}';
      assert end == j - 1;
    }
  }

  /** FindAll: the leftmost match, then the matches after its end. */
  function Spans(s: string, from: nat): seq<Span>
    decreases |s| - from
  {
    if from >= |s| then []
    else match MatchAt(s, from)
         case Some(end) => [Span(from, end)] + Spans(s, end)
         case None => Spans(s, from + 1)
  }

  /** The matches are exactly the occurrences: none overlaps another, so none is skipped. */
  lemma {:induction false} SpansExact(s: string, from: nat, span: Span)
    ensures span in Spans(s, from) <==> span.start >= from && IsPlaceholder(s, span)
    decreases |s| - from
  {
    if from < |s| {
      MatchAtExact(s, from, span.end);
      match MatchAt(s, from)
      case Some(end) =>
        MatchAtExact(s, from, end);
        SpansExact(s, end, span);
        if from < span.start < end {
          assert s[span.start] != '{';
        }
      case None =>
        SpansExact(s, from + 1, span);
    }
  }

  /** They are in bounds, increasing and disjoint, so every gap between them can be sliced. */
  lemma {:induction false} SpansIncrease(s: string, from: nat)
    ensures forall k :: 0 <= k < |Spans(s, from)| ==> from <= Spans(s, from)[k].start && Spans(s, from)[k].start + 3 <= Spans(s, from)[k].end <= |s|
    ensures forall k :: 0 < k < |Spans(s, from)| ==> Spans(s, from)[k - 1].end <= Spans(s, from)[k].start
    decreases |s| - from
  {
    if from < |s| {
      match MatchAt(s, from)
      case Some(end) => SpansIncrease(s, end);
      case None => SpansIncrease(s, from + 1);
    }
  }

  // ------------------------------------------------------------ %[sd]

  /** Whether the expression matches anywhere. */
  predicate HasVerb(s: string) {
    exists i :: 0 <= i < |s| - 1 && s[i] == '%' && IsVerb(s[i + 1])
  }

  // ---- ^%(?:\d+\$)?[-#+0,(<]*\d*(?:\.\d+)?[bBhHsScCdoxXeEfgGaAtTn]

  /** Where each part of the expression ends in a match of s[i..]. */
  ghost predicate IsJavaVerb(s: string, i: nat, start: nat, flags: nat, width: nat, precision: nat) {
    && i < |s| && s[i] == '%'
    && i < start <= flags <= width <= precision < |s|
    && (start == i + 1 || (start > i + 2 && s[start - 1] == '$' && forall k :: i < k < start - 1 ==> IsDigit(s[k])))
    && (forall k :: start <= k < flags ==> IsFlag(s[k]))
    && (forall k :: flags <= k < width ==> IsDigit(s[k]))
    && (precision == width || (precision > width + 1 && s[width] == '.' && forall k :: width < k < precision ==> IsDigit(s[k])))
    && IsConversion(s[precision])
  }

  /** The end of the optional argument index after a percent sign at `i`. */
  function IndexEnd(s: string, i: nat): (start: nat)
    requires i < |s|
    ensures i < start <= |s|
  {
    var digits := DigitsEnd(s, i + 1);
    if digits > i + 1 && digits < |s| && s[digits] == '$' then digits + 1 else i + 1
  }

  /** The end of the optional precision. */
  function PrecisionEnd(s: string, width: nat): (end: nat)
    requires width <= |s|
    ensures width <= end <= |s|
  {
    if width < |s| && s[width] == '.' && DigitsEnd(s, width + 1) > width + 1 then DigitsEnd(s, width + 1) else width
  }

  /** The end of flags and width. */
  function WidthEnd(s: string, start: nat): (end: nat)
    requires start <= |s|
    ensures start <= end <= |s|
  {
    DigitsEnd(s, FlagsEnd(s, start))
  }

  predicate JavaVerbAt(s: string, i: nat) {
    && i < |s| && s[i] == '%'
    && var precision := PrecisionEnd(s, WidthEnd(s, IndexEnd(s, i)));
       precision < |s| && IsConversion(s[precision])
  }

  /** Scanning every part greedily finds a match whenever there is one. */
  lemma JavaVerbExact(s: string, i: nat)
    ensures JavaVerbAt(s, i) <==>
            exists start: nat, flags: nat, width: nat, precision: nat :: IsJavaVerb(s, i, start, flags, width, precision)
  {
    if JavaVerbAt(s, i) {
      GreedyIsMatch(s, i);
    }
    if start: nat, flags: nat, width: nat, precision: nat :| IsJavaVerb(s, i, start, flags, width, precision) {
      MatchIsGreedy(s, i, start, flags, width, precision);
    }
  }

  lemma GreedyIsMatch(s: string, i: nat)
    requires JavaVerbAt(s, i)
    ensures exists start: nat, flags: nat, width: nat, precision: nat :: IsJavaVerb(s, i, start, flags, width, precision)
  {
    var start := IndexEnd(s, i);
    var flags := FlagsEnd(s, start);
    var width := DigitsEnd(s, flags);
    assert IsJavaVerb(s, i, start, flags, width, PrecisionEnd(s, width));
  }

  lemma MatchIsGreedy(s: string, i: nat, start: nat, flags: nat, width: nat, precision: nat)
    requires IsJavaVerb(s, i, start, flags, width, precision)
    ensures JavaVerbAt(s, i)
  {
    PlainConversion(s[width]);
    GreedyWidth(s, start, flags, width);
    GreedyIndex(s, i, start, flags, width);
    GreedyPrecision(s, width, precision);
  }

  lemma GreedyPrecision(s: string, width: nat, precision: nat)
    requires width <= precision < |s| && IsConversion(s[precision])
    requires precision == width || (precision > width + 1 && s[width] == '.' && forall k :: width < k < precision ==> IsDigit(s[k]))
    ensures PrecisionEnd(s, width) == precision
  {
    if precision > width {
      assert DigitsEnd(s, width + 1) == precision;
    }
  }

  lemma PlainConversion(c: char)
    ensures c == '.' || IsConversion(c) ==> !IsDigit(c) && !IsFlag(c)
  {
  }

  /** Neither flags nor digits can continue where the width ends. */
  lemma GreedyWidth(s: string, start: nat, flags: nat, width: nat)
    requires start <= flags <= width < |s|
    requires forall k :: start <= k < flags ==> IsFlag(s[k])
    requires forall k :: flags <= k < width ==> IsDigit(s[k])
    requires !IsDigit(s[width]) && !IsFlag(s[width])
    ensures WidthEnd(s, start) == width
  {
    var end := FlagsEnd(s, start);
    assert flags <= end <= width;
    assert end <= DigitsEnd(s, end) <= width;
  }

  lemma GreedyIndex(s: string, i: nat, start: nat, flags: nat, width: nat)
    requires i < start <= flags <= width < |s|
    requires start == i + 1 || (start > i + 2 && s[start - 1] == '$' && forall k :: i < k < start - 1 ==> IsDigit(s[k]))
    requires forall k :: start <= k < flags ==> IsFlag(s[k])
    requires forall k :: flags <= k < width ==> IsDigit(s[k])
    requires s[width] == '.' || IsConversion(s[width])
    ensures IndexEnd(s, i) == start
  {
    var digits := DigitsEnd(s, i + 1);
    if start == i + 1 {
      assert digits < |s| && s[digits] == '$' ==> digits >= width;
    } else {
      assert digits == start - 1;
    }
  }

  // ------------------------------------------------------------ strconv.Atoi

  const MAX_INT: int := 0x7FFF_FFFF_FFFF_FFFF

  function DecimalValue(digits: string): nat {
    if digits == "" then 0
    else 10 * DecimalValue(digits[..|digits| - 1]) + DigitValue(digits[|digits| - 1])
  }

  function DigitValue(c: char): nat {
    if IsDigit(c) then c as int - '0' as int else 0
  }

  function Digit(d: int): char
    requires 0 <= d < 10
  {
    '0' + d as char
  }

  /** %d of a natural number. */
  function Decimal(n: nat): string {
    if n < 10 then [Digit(n)] else Decimal(n / 10) + [Digit(n % 10)]
  }

  lemma {:induction false} DecimalRoundTrip(n: nat)
    ensures DecimalValue(Decimal(n)) == n
    ensures |Decimal(n)| >= 1 && forall k :: 0 <= k < |Decimal(n)| ==> IsDigit(Decimal(n)[k])
  {
    if n >= 10 {
      DecimalRoundTrip(n / 10);
      assert Decimal(n)[..|Decimal(n)| - 1] == Decimal(n / 10);
    } else {
      assert Decimal(n)[..0] == "";
      assert DecimalValue("") == 0;
    }
  }

  /** The value of a run of digits, unless it does not fit a 64-bit int. */
  function Atoi(digits: string): Option<nat> {
    if DecimalValue(digits) <= MAX_INT then Some(DecimalValue(digits)) else None
  }

  /** The index inside a placeholder. */
  function IndexOf(s: string, span: Span): Option<nat> {
    if span.start + 2 <= span.end <= |s| then Atoi(s[span.start + 1..span.end - 1]) else None
  }

  /** A placeholder around a printed number has that number as its index. */
  lemma IndexOfPrinted(s: string, span: Span, k: nat)
    requires k <= MAX_INT && span.start + 2 <= span.end <= |s| && s[span.start + 1..span.end - 1] == Decimal(k)
    ensures IndexOf(s, span) == Some(k)
  {
    DecimalRoundTrip(k);
  }
}
