/**
 `parse_integer_arg` from pprimes.c: a strict decimal parser built on
 `strtoll`. It accepts a string only when it is optional white space, an
 optional sign, at least one decimal digit and optional white space, and
 the value fits a `long long`; only then is `*outValue` written.
 */
module ParseArg {
  import opened LibC

  /** The outcome of `parse_integer_arg(input, outValue)`: whether it
      returned 1, and the value `*outValue` holds afterwards. */
  datatype ArgResult = ArgResult(accepted: bool, outValue: LongLong)

  /** `parse_integer_arg`. `outValue` is the value `*outValue` held before
      the call; every rejecting path leaves it as it was. */
  function ParseIntegerArg(input: CString, outValue: LongLong): (r: ArgResult)
    ensures !r.accepted ==> r.outValue == outValue
    ensures r.accepted ==> StrToLL(input).end > 0 && !StrToLL(input).rangeError
    ensures r.accepted ==> forall k :: StrToLL(input).end <= k < |input| ==> IsSpace(input[k])
  {
    var c := StrToLL(input);
    if c.end == 0 then
      // no digits: endptr == input
      ArgResult(false, outValue)
    else if c.rangeError then
      // errno == ERANGE
      ArgResult(false, outValue)
    else if Span(input, c.end, IsSpace) < |input| then
      // something other than white space before the terminator
      ArgResult(false, outValue)
    else
      ArgResult(true, c.value)
  }

  /** The text `s` spells the integer `v`: white space in s[..a], an
      optional sign in s[a..b], the digits s[b..c] (at least one) and white
      space in s[c..]. Nothing here bounds `v`. */
  ghost predicate Layout(s: CString, a: nat, b: nat, c: nat, v: int)
  {
    && a <= b < c <= |s|
    && (forall k :: 0 <= k < a ==> IsSpace(s[k]))
    && (b == a || (b == a + 1 && IsSign(s[a])))
    && AllDigits(s[b..c])
    && (forall k :: c <= k < |s| ==> IsSpace(s[k]))
    && v == (if b == a + 1 && s[a] == '-' then -(DecimalValue(s[b..c]) as int) else DecimalValue(s[b..c]))
  }

  /** `s` is the decimal text of `v`, surrounded by optional white space. */
  ghost predicate IntegerText(s: CString, v: int)
  {
    exists a, b, c :: Layout(s, a, b, c, v)
  }

  /* A layout is pinned down by the text: its white space, sign and digit
     runs are the maximal ones strtoll scans. */
  lemma LayoutPinned(s: CString, a: nat, b: nat, c: nat, v: int)
    requires Layout(s, a, b, c, v)
    ensures a == Span(s, 0, IsSpace) && b == DigitsStart(s) && c == Span(s, b, IsDigit)
  {
    SpanUnique(s, 0, a, IsSpace);
    SpanUnique(s, b, c, IsDigit);
  }

  /* On text laid out as an integer, strtoll stops exactly after the digits
     and either returns the value or, when it does not fit, clamps it and
     reports ERANGE; only white space is left after it. */
  lemma StrToLLOnLayout(s: CString, a: nat, b: nat, c: nat, v: int)
    requires Layout(s, a, b, c, v)
    ensures StrToLL(s).end == c
    ensures StrToLL(s).rangeError <==> !InLongLongRange(v)
    ensures InLongLongRange(v) ==> StrToLL(s).value == v
    ensures !InLongLongRange(v) ==> StrToLL(s).value == (if v < 0 then LLONG_MIN else LLONG_MAX)
    ensures Span(s, c, IsSpace) == |s|
  {
    LayoutPinned(s, a, b, c, v);
    SpanUnique(s, c, |s|, IsSpace);
  }

  /** parse_integer_arg accepts `s` with value `v` exactly when `s` is the
      decimal text of `v` and `v` fits a `long long`; whatever `*outValue`
      held before does not matter. */
  lemma {:induction false} ParseAcceptsExactly(s: CString, outValue: LongLong, v: int)
    ensures ParseIntegerArg(s, outValue).accepted && ParseIntegerArg(s, outValue).outValue == v
            <==> IntegerText(s, v) && InLongLongRange(v)
  {
    if ParseIntegerArg(s, outValue).accepted && ParseIntegerArg(s, outValue).outValue == v {
      var a := Span(s, 0, IsSpace);
      var b := DigitsStart(s);
      var e := StrToLL(s).end;
      assert e == Span(s, b, IsDigit);
      assert Layout(s, a, b, e, v);
    }
    if IntegerText(s, v) && InLongLongRange(v) {
      var a, b, c :| Layout(s, a, b, c, v);
      StrToLLOnLayout(s, a, b, c, v);
    }
  }

  /** A text spells at most one integer. */
  lemma IntegerTextUnique(s: CString, v: int, w: int)
    requires IntegerText(s, v) && IntegerText(s, w)
    ensures v == w
  {
    var a, b, c :| Layout(s, a, b, c, v);
    var a', b', c' :| Layout(s, a', b', c', w);
    LayoutPinned(s, a, b, c, v);
    LayoutPinned(s, a', b', c', w);
  }

  /** A well-formed integer outside [LLONG_MIN, LLONG_MAX] is rejected, and
      `*outValue` keeps its value, although strtoll itself would have
      returned a clamped value. */
  lemma OutOfRangeRejected(s: CString, outValue: LongLong, v: int)
    requires IntegerText(s, v) && !InLongLongRange(v)
    ensures ParseIntegerArg(s, outValue) == ArgResult(false, outValue)
  {
    var r := ParseIntegerArg(s, outValue);
    if r.accepted {
      ParseAcceptsExactly(s, outValue, r.outValue);
      IntegerTextUnique(s, v, r.outValue);
    }
  }

  /** A string with no digit at all (the empty string, white space only, a
      lone sign, a word) is rejected with `*outValue` unchanged. */
  lemma RejectsTextWithoutDigits(s: CString, outValue: LongLong)
    requires forall k :: 0 <= k < |s| ==> !IsDigit(s[k])
    ensures ParseIntegerArg(s, outValue) == ArgResult(false, outValue)
  {
  }

  function DigitChar(d: nat): (c: char)
    requires d < 10
    ensures IsDigit(c) && DigitValue(c) == d
  {
    ('0' as int + d) as char
  }

  /** The decimal digits of `n`, most significant first, without leading
      zeros: what `printf("%lld")` writes for a non-negative value. */
  function DigitsOf(n: nat): (ds: CString)
    ensures |ds| > 0
    ensures AllDigits(ds)
    ensures ds[0] == '0' <==> n == 0
    decreases n
  {
    if n < 10 then [DigitChar(n)] else DigitsOf(n / 10) + [DigitChar(n % 10)]
  }

  /** The decimal text `printf("%lld")` writes for `v` (main prints the
      validated values this way): a '-' for a negative value, then the
      digits of its magnitude. */
  function FormatDecimal(v: int): (s: CString)
    ensures |s| > 0 && (s[0] == '-' <==> v < 0)
    ensures var b := if v < 0 then 1 else 0;
            b < |s| && AllDigits(s[b..]) && (s[b] == '0' <==> v == 0)
  {
    if v < 0 then "-" + DigitsOf(-v) else DigitsOf(v)
  }

  lemma {:induction false} DigitsOfValue(n: nat)
    ensures DecimalValue(DigitsOf(n)) == n
    decreases n
  {
    var ds := DigitsOf(n);
    if n >= 10 {
      assert ds[..|ds| - 1] == DigitsOf(n / 10);
      DigitsOfValue(n / 10);
    }
  }

  lemma FormatDecimalLayout(v: int)
    ensures Layout(FormatDecimal(v), 0, if v < 0 then 1 else 0, |FormatDecimal(v)|, v)
  {
    var s := FormatDecimal(v);
    if v < 0 {
      DigitsOfValue(-v);
      assert s[1..|s|] == DigitsOf(-v);
    } else {
      DigitsOfValue(v);
      assert s[0..|s|] == DigitsOf(v);
    }
  }

  /** Parsing what printf writes gives back every `long long` value, and
      rejects every value outside that range. */
  lemma ParseFormatRoundTrip(v: int, outValue: LongLong)
    ensures InLongLongRange(v) ==> ParseIntegerArg(FormatDecimal(v), outValue) == ArgResult(true, v)
    ensures !InLongLongRange(v) ==> ParseIntegerArg(FormatDecimal(v), outValue) == ArgResult(false, outValue)
  {
    var s := FormatDecimal(v);
    FormatDecimalLayout(v);
    assert IntegerText(s, v);
    if InLongLongRange(v) {
      ParseAcceptsExactly(s, outValue, v);
    } else {
      OutOfRangeRejected(s, outValue, v);
    }
  }

  /** Where parse_integer_arg rejects an out-of-range text, strtoll on its
      own consumes every digit, leaving only white space, clamps the value
      to LLONG_MIN or LLONG_MAX and reports ERANGE. */
  lemma StrToLLClamps(s: CString, v: int)
    requires IntegerText(s, v) && !InLongLongRange(v)
    ensures StrToLL(s).value == (if v < 0 then LLONG_MIN else LLONG_MAX) && StrToLL(s).rangeError
    ensures StrToLL(s).end > 0 && Span(s, StrToLL(s).end, IsSpace) == |s|
  {
    var a, b, c :| Layout(s, a, b, c, v);
    StrToLLOnLayout(s, a, b, c, v);
  }
}
