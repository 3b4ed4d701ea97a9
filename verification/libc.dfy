/**
 The parts of the C language and of its standard library that pprimes.c relies
 on, stated over mathematical integers and character sequences:
 - the range of `long long` (LLONG_MIN .. LLONG_MAX from <limits.h>);
 - `/` and `%` on `long long`, which truncate toward zero;
 - the "C"-locale character classes `isspace` and `isdigit` from <ctype.h>;
 - `strtoll(nptr, &endptr, 10)` from <stdlib.h>, with `errno == ERANGE`
   folded into its result.
 */
module LibC {

  const LLONG_MIN: int := -0x8000_0000_0000_0000
  const LLONG_MAX: int := 0x7FFF_FFFF_FFFF_FFFF

  /** A mathematical integer that a `long long` can hold. */
  predicate InLongLongRange(x: int) {
    LLONG_MIN <= x <= LLONG_MAX
  }

  /** A value of C's 64-bit signed `long long`. The constraint spells out
      InLongLongRange so that the bounds of every `long long` are visible to
      the verifier without unfolding a predicate. */
  type LongLong = x: int | LLONG_MIN <= x <= LLONG_MAX

  function Abs(x: int): nat {
    if x < 0 then -x else x
  }

  /* Multiplying by a non-negative factor keeps an order. */
  lemma MulMonotone(a: int, b: int, c: int)
    requires a <= b && 0 <= c
    ensures a * c <= b * c
  {
    assert b * c - a * c == (b - a) * c;
  }

  /* A quotient never has a larger magnitude than its dividend. */
  lemma QuotientBound(x: nat, y: nat)
    requires 1 <= y
    ensures x / y <= x
    ensures 2 <= y ==> x / y <= x / 2
  {
    var q := x / y;
    assert q * y + x % y == x;
    MulMonotone(1, y, q);
    if 2 <= y {
      MulMonotone(2, y, q);
    }
  }

  /* The magnitude of a truncated quotient fits a `long long` unless it is
     the positive quotient LLONG_MIN / -1. */
  lemma QuotientFits(a: LongLong, b: LongLong)
    requires b != 0 && !(a == LLONG_MIN && b == -1)
    ensures Abs(a) / Abs(b) <= -LLONG_MIN
    ensures (a < 0) == (b < 0) ==> Abs(a) / Abs(b) <= LLONG_MAX
  {
    var x, y := Abs(a), Abs(b);
    QuotientBound(x, y);
    if a == LLONG_MIN && b < 0 {
      assert 2 <= y;
    }
  }

  /** C's `a / b` on `long long`: the quotient truncated toward zero.
      LLONG_MIN / -1 does not fit a `long long` (undefined behaviour in C)
      and division by zero is undefined, so both are excluded. */
  function Div(a: LongLong, b: LongLong): (q: LongLong)
    requires b != 0 && !(a == LLONG_MIN && b == -1)
    ensures 0 <= a && 0 < b ==> q == a / b
  {
    QuotientFits(a, b);
    var m: nat := Abs(a) / Abs(b);
    assert 0 <= a && 0 < b ==> m == a / b;
    if (a < 0) == (b < 0) then m else -(m as int)
  }

  /** C's `a % b` on `long long`: the remainder has the magnitude of
      |a| % |b| and takes the sign of the dividend. */
  function Rem(a: LongLong, b: LongLong): (r: LongLong)
    requires b != 0 && !(a == LLONG_MIN && b == -1)
    ensures 0 <= a && 0 < b ==> r == a % b
  {
    var y := Abs(b);
    var m := Abs(a) % y;
    assert m < y <= -LLONG_MIN;
    if a < 0 then -m else m
  }

  /** `isspace` in the "C" locale: ' ', '\t', '\n', '\U{000B}', '\U{000C}' and '\r'
      (the last five are the consecutive codes 9 to 13). */
  predicate IsSpace(c: char) {
    c == ' ' || '\t' <= c <= '\r'
  }

  /** The range test in IsSpace picks out exactly the six white-space
      characters of the "C" locale. */
  lemma SpaceCharacters(c: char)
    ensures IsSpace(c) <==> c in [' ', '\t', '\n', '\U{000B}', '\U{000C}', '\r']
  {
  }

  /** `isdigit`: the ten decimal digits. */
  predicate IsDigit(c: char) {
    '0' <= c <= '9'
  }

  /** IsDigit picks out exactly the ten decimal digits. */
  lemma DigitCharacters(c: char)
    ensures IsDigit(c) <==> c in "0123456789"
  {
  }

  predicate IsSign(c: char) {
    c == '+' || c == '-'
  }

  function DigitValue(c: char): (d: nat)
    requires IsDigit(c)
    ensures d < 10
  {
    c as int - '0' as int
  }

  /** A NUL-terminated C string: the characters before the terminator.
      Index |s| of a CString plays the role of the terminating '\0'. */
  type CString = s: seq<char> | '\0' !in s

  /** The end of the longest run of characters satisfying `p` that starts
      at index `i`: where a `while (p(*q)) q++;` loop stops. */
  function Span(s: CString, i: nat, p: char -> bool): (j: nat)
    requires i <= |s|
    ensures i <= j <= |s|
    ensures forall k :: i <= k < j ==> p(s[k])
    ensures j < |s| ==> !p(s[j])
    decreases |s| - i
  {
    if i < |s| && p(s[i]) then Span(s, i + 1, p) else i
  }

  /* A run is determined by where it starts: any j bounding a maximal run
     from i is the one Span finds. */
  lemma SpanUnique(s: CString, i: nat, j: nat, p: char -> bool)
    requires i <= j <= |s|
    requires forall k :: i <= k < j ==> p(s[k])
    requires j < |s| ==> !p(s[j])
    ensures Span(s, i, p) == j
  {
  }

  /** Every character of `ds` is a decimal digit. */
  predicate AllDigits(ds: seq<char>) {
    forall k :: 0 <= k < |ds| ==> IsDigit(ds[k])
  }

  /** The value of a string of decimal digits, most significant first, as
      strtoll accumulates it (`acc = acc * 10 + digit`), without any bound. */
  function DecimalValue(ds: seq<char>): nat
    requires AllDigits(ds)
  {
    if ds == [] then 0 else 10 * DecimalValue(ds[..|ds| - 1]) + DigitValue(ds[|ds| - 1])
  }

  /** What `strtoll(nptr, &endptr, 10)` produces: `end` is `endptr - nptr`,
      `value` the returned `long long`, and `rangeError` whether it set
      `errno` to ERANGE. */
  datatype Conversion = Conversion(end: nat, value: LongLong, rangeError: bool)

  /** The index after the leading white space and the optional sign: where
      the digits of the subject sequence would start. */
  function DigitsStart(s: CString): (b: nat)
    ensures b <= |s|
  {
    var a := Span(s, 0, IsSpace);
    if a < |s| && IsSign(s[a]) then a + 1 else a
  }

  /** `strtoll` in base 10 (section 7.22.1.4 of ISO/IEC 9899:2011): skip
      white space, accept an optional '+' or '-', then the longest run of
      decimal digits. With no digits nothing is converted: the result is 0
      and `endptr == nptr`. A value outside the `long long` range is
      replaced by LLONG_MIN or LLONG_MAX and ERANGE is reported. */
  function StrToLL(s: CString): (c: Conversion)
    ensures c.end <= |s|
    ensures c.end == 0 ==> c.value == 0 && !c.rangeError
    ensures c.end > 0 ==> IsDigit(s[c.end - 1]) && (c.end < |s| ==> !IsDigit(s[c.end]))
    ensures c.end > 0 ==> c.end == Span(s, DigitsStart(s), IsDigit)
    ensures Span(s, DigitsStart(s), IsDigit) == DigitsStart(s) <==> c.end == 0
    ensures c.rangeError ==> c.value == LLONG_MIN || c.value == LLONG_MAX
  {
    var a := Span(s, 0, IsSpace);
    var b := DigitsStart(s);
    var e := Span(s, b, IsDigit);
    if e == b then
      Conversion(0, 0, false)
    else
      var magnitude: int := DecimalValue(s[b..e]);
      var v := if b == a + 1 && s[a] == '-' then -magnitude else magnitude;
      if v > LLONG_MAX then Conversion(e, LLONG_MAX, true)
      else if v < LLONG_MIN then Conversion(e, LLONG_MIN, true)
      else Conversion(e, v, false)
  }
}
