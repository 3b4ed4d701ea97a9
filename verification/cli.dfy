/**
 The argument validation at the start of `main` in pprimes.c: from the
 argument vector to either an error or the pair (max_value, thread_count)
 that the rest of the program would run with. Printing and exit codes are
 not modelled; the error value says which message `main` prints before it
 returns EXIT_FAILURE.
 */
module Cli {
  import opened LibC
  import opened ParseArg

  datatype ArgError =
    | Usage                // wrong argument count
    | InvalidMaxValue      // max_value is not a valid integer
    | InvalidThreadCount   // thread_count is not a valid integer
    | ThreadCountTooSmall  // thread_count < 1

  datatype Validation = Run(maxValue: LongLong, threadCount: LongLong) | Reject(error: ArgError)

  /** The thread count used when none is given. */
  const DEFAULT_THREAD_COUNT: LongLong := 2

  /** Lines 73-83 of main: the optional thread_count, parsed into a variable
      that starts at the default; it must parse and be at least 1. */
  function CheckThreadCount(argv: seq<CString>, maxValue: LongLong): (r: Validation)
    requires 2 <= |argv| <= 3
    ensures r.Run? ==> r.maxValue == maxValue && r.threadCount >= 1
    ensures |argv| == 2 ==> r == Run(maxValue, DEFAULT_THREAD_COUNT)
    ensures r.Reject? ==> r.error == InvalidThreadCount || r.error == ThreadCountTooSmall
    ensures |argv| == 3 ==>
              (r == Reject(InvalidThreadCount) <==> !ParseIntegerArg(argv[2], DEFAULT_THREAD_COUNT).accepted)
    ensures |argv| == 3 ==>
              (r == Reject(ThreadCountTooSmall)
               <==> ParseIntegerArg(argv[2], DEFAULT_THREAD_COUNT).accepted
                    && ParseIntegerArg(argv[2], DEFAULT_THREAD_COUNT).outValue < 1)
    ensures |argv| == 3 && r.Run? ==> ParseIntegerArg(argv[2], DEFAULT_THREAD_COUNT) == ArgResult(true, r.threadCount)
  {
    if |argv| == 3 then
      var threads := ParseIntegerArg(argv[2], DEFAULT_THREAD_COUNT);
      if !threads.accepted then Reject(InvalidThreadCount)
      else if threads.outValue < 1 then Reject(ThreadCountTooSmall)
      else Run(maxValue, threads.outValue)
    else
      Run(maxValue, DEFAULT_THREAD_COUNT)
  }

  /** The validation of main as written. `argv[0]` is the program name and
      `|argv|` is argc. max_value starts at 0 and the check on it is
      `!parse_integer_arg(argv[1], &max_value) && max_value > 1`. */
  function ValidateArgs(argv: seq<CString>): (r: Validation)
    ensures r == Reject(Usage) <==> !(2 <= |argv| <= 3)
    ensures r.Run? ==> r.threadCount >= 1
    ensures |argv| == 2 ==> r.Run? && r.threadCount == DEFAULT_THREAD_COUNT
  {
    if |argv| < 2 || |argv| > 3 then
      Reject(Usage)
    else
      var max := ParseIntegerArg(argv[1], 0);
      if !max.accepted && max.outValue > 1 then Reject(InvalidMaxValue)
      else CheckThreadCount(argv, max.outValue)
  }

  /** As written, main never rejects max_value: a failed parse leaves it at
      0, which is not greater than 1. */
  lemma MaxValueNeverRejected(argv: seq<CString>)
    ensures ValidateArgs(argv) != Reject(InvalidMaxValue)
  {
  }

  /** As written, the max_value main runs with is the value of its
      argument when that argument is an integer that fits a `long long`,
      and 0 otherwise; no lower bound is enforced. */
  lemma MaxValueAsWritten(argv: seq<CString>)
    requires ValidateArgs(argv).Run?
    ensures IntegerText(argv[1], ValidateArgs(argv).maxValue)
            || (ValidateArgs(argv).maxValue == 0
                && forall v :: IntegerText(argv[1], v) ==> !InLongLongRange(v))
  {
    var max := ParseIntegerArg(argv[1], 0);
    ParseAcceptsExactly(argv[1], 0, max.outValue);
    if !max.accepted {
      forall v | IntegerText(argv[1], v)
        ensures !InLongLongRange(v)
      {
        ParseAcceptsExactly(argv[1], 0, v);
      }
    }
  }

  /** As written, a max_value argument that is not a `long long` integer
      is not reported: main goes on to the thread-count check with
      max_value 0, and with two arguments it runs with (0, 2). */
  lemma MalformedMaxValueRunsAsZero(argv: seq<CString>)
    requires 2 <= |argv| <= 3
    requires !exists v :: IntegerText(argv[1], v) && InLongLongRange(v)
    ensures ValidateArgs(argv) == CheckThreadCount(argv, 0)
    ensures |argv| == 2 ==> ValidateArgs(argv) == Run(0, DEFAULT_THREAD_COUNT)
  {
    ParseAcceptsExactly(argv[1], 0, ParseIntegerArg(argv[1], 0).outValue);
  }

  /** With three arguments, validation succeeds exactly when the third is
      the text of an integer in [1, LLONG_MAX], and that integer is the
      thread count. Text that is not a `long long` integer is reported as
      an invalid thread count, and an integer below 1 as too small. */
  lemma ThreadCountRule(argv: seq<CString>)
    requires |argv| == 3
    ensures ValidateArgs(argv).Run? <==> exists t :: IntegerText(argv[2], t) && 1 <= t <= LLONG_MAX
    ensures ValidateArgs(argv).Run? ==> IntegerText(argv[2], ValidateArgs(argv).threadCount)
    ensures ValidateArgs(argv) == Reject(InvalidThreadCount)
            <==> !exists t :: IntegerText(argv[2], t) && InLongLongRange(t)
    ensures ValidateArgs(argv) == Reject(ThreadCountTooSmall)
            <==> exists t :: IntegerText(argv[2], t) && LLONG_MIN <= t < 1
  {
    var threads := ParseIntegerArg(argv[2], DEFAULT_THREAD_COUNT);
    ParseAcceptsExactly(argv[2], DEFAULT_THREAD_COUNT, threads.outValue);
    if exists t :: IntegerText(argv[2], t) && 1 <= t <= LLONG_MAX {
      var t :| IntegerText(argv[2], t) && 1 <= t <= LLONG_MAX;
      ParseAcceptsExactly(argv[2], DEFAULT_THREAD_COUNT, t);
    }
    if exists t :: IntegerText(argv[2], t) && InLongLongRange(t) {
      var t :| IntegerText(argv[2], t) && InLongLongRange(t);
      ParseAcceptsExactly(argv[2], DEFAULT_THREAD_COUNT, t);
    }
    if exists t :: IntegerText(argv[2], t) && LLONG_MIN <= t < 1 {
      var t :| IntegerText(argv[2], t) && LLONG_MIN <= t < 1;
      ParseAcceptsExactly(argv[2], DEFAULT_THREAD_COUNT, t);
    }
  }

  /** A malformed max_value is run as 0, and max_value 1 is run as it is,
      although the program only makes sense for max_value >= 2. */
  lemma MalformedMaxValueAccepted()
    ensures ValidateArgs(["pprimes", "abc"]) == Run(0, DEFAULT_THREAD_COUNT)
    ensures ValidateArgs(["pprimes", "1", "4"]) == Run(1, 4)
  {
    RejectsTextWithoutDigits("abc", 0);
    ParseFormatRoundTrip(1, 0);
    assert FormatDecimal(1) == "1";
    ParseFormatRoundTrip(4, DEFAULT_THREAD_COUNT);
    assert FormatDecimal(4) == "4";
  }

  /** The validation with the max_value check main evidently intends:
      reject when the argument does not parse or the value is below 2. */
  function ValidateArgsIntended(argv: seq<CString>): (r: Validation)
    ensures r == Reject(Usage) <==> !(2 <= |argv| <= 3)
    ensures r.Run? ==> r.maxValue >= 2 && r.threadCount >= 1
  {
    if |argv| < 2 || |argv| > 3 then
      Reject(Usage)
    else
      var max := ParseIntegerArg(argv[1], 0);
      if !max.accepted || max.outValue < 2 then Reject(InvalidMaxValue)
      else CheckThreadCount(argv, max.outValue)
  }

  /** With the intended check, max_value is rejected exactly when the
      argument is not the text of an integer in [2, LLONG_MAX]; otherwise
      that integer is the max_value. */
  lemma IntendedMaxValueRule(argv: seq<CString>)
    requires 2 <= |argv| <= 3
    ensures ValidateArgsIntended(argv) == Reject(InvalidMaxValue)
            <==> !exists v :: IntegerText(argv[1], v) && 2 <= v <= LLONG_MAX
    ensures ValidateArgsIntended(argv).Run? ==> IntegerText(argv[1], ValidateArgsIntended(argv).maxValue)
  {
    var max := ParseIntegerArg(argv[1], 0);
    ParseAcceptsExactly(argv[1], 0, max.outValue);
    if exists v :: IntegerText(argv[1], v) && 2 <= v <= LLONG_MAX {
      var v :| IntegerText(argv[1], v) && 2 <= v <= LLONG_MAX;
      ParseAcceptsExactly(argv[1], 0, v);
    }
  }

  /** The intended check only removes runs: whenever it lets the arguments
      through, main as written runs with the same values. */
  lemma IntendedOnlyNarrows(argv: seq<CString>)
    requires ValidateArgsIntended(argv).Run?
    ensures ValidateArgs(argv) == ValidateArgsIntended(argv)
  {
  }

  /** The intended check rejects the malformed max_value main accepts. */
  lemma IntendedRejectsMalformedMaxValue()
    ensures ValidateArgsIntended(["pprimes", "abc"]) == Reject(InvalidMaxValue)
    ensures ValidateArgsIntended(["pprimes", "1", "4"]) == Reject(InvalidMaxValue)
  {
  }
}
