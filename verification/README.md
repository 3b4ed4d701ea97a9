# CPrimeFinder: a verified model of `pprimes.c`

`pprimes.c` is the command-line front of a prime finder. It has three pieces.
This project models each of them in Dafny and proves what each one does:

- `parse_integer_arg` is a strict decimal parser built on `strtoll`.
  The model is `ParseArg.ParseIntegerArg` (in `parse_arg.dfy`), over a model of `strtoll` and of the C-locale character classes (`LibC` in `libc.dfy`).
  It is proved to accept exactly the strings made of optional white space, an optional sign, at least one decimal digit and optional white space, and only when the value fits a `long long`.
  It writes `*outValue` only when it accepts.
  Parsing the `printf("%lld")` text of any value gives that value back.
- `is_prime` is trial division by odd divisors, with the overflow-free bound `i <= n / i`.
  The model is the method `Primality.IsPrime` (in `primality.dfy`).
  It is proved to return true exactly for mathematical primes, over every `long long` input.
  Its locals are typed as `long long`, so the verifier also checks that no step overflows.
- The argument validation in `main` is modelled as `Cli.ValidateArgs` (in `cli.dfy`).
  It is a pure decision from the argument vector to an error or to `(max_value, thread_count)`.
  The `max_value` check on line 68 is modelled as written. That check can never fire; see "## Findings".

C strings are modelled as `CString`, a `seq<char>` without `'\0'`; index `|s|` stands for the terminator.
C's `long long` is the subset type `LongLong` over `int`.
C's truncating `/` and `%` are `LibC.Div` and `LibC.Rem`; the undefined cases (division by zero, `LLONG_MIN / -1`) are excluded by their preconditions.
`errno == ERANGE` is the `rangeError` field of `strtoll`'s result.

The program is meant to grow a parallel engine that tests the range `[2, max_value]` with a pool of worker threads.
The code does not contain that engine; `pprimes.c:88` is only a TODO. The model follows the code, so the engine is not modelled.
The program's purpose needs `max_value` to be at least 2, but the code as written does not enforce that (see "## Findings").

## Model

| member | source | states |
|---|---|---|
| LibC.StrToLL | CPrimeFinder/pprimes.c:20 | `strtoll(input, &endptr, 10)`: `endptr == nptr` exactly when no digit follows the leading white space and optional sign, and then the result is 0 with no ERANGE; otherwise `endptr` stops at the end of that maximal digit run; on ERANGE the value is LLONG_MIN or LLONG_MAX |
| LibC.SpaceCharacters | CPrimeFinder/pprimes.c:33 | `IsSpace`, the model of `isspace` in the "C" locale used by the trailing-space loop and by `strtoll`, is true exactly for space, tab, newline, vertical tab, form feed and carriage return |
| LibC.DigitCharacters | CPrimeFinder/pprimes.c:20 | `IsDigit`, the model of the decimal digits `strtoll` accepts in base 10, is true exactly for `0` to `9` |
| LibC.Span | CPrimeFinder/pprimes.c:33-35 | where a `while (*p != '\0' && pred(*p)) p++;` loop stops: every character it passes satisfies the predicate, and it stops at the terminator or at the first character that does not |
| LibC.Div | CPrimeFinder/pprimes.c:53 | C's `n / i` on `long long`, truncating toward zero: every defined quotient fits a `long long`, and for non-negative operands it is the mathematical floor quotient |
| LibC.Rem | CPrimeFinder/pprimes.c:54 | C's `n % i` on `long long`, taking the sign of the dividend: every defined remainder fits a `long long`, and for non-negative operands it is the mathematical remainder |
| ParseArg.ParseIntegerArg | CPrimeFinder/pprimes.c:15-44 | every rejecting return leaves `*outValue` unchanged; acceptance implies strtoll consumed digits without ERANGE and only white space follows them |
| ParseArg.StrToLLOnLayout | CPrimeFinder/pprimes.c:20-35 | on text of the form space, sign, digits, space, strtoll stops right after the digits; it reports ERANGE exactly when the value is outside the `long long` range and otherwise returns the value; the trailing-space loop then reaches the terminator |
| ParseArg.ParseAcceptsExactly | CPrimeFinder/pprimes.c:15-44 | returns 1 with `*outValue == v` if and only if the input spells the integer `v` with optional surrounding white space and `v` lies in [LLONG_MIN, LLONG_MAX] |
| ParseArg.IntegerTextUnique | CPrimeFinder/pprimes.c:20 | a string spells at most one integer, so the accepted value is determined by the text |
| ParseArg.OutOfRangeRejected | CPrimeFinder/pprimes.c:27-30 | a well-formed integer outside the `long long` range is rejected and `*outValue` keeps its old value |
| ParseArg.StrToLLClamps | CPrimeFinder/pprimes.c:20-30 | for any text that spells an integer outside the `long long` range (the text line 27 rejects), strtoll consumes every digit with only white space after them, returns LLONG_MIN for a negative value and LLONG_MAX for a positive one, and reports ERANGE |
| ParseArg.RejectsTextWithoutDigits | CPrimeFinder/pprimes.c:22-25 | a string with no digit (empty, white space only, a lone sign) is rejected with `*outValue` unchanged |
| ParseArg.ParseFormatRoundTrip | CPrimeFinder/pprimes.c:15-44 | parsing the `printf("%lld")` text of any `long long` value returns 1 and that value; the text of any value outside the range is rejected |
| ParseArg.FormatDecimal | CPrimeFinder/pprimes.c:85-86 | the text `printf("%lld")` writes: non-empty, starting with `-` exactly for a negative value, then only digits, with a leading `0` only for the value 0 |
| ParseArg.DigitsOfValue | CPrimeFinder/pprimes.c:85-86 | the decimal digits printed for `n` read back as `n` |
| Primality.IsPrime | CPrimeFinder/pprimes.c:48-59 | returns true (C's 1) if and only if `n` is prime, for every `long long n`; false for all `n < 2`, true for 2, false for even `n > 2`; no intermediate value leaves the `long long` range |
| Primality.GuardIsSquareBound | CPrimeFinder/pprimes.c:47-53 | for `i > 0` and `n >= 0`, the guard `i <= n / i` holds exactly when `i * i <= n` |
| Primality.DivisorStaysSmall | CPrimeFinder/pprimes.c:53 | while the guard holds, `i < n` (so a hit is a proper divisor) and `i < 2^32` (so `i += 2` cannot overflow) |
| Primality.CompositeHasSmallFactor | CPrimeFinder/pprimes.c:46-47 | a composite `n >= 2` has a divisor `d >= 2` with `d * d <= n`, which is why checking up to the square root suffices |
| Primality.NoSmallFactorMeansPrime | CPrimeFinder/pprimes.c:53-58 | when the loop ends with no divisor below `i` and `i * i > n`, `n` is prime |
| Primality.NextOddCandidate | CPrimeFinder/pprimes.c:53-57 | stepping the divisor from an odd `i` that does not divide the odd `n` to `i + 2` keeps "no divisor of `n` below the divisor" |
| Primality.OddHasNoEvenDivisor | CPrimeFinder/pprimes.c:51-53 | an odd `n` has no even divisor, so stepping `i` by 2 from 3 skips no candidate |
| Cli.CheckThreadCount | CPrimeFinder/pprimes.c:73-83 | with no third argument the thread count is 2; with one, the "not a valid integer" error is returned exactly when `parse_integer_arg` rejects it, the "must be >= 1" error exactly when it accepts a value below 1, and otherwise the run uses the accepted value, which is at least 1 |
| Cli.ValidateArgs | CPrimeFinder/pprimes.c:61-83 | the usage error happens exactly when argc is not 2 or 3; every run has a thread count of at least 1; a call with one argument (argc 2) always runs, with thread count 2, whatever the argument is |
| Cli.MalformedMaxValueRunsAsZero | CPrimeFinder/pprimes.c:67-74 | as written, when the max_value argument is not the text of a `long long` integer, validation goes on exactly as if max_value were 0, and with argc 2 it runs with (0, 2) |
| Cli.MaxValueNeverRejected | CPrimeFinder/pprimes.c:67-71 | as written, the max_value error is never produced |
| Cli.MaxValueAsWritten | CPrimeFinder/pprimes.c:67-71 | as written, a run uses the integer the max_value argument spells, or 0 when the argument does not parse to a `long long` |
| Cli.ThreadCountRule | CPrimeFinder/pprimes.c:73-83 | with three arguments, validation succeeds if and only if the third argument spells an integer in [1, LLONG_MAX], and that integer is the thread count; it fails as "not a valid integer" exactly when the argument spells no `long long` integer, and as "must be >= 1" exactly when it spells one below 1 |
| Cli.MalformedMaxValueAccepted | CPrimeFinder/pprimes.c:67-71 | `pprimes abc` is accepted with max_value 0, and `pprimes 1 4` with max_value 1 |
| Cli.ValidateArgsIntended | CPrimeFinder/pprimes.c:67-71 | with the corrected check, every run has max_value at least 2 and thread count at least 1; usage errors are unchanged |
| Cli.IntendedMaxValueRule | CPrimeFinder/pprimes.c:67-71 | with the corrected check, max_value is rejected if and only if its argument does not spell an integer in [2, LLONG_MAX]; otherwise that integer is used |
| Cli.IntendedOnlyNarrows | CPrimeFinder/pprimes.c:67-83 | every argument vector the corrected check accepts is accepted by the code as written, with the same result |
| Cli.IntendedRejectsMalformedMaxValue | CPrimeFinder/pprimes.c:67-71 | with the corrected check, `pprimes abc` and `pprimes 1 4` are rejected as invalid max_value |

## Left out

- The parallel prime-range engine (shared cursor, lock, worker pool, result buffer): `pprimes.c:88` is only a TODO, so there is no code to model.
- `CPrimeFinder/Producer_consumer.c`: a mutex and condition-variable demo whose only content is thread blocking.
- `CPrimeFinder/benchmark_pprimes.py`: it runs subprocesses, scrapes output, averages floating-point timings and writes CSV and plots.
- The `printf`/`fprintf` output and the exit codes of `main`: `Cli.Validation` says which error path is taken, not what is printed.
- `errno` as global state: it becomes the `rangeError` field of `LibC.Conversion`.
- `is_prime`'s `(n & 1LL) == 0` is modelled as `n % 2 == 0`. For a two's-complement value the low bit is the Euclidean remainder by 2, and only `n > 2` reaches this test.
- Characters are Dafny `char`s, not bytes. `isspace` and `isdigit` follow the "C" locale, so only the six ASCII white-space characters and `0`-`9` are classified. Other locales are not modelled.
- LibC.Div: its contract gives the quotient only for non-negative operands, the only ones `is_prime` divides. The body also truncates negative quotients toward zero, but no lemma states that.
- LibC.Rem: its contract gives the remainder only for non-negative operands, for the same reason. The body gives negative dividends a negative remainder, but no lemma states that.
- `main` with `argc == 0` prints `argv[0]` in its usage message; the model only records the usage error.

## Findings

| source | as written | input that shows it | evidently intended | confidence | as-written member | corrected member |
|---|---|---|---|---|---|---|
| CPrimeFinder/pprimes.c:68 | `if (!parse_integer_arg(argv[1], &max_value) && max_value > 1)`: on a failed parse `max_value` keeps its initial 0, so the condition is never true | `pprimes abc` runs with max_value 0; `pprimes 1 4` runs with max_value 1 | reject when the argument does not parse or max_value is below 2 (`!parse_integer_arg(...) \|\| max_value < 2`) | medium; not executed | Cli.MalformedMaxValueAccepted | Cli.ValidateArgsIntended |
