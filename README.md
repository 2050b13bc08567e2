# Number classification endpoint, modelled in Dafny

The Number Classification API has a single GET endpoint,
`api/numbers/classify/{number?}`. It takes a signed integer from the optional
route segment `number`, or, when the route has none, from the query parameter
`queryNumber` (as in `?queryNumber=153`). A query parameter named `number` is
not read. It answers with a record that says whether the number is prime,
perfect and an Armstrong number. With no number at all it answers 400 with a
validation-problem payload.

This project models the live controller and proves that each of its three
loops computes the property it is named after:

- `wrappers.dfy`, module `Wrappers`: `Option`, the model of C#'s `int?`, and
  `OrElse`, the model of the `??` operator.
- `number_theory.dfy`, module `NumberTheory`: reference definitions written
  from the mathematics. `Prime` means no divisor strictly between 1 and n.
  `Perfect` means positive and equal to the sum of its proper divisors.
  `Armstrong` means equal to the sum of its decimal digits, each raised to
  the digit count. The module also holds the lemmas the loops need: trial
  division may stop at the square root; summing divisor pairs `(i, n / i)`
  up to the square root gives the proper-divisor sum and counts a
  square-root divisor once; peeling digits gives the digit-power sum.
- `number_controller.dfy`, module `NumberController`: `IsPrime`,
  `IsPerfect` and `IsArmstrong` are methods with the source's loops, each
  proved equal to its reference definition. `ClassifyNumber` is the
  handler, a function from the two bound parameters to the response.

Every single-digit number, 7 included, is an Armstrong number (7^1 = 7);
`NumberController.Scenario7` proves that the 200 body reports
`IsArmstrong = true` for 7.

Integers are mathematical (`int`). The two bound parameters range over
`Int32`, the values a C# `int` can hold. The module `Int32Loops` in
`int32_loops.dfy` models the prime and perfect loops as C# runs them, with
32-bit wrap-around. It shows where that differs from the mathematical
loops; see "## Findings".

## Model

| member | source | states |
|---|---|---|
| `NumberController.IsPrime` | NumberClassificationAPI/Controllers/NumberController.cs:127-133 | the trial-division loop returns exactly `Prime(num)`, so false for every num < 2 and, for num >= 2, true iff no d with 1 < d < num divides num |
| `NumberTheory.NoDivisorBelowRootMeansPrime` | NumberClassificationAPI/Controllers/NumberController.cs:130-132 | stopping trial division once i * i > n is enough: no divisor below i then means n is prime |
| `NumberTheory.DivisorMeansNotPrime` | NumberClassificationAPI/Controllers/NumberController.cs:131 | a divisor found strictly between 1 and n rules primality out (the early `return false`) |
| `NumberController.IsPerfect` | NumberClassificationAPI/Controllers/NumberController.cs:135-147 | the pair-summing loop with the `num != 1` guard returns exactly `Perfect(num)`, i.e. true iff num > 1 and the proper divisors of num sum to num; false for num <= 1 |
| `NumberTheory.DivisorPairing` | NumberClassificationAPI/Controllers/NumberController.cs:137-145 | once every i with i * i <= n is tried, 1 plus the gathered pairs (i and n / i, the latter only when different from i) equals the sum of all proper divisors of n, so a square-root divisor is counted once |
| `NumberTheory.PairSumReached` | NumberClassificationAPI/Controllers/NumberController.cs:138-144 | while (r - 1)^2 <= n, the pairs gathered from trial divisors below r are exactly the divisors d of n in [2, n) with d < r or n / d < r, each once |
| `NumberTheory.ReachedSumStep` | NumberClassificationAPI/Controllers/NumberController.cs:140-143 | one trial divisor i with i * i <= n adds i and, when it differs, n / i to the reached divisors, and nothing else |
| `NumberTheory.ReachedSumComplete` | NumberClassificationAPI/Controllers/NumberController.cs:138 | once i * i > n every divisor of n in [2, n) has been reached, because a divisor and its cofactor cannot both be at least i |
| `NumberTheory.OneIsNotPerfect` | NumberClassificationAPI/Controllers/NumberController.cs:137-146 | 1 has proper-divisor sum 0 and is not perfect, yet the accumulator started at 1 ends at 1 for num = 1, so the sum test alone would admit it |
| `NumberController.IsArmstrong` | NumberClassificationAPI/Controllers/NumberController.cs:149-158 | the digit-peeling loop returns exactly `Armstrong(num)`: for num >= 0, true iff the digits of num raised to the digit count sum to num; false for every negative num |
| `NumberTheory.PeelDigit` | NumberClassificationAPI/Controllers/NumberController.cs:152-156 | removing the lowest digit `t % 10` of t > 0 splits off its power from the digit-power sum; the final leftover 0 contributes nothing |
| `NumberTheory.DecimalText` | NumberClassificationAPI/Controllers/NumberController.cs:151 | `int.ToString()` has as many characters as the number has decimal digits, plus one for the '-' of a negative number |
| `NumberTheory.NatText` | NumberClassificationAPI/Controllers/NumberController.cs:151 | the decimal text of a natural number is one character '0'..'9' per decimal digit |
| `NumberTheory.Digits` | NumberClassificationAPI/Controllers/NumberController.cs:152-155 | the digits the loop peels off are each in 0..9, there is at least one, and the most significant digit of a positive number is not 0 |
| `NumberTheory.DigitsRoundTrip` | NumberClassificationAPI/Controllers/NumberController.cs:152-155 | the peeled digits lose nothing: reading them back gives the number |
| `NumberTheory.SingleDigitsAreArmstrong` | NumberClassificationAPI/Controllers/NumberController.cs:151-157 | 0 and every other single-digit number is an Armstrong number |
| `NumberTheory.Armstrong153` | NumberClassificationAPI/Controllers/NumberController.cs:151-157 | 153 is an Armstrong number |
| `Wrappers.Option.OrElse` | NumberClassificationAPI/Controllers/NumberController.cs:103 | `number ?? queryNumber` is the route value when present, else the query value, and null only when both are |
| `NumberController.Classify` | NumberClassificationAPI/Controllers/NumberController.cs:116-122 | the 200 body carries the number, and each flag holds exactly when the number is prime, perfect or Armstrong in the mathematical sense |
| `NumberController.ClassifyNumber` | NumberClassificationAPI/Controllers/NumberController.cs:100-125 | the response is a 400 exactly when both route and query values are absent, with status 400 and `errors.number = ["The number field is required."]`; otherwise a 200 for the route value if present, else for the query value |
| `NumberTheory.Pow` | NumberClassificationAPI/Controllers/NumberController.cs:154 | `(int)Math.Pow(d, digits)` as exact integer power: 1 for exponent 0, the base for exponent 1, 0 for base 0 and a positive exponent, non-negative for a non-negative base |
| `NumberController.Response.StatusCode` | NumberClassificationAPI/Controllers/NumberController.cs:107-124 | `BadRequest(...)` is sent with 400 and `Ok(...)` with 200, and no response has both codes |
| `Int32Loops.Wrap32` | NumberClassificationAPI/Controllers/NumberController.cs:130 | unchecked 32-bit `int` arithmetic: an exact value that fits in `int` is kept unchanged, and every result lies in `int` range |
| `Int32Loops.Wrap32Congruent` | NumberClassificationAPI/Controllers/NumberController.cs:130 | the wrapped value is congruent to the exact value modulo 2^32 |
| `Int32Loops.Wrap32Mod32` | NumberClassificationAPI/Controllers/NumberController.cs:130 | wrapping to 32 bits keeps the residue modulo 32 |
| `Int32Loops.ResidueSquareMod32` | NumberClassificationAPI/Controllers/NumberController.cs:130 | the squares of 0 .. 31 leave only the residues 0, 1, 4, 9, 16, 17, 25 modulo 32 |
| `Int32Loops.SquareMod32` | NumberClassificationAPI/Controllers/NumberController.cs:130 | every integer square leaves one of the residues 0, 1, 4, 9, 16, 17, 25 modulo 32 |
| `Int32Loops.WrappedSquareBound` | NumberClassificationAPI/Controllers/NumberController.cs:138 | no wrapped 32-bit `i * i` exceeds 2147483641, so for num in 2147483641 .. 2147483647 the loop guard `i * i <= num` never fails |
| `Int32Loops.IsPrimeAsWritten` | NumberClassificationAPI/Controllers/NumberController.cs:127-133 | with wrapping `i * i` and `i++`: false below 2; exactly `Prime(num)` for every num up to 46340^2 = 2147395600; false for every num in 2147483641 .. 2147483647, where the guard never fails and the loop reaches i == num |
| `Int32Loops.IsPerfectAsWritten` | NumberClassificationAPI/Controllers/NumberController.cs:135-147 | with wrapping `i * i`, `i++` and `sum`: false below 4; for every num in 2147483641 .. 2147483647 the loop ends in a DivideByZeroException at i == 0 |
| `NumberController.ScenarioMissing` | NumberClassificationAPI/Controllers/NumberController.cs:105-113 | no number at all gives the 400 validation problem of section 15.5.1 of RFC 9110 |
| `NumberController.Scenario28` | NumberClassificationAPI/Controllers/NumberController.cs:116-124 | 28 is reported as not prime, perfect, not Armstrong |
| `NumberController.Scenario153` | NumberClassificationAPI/Controllers/NumberController.cs:103-124 | a query value 153 with no route value is reported as not prime, not perfect, Armstrong |
| `NumberController.Scenario7` | NumberClassificationAPI/Controllers/NumberController.cs:103-124 | with route 7 and query 28 the route wins: 7 is reported as prime, not perfect, Armstrong |

## Left out

- The commented-out first version of the controller (NumberController.cs lines 1-92) is not compiled and is not modelled. This covers floating-point input, the parity and digit-sum properties, and the network call for a fun fact.
- `Program.cs` is not modelled. It only sets up the web host: JSON indentation, a permissive CORS policy, HTTPS redirection and the server loop.
- Routing, model binding and JSON serialisation are framework behaviour. The route and query values arrive as two `Option<Int32>` values. Text that does not bind to an `int` is not modelled. That includes a bad-request answer the framework may produce on its own before the handler runs.
- `NumberController.IsPrime`: does not model C#'s unchecked 32-bit wrap-around of `i * i`. Once i passes 46340, `i * i` can wrap to a negative value. So for a number above 46340 * 46340 = 2147395600, the C# loop can run past the square root. `Int32Loops.IsPrimeAsWritten` proves that the C# loop agrees with `Prime` up to 2147395600. Above that the wrapped loop can differ only on primes: a composite of `int` range has a factor of at most 46340, found before any wrap. That last step is an argument, not a proof in the model. For the seven numbers 2147483641 .. 2147483647 every wrapped square is at most the number, so C# tries every i up to the number itself and returns false (proved). 2147483647 = 2^31 - 1 is a known prime, so the model returns true there; the model does not prove that primality.
- `NumberController.IsPerfect`: does not model the same wrap-around. For each of the seven numbers 2147483641 .. 2147483647 the C# guard never fails, because no square leaves a residue 26 .. 31 modulo 32. i runs to `int.MaxValue`, wraps to `int.MinValue`, and climbs through the negatives to 0, where `num % i` throws DivideByZeroException (`Int32Loops.IsPerfectAsWritten`). The real endpoint then answers 500. Other numbers in (2147395600, 2147483641) can get a different sum; the model says nothing about them.
- `NumberController.ClassifyNumber`: promises a 200 for every `int`, the seven numbers 2147483641 .. 2147483647 included, where the code as written fails with DivideByZeroException (see "## Findings").
- `NumberController.IsPerfect`, `NumberController.IsArmstrong`: do not model overflow of the `int` accumulator `sum`. The model's sums are exact integers.
- `NumberController.IsArmstrong`: models `(int)Math.Pow(d, digits)` as exact integer power. It does not model the double result or the out-of-range cast. The double is exact for these small bases and exponents. It is out of range only where 9^digits already exceeds `int`.
- Repeated calls giving the same answer is not stated as a separate property. Every member here is a function of its inputs, so this holds by construction.

## Findings

| source | as written | input that shows it | evidently intended | confidence | as-written member | corrected member |
|---|---|---|---|---|---|---|
| NumberClassificationAPI/Controllers/NumberController.cs:138-140 | unchecked `i * i <= num` never fails for num in 2147483641 .. 2147483647, since no wrapped square passes 2147483641; i wraps through the negatives to 0 and `num % i` throws DivideByZeroException, so the endpoint answers 500 | route number 2147483647, or any of 2147483641 .. 2147483646 | the loop stops at the square root and the endpoint answers 200 with IsPerfect equal to `Perfect(num)`, as `NumberController.ClassifyNumber` states for every `int` | high; not executed | `Int32Loops.IsPerfectAsWritten` | `NumberController.IsPerfect` |
