/** The classification endpoint: the three trial loops that decide primality,
    perfection and the Armstrong property, and the handler that resolves the
    requested number and shapes the response. */
module NumberController {
  import opened Wrappers
  import opened NumberTheory

  /** The values C#'s `int` can hold: what the model binder can deliver. */
  type Int32 = x: int | -0x8000_0000 <= x < 0x8000_0000

  // ---------------------------------------------------------------------------
  // The three predicates, as the loops the controller runs
  // ---------------------------------------------------------------------------

  /** Trial division by 2, 3, ... while i * i <= num. */
  method IsPrime(num: int) returns (r: bool)
    ensures r == Prime(num)
    ensures num < 2 ==> !r
  {
    if num < 2 {
      return false;
    }
    var i := 2;
    while i * i <= num
      invariant 2 <= i
      invariant forall d :: 1 < d < i ==> num % d != 0
      decreases num - i
    {
      BelowSquareRoot(num, i);
      if num % i == 0 {
        DivisorMeansNotPrime(num, i);
        return false;
      }
      i := i + 1;
    }
    NoDivisorBelowRootMeansPrime(num, i);
    return true;
  }

  /** Sums the divisors in pairs (i, num / i) for i * i <= num, adding a
      square-root divisor once, starting from the trivial divisor 1, and
      excludes 1 explicitly. */
  method IsPerfect(num: int) returns (r: bool)
    ensures r == Perfect(num)
    ensures r <==> num > 1 && ProperDivisorSum(num) == num
  {
    var sum := 1;
    var i := 2;
    while i * i <= num
      invariant 2 <= i
      invariant i == 2 || (i - 1) * (i - 1) <= num
      invariant sum == 1 + PairSum(num, i)
      decreases num - i
    {
      BelowSquareRoot(num, i);
      assert PairSum(num, i + 1) == PairSum(num, i) + PairTerm(num, i);
      if num % i == 0 {
        sum := sum + i;
        if i != num / i {
          sum := sum + num / i;
        }
      }
      i := i + 1;
    }
    if num >= 2 {
      DivisorPairing(num, i);
    } else if i > 2 {
      MulMono(2, 2, i - 1, i - 1);
    }
    r := sum == num && num != 1;
  }

  /** Peels the decimal digits of num off from the right and sums each one
      raised to the length of num's decimal text. */
  method IsArmstrong(num: int) returns (r: bool)
    ensures r == Armstrong(num)
    ensures num < 0 ==> !r
  {
    var sum, temp, digits := 0, num, |DecimalText(num)|;
    while temp > 0
      invariant num >= 0 ==> 0 <= temp && sum + PowerSum(Digits(temp), digits) == PowerSum(Digits(num), digits)
      invariant num < 0 ==> temp == num && sum == 0
      decreases temp
    {
      PeelDigit(temp, digits);
      sum := sum + Pow(temp % 10, digits);
      temp := temp / 10;
    }
    if num >= 0 {
      assert Digits(temp) == [0] && Pow(0, digits) == 0;
    }
    r := sum == num;
  }

  // ---------------------------------------------------------------------------
  // The handler
  // ---------------------------------------------------------------------------

  /** The 200 response body: the number and its three flags. */
  datatype Classification = Classification(number: int, isPrime: bool, isPerfect: bool, isArmstrong: bool)

  /** The 400 response body, in the validation-problem shape of section
      15.5.1 of RFC 9110. */
  datatype ValidationProblem = ValidationProblem(
    problemType: string,
    title: string,
    status: int,
    errors: map<string, seq<string>>)

  datatype Response = Ok(body: Classification) | BadRequest(problem: ValidationProblem) {
    /** The HTTP status code the response is sent with. */
    function StatusCode(): (code: int)
      ensures code == 200 <==> Ok?
      ensures code == 400 <==> BadRequest?
    {
      if Ok? then 200 else 400
    }
  }

  /** The payload returned when no number was supplied. */
  const MissingNumber := ValidationProblem(
    "https://tools.ietf.org/html/rfc9110#section-15.5.1",
    "One or more validation errors occurred.",
    400,
    map["number" := ["The number field is required."]])

  /** The success body for a resolved number: every flag holds exactly when
      the number has the property it names. */
  function Classify(n: int): (c: Classification)
    ensures c.number == n
    ensures c.isPrime <==> n >= 2 && forall d :: 1 < d < n ==> n % d != 0
    ensures c.isPerfect <==> n > 0 && ProperDivisorSum(n) == n
    ensures c.isArmstrong <==> n >= 0 && PowerSum(Digits(n), |Digits(n)|) == n
  {
    Classification(n, Prime(n), Perfect(n), Armstrong(n))
  }

  /** GET api/numbers/classify/{number?}: `number` is the optional route
      segment and `queryNumber` the query parameter of that name; the route
      value wins over the query value; with neither, a 400 validation problem. */
  function ClassifyNumber(number: Option<Int32>, queryNumber: Option<Int32>): (r: Response)
    ensures r.BadRequest? <==> number.None? && queryNumber.None?
    ensures r.BadRequest? ==> r.StatusCode() == 400 && r.problem.status == 400
    ensures r.BadRequest? ==> r.problem.errors == map["number" := ["The number field is required."]]
    ensures number.Some? ==> r == Ok(Classify(number.value))
    ensures number.None? && queryNumber.Some? ==> r == Ok(Classify(queryNumber.value))
    ensures r.Ok? ==> r.StatusCode() == 200
  {
    var finalNumber := number.OrElse(queryNumber);
    if finalNumber.None? then BadRequest(MissingNumber)
    else Ok(Classify(finalNumber.value))
  }

  /** 28 is perfect and even, so neither prime nor (with 8^2 + 2^2 = 68) Armstrong. */
  lemma Scenario28()
    ensures ClassifyNumber(Some(28), None) == Ok(Classification(28, false, true, false))
  {
    DivisorMeansNotPrime(28, 2);
    DivisorPairing(28, 6);
    assert Digits(28) == [8, 2];
  }

  /** 153 = 9 * 17 is neither prime nor perfect (its proper divisors sum to 81),
      but it is an Armstrong number; the query value is used when the route has none. */
  lemma Scenario153()
    ensures ClassifyNumber(None, Some(153)) == Ok(Classification(153, false, false, true))
  {
    DivisorMeansNotPrime(153, 3);
    DivisorPairing(153, 13);
    Armstrong153();
  }

  /** 7 is prime, not perfect, and as a single digit an Armstrong number;
      the route value wins over the query value. */
  lemma Scenario7()
    ensures ClassifyNumber(Some(7), Some(28)) == Ok(Classification(7, true, false, true))
  {
    NoDivisorBelowRootMeansPrime(7, 3);
    DivisorPairing(7, 3);
    SingleDigitsAreArmstrong(7);
  }

  /** Neither a route nor a query number: the 400 validation problem. */
  lemma ScenarioMissing()
    ensures ClassifyNumber(None, None).StatusCode() == 400
    ensures ClassifyNumber(None, None) == BadRequest(MissingNumber)
  {
  }
}
