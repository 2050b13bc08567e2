/** Reference definitions of the three number classes the controller reports,
    written directly from their mathematical meaning, and the facts about them
    that the controller's loops rely on. */
module NumberTheory {

  // ---------------------------------------------------------------------------
  // Arithmetic helpers
  // ---------------------------------------------------------------------------

  /** Multiplication is monotone on non-negative factors. */
  lemma MulMono(a: int, b: int, c: int, e: int)
    requires 0 <= a <= c && 0 <= b <= e
    ensures a * b <= c * e
  {
    assert a * b <= c * b;
    assert c * b <= c * e;
  }

  /** A positive divisor d of a positive n has a positive cofactor n / d,
      the cofactor divides n too, and its own cofactor is d again. */
  lemma Cofactor(n: int, d: int)
    requires n > 0 && d > 0 && n % d == 0
    ensures n / d > 0 && n == d * (n / d)
    ensures n % (n / d) == 0 && n / (n / d) == d
  {
    var q := n / d;
    assert n == d * q;
    if q <= 0 {
      MulMono(d, 0, d, -q);
      assert false;
    }
    assert n == q * d + 0;
    DivModUnique(n, q, d, 0);
  }

  /** Euclidean division is determined by quotient and remainder. */
  lemma DivModUnique(n: int, d: int, q: int, m: int)
    requires d > 0 && 0 <= m < d && n == d * q + m
    ensures n / d == q && n % d == m
  {
    var q' := n / d;
    var m' := n % d;
    assert n == d * q' + m';
    if q' < q {
      MulMono(d, 1, d, q - q');
      assert false;
    } else if q' > q {
      MulMono(d, 1, d, q' - q);
      assert false;
    }
  }

  /** For 2 <= i with i * i <= n, i lies strictly below n and at or below
      the cofactor n / i, which itself lies strictly below n. */
  lemma BelowSquareRoot(n: int, i: int)
    requires 2 <= i && i * i <= n
    ensures i < n && i <= n / i && n / i < n
  {
    MulMono(2, i, i, i);
    var q := n / i;
    assert n == i * q + n % i;
    if q < i {
      MulMono(i, q, i, i - 1);
      assert false;
    }
    if q >= n {
      MulMono(2, n, i, q);
      assert false;
    }
  }

  // ---------------------------------------------------------------------------
  // Primality
  // ---------------------------------------------------------------------------

  /** n is prime: at least 2 and no divisor strictly between 1 and n. */
  predicate Prime(n: int) {
    n >= 2 && forall d :: 1 < d < n ==> n % d != 0
  }

  /** Trial division may stop at the square root: if no d with 1 < d < i
      divides n and i * i exceeds n, then n is prime. */
  lemma {:induction false} NoDivisorBelowRootMeansPrime(n: int, i: int)
    requires n >= 2 && i >= 2 && i * i > n
    requires forall d :: 1 < d < i ==> n % d != 0
    ensures Prime(n)
  {
    forall d | 1 < d < n
      ensures n % d != 0
    {
      if n % d == 0 {
        Cofactor(n, d);
        var q := n / d;
        if q <= 1 {
          assert false;
        }
        if d >= i && q >= i {
          MulMono(i, i, d, q);
          assert false;
        } else if d >= i {
          assert false;
        }
      }
    }
  }

  /** A divisor d with 1 < d < n rules out primality. */
  lemma {:induction false} DivisorMeansNotPrime(n: int, d: int)
    requires 1 < d < n && n % d == 0
    ensures !Prime(n)
  {
  }

  // ---------------------------------------------------------------------------
  // Perfect numbers
  // ---------------------------------------------------------------------------

  /** Sum of the positive divisors of n that are below k. */
  function DivisorSumBelow(n: int, k: int): int
    decreases k
  {
    if k <= 1 then 0
    else DivisorSumBelow(n, k - 1) + (if n % (k - 1) == 0 then k - 1 else 0)
  }

  /** Sum of the proper positive divisors of n (0 when n <= 1). */
  function ProperDivisorSum(n: int): int {
    DivisorSumBelow(n, n)
  }

  /** n is perfect: positive and equal to the sum of its proper divisors. */
  predicate Perfect(n: int) {
    n > 0 && ProperDivisorSum(n) == n
  }


  /** Divisor d of n has been counted once every trial divisor below i has
      been tried: either d itself or its cofactor n / d is below i. */
  predicate Reached(n: int, d: int, i: int)
    requires d > 0
  {
    n % d == 0 && (d < i || n / d < i)
  }

  /** Sum of the divisors d of n with 2 <= d < k that have been reached
      once the trial divisors 2 .. i - 1 have been tried. */
  function ReachedSum(n: int, i: int, k: int): int
    decreases k
  {
    if k <= 2 then 0
    else ReachedSum(n, i, k - 1) + (if Reached(n, k - 1, i) then k - 1 else 0)
  }

  /** Before any trial divisor is tried, no divisor in [2, n) is reached. */
  lemma {:induction false} ReachedSumStart(n: int, k: int)
    requires k <= n
    ensures ReachedSum(n, 2, k) == 0
    decreases k
  {
    if k > 2 {
      ReachedSumStart(n, k - 1);
      var d := k - 1;
      if n % d == 0 {
        Cofactor(n, d);
        if n / d < 2 {
          assert false;
        }
      }
    }
  }

  /** Trying divisor i (with i * i <= n) reaches exactly i and, when it
      differs from i, the cofactor n / i, provided n % i == 0. */
  lemma ReachedStep(n: int, d: int, i: int)
    requires 2 <= i && i * i <= n && d >= 2
    ensures (if Reached(n, d, i + 1) then d else 0)
         == (if Reached(n, d, i) then d else 0)
          + (if n % i == 0 && d == i then i else 0)
          + (if n % i == 0 && n / i != i && d == n / i then n / i else 0)
  {
    BelowSquareRoot(n, i);
    if n % i == 0 {
      Cofactor(n, i);
    }
    if n % d == 0 {
      Cofactor(n, d);
      if n / d == i {
        assert n % i == 0 && d == n / i;
      }
      if n % i == 0 && d == n / i {
        assert n / d == i;
      }
    }
  }

  /** The effect of one trial divisor on the whole reached sum below k. */
  lemma {:induction false} ReachedSumStep(n: int, i: int, k: int)
    requires 2 <= i && i * i <= n
    ensures ReachedSum(n, i + 1, k)
         == ReachedSum(n, i, k)
          + (if n % i == 0 && i < k then i else 0)
          + (if n % i == 0 && n / i != i && n / i < k then n / i else 0)
    decreases k
  {
    BelowSquareRoot(n, i);
    if k > 2 {
      ReachedSumStep(n, i, k - 1);
      ReachedStep(n, k - 1, i);
    }
  }

  /** Once i * i exceeds n, every divisor of n in [2, n) has been reached:
      a divisor and its cofactor cannot both be at least i. */
  lemma AllReached(n: int, d: int, i: int)
    requires 2 <= i && i * i > n && 2 <= d < n
    ensures Reached(n, d, i) == (n % d == 0)
  {
    if n % d == 0 && d >= i && n / d >= i {
      Cofactor(n, d);
      MulMono(i, i, d, n / d);
      assert false;
    }
  }

  /** Once i * i exceeds n, the reached sum is the full divisor sum
      without the trivial divisor 1. */
  lemma {:induction false} ReachedSumComplete(n: int, i: int, k: int)
    requires 2 <= i && i * i > n && 2 <= k <= n
    ensures 1 + ReachedSum(n, i, k) == DivisorSumBelow(n, k)
    decreases k
  {
    if k > 2 {
      ReachedSumComplete(n, i, k - 1);
      AllReached(n, k - 1, i);
    }
  }

  /** What trial divisor i contributes in the pairing scheme: nothing unless
      it divides n, else i and its cofactor n / i, the cofactor only when it
      differs from i. */
  function PairTerm(n: int, i: int): int
    requires i > 0
  {
    if n % i == 0 then i + (if i != n / i then n / i else 0) else 0
  }

  /** The contributions of the trial divisors 2 .. r - 1. */
  function PairSum(n: int, r: int): int
    decreases r
  {
    if r <= 2 then 0 else PairSum(n, r - 1) + PairTerm(n, r - 1)
  }

  /** So long as (r - 1) * (r - 1) <= n, the pairs gathered from the trial
      divisors below r are exactly the divisors of n in [2, n) reached so far. */
  lemma {:induction false} PairSumReached(n: int, r: int)
    requires 2 <= r && (r - 1) * (r - 1) <= n
    ensures PairSum(n, r) == ReachedSum(n, r, n)
    decreases r
  {
    if r == 2 {
      ReachedSumStart(n, n);
    } else {
      MulMono(r - 2, r - 2, r - 1, r - 1);
      PairSumReached(n, r - 1);
      ReachedSumStep(n, r - 1, n);
      BelowSquareRoot(n, r - 1);
    }
  }

  /** Summing divisor pairs (i, n / i) over 2 <= i < r, where r is the
      first trial divisor with r * r > n, and adding the trivial divisor 1
      gives the sum of the proper divisors of n: every proper divisor is
      counted, and a square-root divisor only once. */
  lemma DivisorPairing(n: int, r: int)
    requires n >= 2 && 2 <= r && (r - 1) * (r - 1) <= n < r * r
    ensures ProperDivisorSum(n) == 1 + PairSum(n, r)
  {
    PairSumReached(n, r);
    ReachedSumComplete(n, r, n);
  }

  /** 1 is not perfect (it has no proper divisors), yet the pairing scheme
      started at the trivial divisor 1 gathers exactly 1 for it: the sum
      alone would admit 1, so an explicit exclusion is needed. */
  lemma OneIsNotPerfect()
    ensures ProperDivisorSum(1) == 0 && !Perfect(1)
    ensures 1 + PairSum(1, 2) == 1
  {
  }

  // ---------------------------------------------------------------------------
  // Decimal digits and Armstrong numbers
  // ---------------------------------------------------------------------------

  /** The decimal digits of n, least significant first; 0 has the one digit 0. */
  function Digits(n: nat): (ds: seq<int>)
    ensures 1 <= |ds|
    ensures forall j :: 0 <= j < |ds| ==> 0 <= ds[j] <= 9
    ensures n > 0 ==> ds[|ds| - 1] != 0
    decreases n
  {
    if n < 10 then [n] else [n % 10] + Digits(n / 10)
  }

  /** The number whose decimal digits, least significant first, are ds. */
  function FromDigits(ds: seq<int>): int {
    if ds == [] then 0 else ds[0] + 10 * FromDigits(ds[1..])
  }

  /** Digits loses nothing: reading the digits back gives n. */
  lemma {:induction false} DigitsRoundTrip(n: nat)
    ensures FromDigits(Digits(n)) == n
    decreases n
  {
    if n >= 10 {
      DigitsRoundTrip(n / 10);
      assert Digits(n)[1..] == Digits(n / 10);
    }
  }

  /** The decimal text of a digit 0 .. 9. */
  function DigitChar(d: int): (c: char)
    requires 0 <= d <= 9
    ensures '0' <= c <= '9' && c as int - '0' as int == d
  {
    ('0' as int + d) as char
  }

  /** The decimal text of a natural number: the digits of n, most
      significant first, each written as its character. */
  function NatText(n: nat): (s: string)
    ensures |s| == |Digits(n)|
    ensures forall j :: 0 <= j < |s| ==> s[j] == DigitChar(Digits(n)[|s| - 1 - j])
    decreases n
  {
    if n < 10 then [DigitChar(n)] else NatText(n / 10) + [DigitChar(n % 10)]
  }

  /** C#'s `int.ToString()`: a leading '-' for negatives, then the digits of |n|. */
  function DecimalText(n: int): (s: string)
    ensures n >= 0 ==> |s| == |Digits(n)|
    ensures n < 0 ==> |s| == |Digits(-n)| + 1 && s[0] == '-'
  {
    if n < 0 then "-" + NatText(-n) else NatText(n)
  }

  /** b raised to the power e, exactly. */
  function Pow(b: int, e: nat): (r: int)
    ensures e == 0 ==> r == 1
    ensures e == 1 ==> r == b
    ensures e >= 1 && b == 0 ==> r == 0
    ensures b >= 0 ==> r >= 0
    ensures b >= 1 ==> r >= 1
    decreases e
  {
    if e == 0 then 1 else b * Pow(b, e - 1)
  }

  /** The sum of the digits ds, each raised to the power p. */
  function PowerSum(ds: seq<int>, p: nat): int {
    if ds == [] then 0 else Pow(ds[0], p) + PowerSum(ds[1..], p)
  }

  /** n is an Armstrong number: non-negative and equal to the sum of its
      decimal digits, each raised to the power of its digit count. */
  predicate Armstrong(n: int) {
    n >= 0 && PowerSum(Digits(n), |Digits(n)|) == n
  }

  /** Peeling the lowest digit off t > 0: with a positive exponent the
      leftover 0 once t < 10 contributes nothing. */
  lemma PeelDigit(t: int, p: nat)
    requires t > 0 && p >= 1
    ensures PowerSum(Digits(t), p) == Pow(t % 10, p) + PowerSum(Digits(t / 10), p)
  {
    if t < 10 {
      assert Digits(t / 10) == [0];
      assert Pow(0, p) == 0;
    }
  }

  /** Every number with a single decimal digit is an Armstrong number. */
  lemma SingleDigitsAreArmstrong(n: int)
    requires 0 <= n <= 9
    ensures Armstrong(n)
  {
    assert Digits(n) == [n];
  }

  /** 153 = 1^3 + 5^3 + 3^3. */
  lemma Armstrong153()
    ensures Armstrong(153)
  {
    assert Digits(153) == [3, 5, 1];
  }
}
