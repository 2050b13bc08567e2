/** The trial loops of IsPrime and IsPerfect as C# runs them on 32-bit `int`
    in an unchecked context: `i * i`, `i++` and the `sum` updates wrap around
    modulo 2^32, and `num % 0` throws. These members model the code as
    written; the rest of the project uses the mathematical loops of
    NumberController, which stop at the true square root. */
module Int32Loops {
  import opened Wrappers
  import opened NumberTheory
  import opened NumberController

  const MaxInt32: int := 0x7fff_ffff

  /** Two's-complement wrap-around of an integer to 32 bits. */
  function Wrap32(x: int): (r: Int32)
    ensures -0x8000_0000 <= x < 0x8000_0000 ==> r == x
  {
    (x + 0x8000_0000) % 0x1_0000_0000 - 0x8000_0000
  }

  /** The wrapped value differs from the exact one by a multiple of 2^32. */
  lemma Wrap32Congruent(x: int)
    ensures (Wrap32(x) - x) % 0x1_0000_0000 == 0
  {
  }

  /** How a call ends: with a return value, or with a DivideByZeroException. */
  datatype Outcome = Returned(value: bool) | DivideByZero

  /** The least num from which the guard `i * i <= num` never fails. */
  const NoExitFrom: int := 0x7fff_fff9

  /** Wrapping keeps the residue modulo 32, because 32 divides 2^32. */
  lemma Wrap32Mod32(x: int)
    ensures Wrap32(x) % 32 == x % 32
  {
    var k := (x + 0x8000_0000) / 0x1_0000_0000;
    assert x + 0x8000_0000 == 0x1_0000_0000 * k + (x + 0x8000_0000) % 0x1_0000_0000;
    var q, m := x / 32, x % 32;
    assert x == 32 * q + m;
    DivModUnique(Wrap32(x), 32, q - 0x800_0000 * k, m);
  }

  /** The squares of the residues 0 .. 31, modulo 32. */
  lemma ResidueSquareMod32(m: int)
    requires 0 <= m < 32
    ensures (m * m) % 32 in {0, 1, 4, 9, 16, 17, 25}
  {
    if m < 8 {
      assert m == 0 || m == 1 || m == 2 || m == 3 || m == 4 || m == 5 || m == 6 || m == 7;
    } else if m < 16 {
      assert m == 8 || m == 9 || m == 10 || m == 11 || m == 12 || m == 13 || m == 14 || m == 15;
    } else if m < 24 {
      assert m == 16 || m == 17 || m == 18 || m == 19 || m == 20 || m == 21 || m == 22 || m == 23;
    } else {
      assert m == 24 || m == 25 || m == 26 || m == 27 || m == 28 || m == 29 || m == 30 || m == 31;
    }
  }

  /** A square leaves one of the residues 0, 1, 4, 9, 16, 17, 25 modulo 32. */
  lemma SquareMod32(i: int)
    ensures (i * i) % 32 in {0, 1, 4, 9, 16, 17, 25}
  {
    var q, m := i / 32, i % 32;
    assert i == 32 * q + m;
    var qq, qm, mm := q * q, q * m, m * m;
    assert i * i == 1024 * qq + 64 * qm + mm;
    var b, r := mm / 32, mm % 32;
    assert mm == 32 * b + r;
    DivModUnique(i * i, 32, 32 * qq + 2 * qm + b, r);
    ResidueSquareMod32(m);
  }

  /** No wrapped 32-bit square lies in [2147483642, 2147483647]: those
      numbers leave the residues 26 .. 31 modulo 32, which no square leaves. */
  lemma WrappedSquareBound(i: int)
    ensures Wrap32(i * i) <= NoExitFrom
  {
    Wrap32Mod32(i * i);
    SquareMod32(i);
  }

  /** IsPrime with 32-bit `i * i` and `i++`.
      Up to 46340^2 = 2147395600 no square the loop computes wraps, so the
      answer is the mathematical one. From 2147483641 on, no `int` square
      exceeds num, so the guard never fails: the loop tries every i up to
      num itself and returns false at i == num at the latest. */
  method IsPrimeAsWritten(num: Int32) returns (r: bool)
    ensures num < 2 ==> !r
    ensures num <= 2147395600 ==> r == Prime(num)
    ensures num >= NoExitFrom ==> !r
  {
    if num < 2 {
      return false;
    }
    DivModUnique(num, num, 1, 0);
    var i: Int32 := 2;
    while Wrap32(i * i) <= num
      invariant 2 <= i <= num
      invariant num <= 2147395600 ==> i <= 46340
      invariant num <= 2147395600 ==> forall d :: 1 < d < i ==> num % d != 0
      decreases num - i
    {
      if num % i == 0 {
        if num <= 2147395600 {
          MulMono(i, i, 46340, 46340);
          BelowSquareRoot(num, i);
          DivisorMeansNotPrime(num, i);
        }
        return false;
      }
      if num <= 2147395600 {
        MulMono(i, i, 46340, 46340);
        if i == 46340 {
          assert false;
        }
      }
      assert i < num;
      i := Wrap32(i + 1);
    }
    if num <= 2147395600 {
      MulMono(i, i, 46340, 46340);
      NoDivisorBelowRootMeansPrime(num, i);
    }
    WrappedSquareBound(i);
    return true;
  }

  /** IsPerfect with 32-bit `i * i`, `i++` and `sum`. From 2147483641 on the
      guard never fails, so i runs up to int.MaxValue, wraps to
      int.MinValue, climbs through the negatives to 0, and `num % 0` throws. */
  method IsPerfectAsWritten(num: Int32) returns (o: Outcome)
    ensures num < 4 ==> o == Returned(false)
    ensures num >= NoExitFrom ==> o == DivideByZero
  {
    var sum: Int32 := 1;
    var i: Int32 := 2;
    while Wrap32(i * i) <= num
      invariant i != 1
      invariant num < 4 ==> i == 2 && sum == 1
      decreases if i >= 2 then 0x1_0000_0000 - i as int else 0 - i as int
    {
      if i == 0 {
        return DivideByZero;
      }
      // The quotient is only taken when i divides num, where C#'s truncating
      // division and Dafny's Euclidean division agree.
      if num % i == 0 {
        sum := Wrap32(sum + i);
        if i != num / i {
          sum := Wrap32(sum + num / i);
        }
      }
      i := Wrap32(i + 1);
    }
    WrappedSquareBound(i);
    o := Returned(sum == num && num != 1);
  }
}
