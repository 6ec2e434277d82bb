/** The conversion of an integer to Go's float64: binary64 with roundTiesToEven, section 4.3.1 of IEEE 754-2019.
    A float64 of an int64 is itself an integer, so it is modelled by that integer. */
module Float64 {
  import opened Arith

  const TWO52 := 0x10_0000_0000_0000
  const TWO53 := 0x20_0000_0000_0000

  /** The spacing of float64 numbers at n. */
  function Ulp(n: nat): (u: nat)
    ensures u > 0
  {
    if n < TWO53 then 1 else 2 * Ulp(n / 2)
  }

  /** n rounded to a multiple of its spacing, ties to the even multiple. */
  function RoundNat(n: nat): nat {
    var u := Ulp(n);
    var q, r := n / u, n % u;
    if 2 * r < u || (2 * r == u && q % 2 == 0) then q * u else q * u + u
  }

  function Float64(n: int): int {
    var m: int := RoundNat(if n < 0 then -n else n);
    if n < 0 then -m else m
  }

  lemma {:induction false} SignificandBounds(n: nat)
    requires n >= TWO53
    ensures TWO52 * Ulp(n) <= n < TWO53 * Ulp(n)
  {
    if n / 2 < TWO53 {
      assert Ulp(n / 2) == 1;
    } else {
      SignificandBounds(n / 2);
    }
  }

  lemma ExactUpTo53Bits(n: int)
    requires -TWO53 <= n <= TWO53
    ensures Float64(n) == n
  {
  }

  lemma WithinHalfAnUlp(n: nat)
    ensures 0 - Ulp(n) <= 2 * (RoundNat(n) - n) <= Ulp(n)
  {
    DivMod(n, Ulp(n));
  }

  lemma ErrorBound(e: int, u: nat, n: nat)
    requires 0 - u <= 2 * e <= u && TWO52 * u <= n
    ensures 0 - n <= e * TWO53 <= n
  {
  }

  /** The rounding error is at most half a spacing, so at most n * 2^-53. */
  lemma RelativeError(n: nat)
    ensures 0 - n <= (Float64(n) - n) * TWO53 <= n
  {
    if n < TWO53 {
      ExactUpTo53Bits(n);
    } else {
      SignificandBounds(n);
      WithinHalfAnUlp(n);
      ErrorBound(RoundNat(n) - n, Ulp(n), n);
    }
  }

  /** The first number that is not kept. */
  lemma NotExactBeyond()
    ensures Float64(TWO53 + 1) == TWO53
  {
    var n := TWO53 + 1;
    assert Ulp(n / 2) == 1;
    assert Ulp(n) == 2;
  }

  /** Rounding does not cross a bound of at most 53 bits, on either side of zero. */
  lemma KeepsBounds(n: int, b: nat)
    requires b <= TWO53
    ensures n >= b ==> Float64(n) >= b
    ensures n <= 0 - b ==> Float64(n) <= 0 - b
  {
    if -TWO53 <= n <= TWO53 {
      ExactUpTo53Bits(n);
    } else {
      var m := if n < 0 then -n else n;
      RelativeError(m);
    }
  }
}
