/**
  Arbitrary-precision integer helpers: the truncating division of the
  source's big-integer type, and decimal rendering of an unsigned number.
*/
module Integers {

  function Abs(x: int): nat
  {
    if x < 0 then -x else x
  }

  /** Euclidean division of a natural number, spelled out for the solver. */
  lemma EuclideanNat(a: nat, b: int)
    requires b > 0
    ensures 0 <= (a / b) * b <= a < (a / b) * b + b
  {
  }

  /** Quotient rounded toward zero (Dafny's own `/` is Euclidean). */
  function TDiv(a: int, b: int): (q: int)
    requires b > 0
    ensures a >= 0 ==> 0 <= q * b <= a < q * b + b
    ensures a < 0 ==> q * b - b < a <= q * b <= 0
  {
    if a >= 0 then
      EuclideanNat(a, b);
      a / b
    else
      EuclideanNat(-a, b);
      assert -((-a) / b) * b == -(((-a) / b) * b);
      -((-a) / b)
  }

  /** Remainder matching TDiv: it takes the sign of the dividend. */
  function TMod(a: int, b: int): (r: int)
    requires b > 0
    ensures TDiv(a, b) * b + r == a
    ensures a >= 0 ==> 0 <= r < b
    ensures a < 0 ==> -b < r <= 0
    ensures Abs(r) <= Abs(a)
  {
    a - TDiv(a, b) * b
  }

  function Digit(d: nat): char
    requires d < 10
  {
    "0123456789"[d]
  }

  /** Decimal rendering without leading zeros. */
  function NatToString(n: nat): (s: string)
    ensures |s| >= 1
    ensures n < 10 <==> |s| == 1
    ensures forall i :: 0 <= i < |s| ==> '0' <= s[i] <= '9'
    decreases n
  {
    if n < 10 then [Digit(n)] else NatToString(n / 10) + [Digit(n % 10)]
  }

  lemma DigitInjective(a: nat, b: nat)
    requires a < 10 && b < 10
    ensures Digit(a) == Digit(b) ==> a == b
  {
  }

  /** Distinct numbers render as distinct strings. */
  lemma {:induction false} NatToStringInjective(m: nat, n: nat)
    ensures NatToString(m) == NatToString(n) ==> m == n
    decreases m
  {
    if NatToString(m) == NatToString(n) {
      var s := NatToString(m);
      if m < 10 {
        DigitInjective(m, n);
      } else {
        assert n >= 10;
        var k := |s| - 1;
        assert s[k] == Digit(m % 10) == Digit(n % 10);
        DigitInjective(m % 10, n % 10);
        assert s[..k] == NatToString(m / 10) == NatToString(n / 10);
        NatToStringInjective(m / 10, n / 10);
      }
    }
  }
}
