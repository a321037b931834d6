/**
 * Integer division as the Swift source performs it.
 *
 * Swift's `/` and `%` on `Int` truncate toward zero and the remainder takes
 * the sign of the dividend; Dafny's own `/` and `%` are Euclidean (the
 * remainder is never negative).  `TDiv` and `TMod` model Swift's operators
 * and are used wherever a dividend in the source can be negative.
 */
module Arith {

  function Abs(x: int): (r: int)
    ensures 0 <= r && (r == x || r == -x)
  {
    if x < 0 then -x else x
  }

  /** Quotient rounded toward zero (Swift `a / b`). */
  function TDiv(a: int, b: int): (q: int)
    requires b != 0
    ensures 0 <= a ==> 0 <= a - b * q < Abs(b)
    ensures a < 0 ==> -Abs(b) < a - b * q <= 0
  {
    if 0 <= a then a / b else -((-a) / b)
  }

  /** Remainder with the sign of the dividend (Swift `a % b`). */
  function TMod(a: int, b: int): (r: int)
    requires b != 0
    ensures a == b * TDiv(a, b) + r
    ensures 0 <= a ==> 0 <= r < Abs(b)
    ensures a < 0 ==> -Abs(b) < r <= 0
  {
    if 0 <= a then a % b else -((-a) % b)
  }

  /** On a non-negative dividend and a positive divisor Swift and Dafny agree. */
  lemma TruncatedIsEuclideanWhenNonNegative(a: int, b: int)
    requires 0 <= a && 0 < b
    ensures TDiv(a, b) == a / b && TMod(a, b) == a % b
  {
  }

  /** A dividend smaller in size than the divisor has quotient zero and is its own remainder. */
  lemma TruncatedOfSmall(a: int, b: int)
    requires 0 < b && -b < a < b
    ensures TDiv(a, b) == 0 && TMod(a, b) == a
  {
    if a < 0 {
      EuclideanOfSmall(-a, b);
    } else {
      EuclideanOfSmall(a, b);
    }
  }

  lemma EuclideanOfSmall(x: int, b: int)
    requires 0 <= x < b
    ensures x / b == 0 && x % b == x
  {
  }

  /** Truncating division is odd in its dividend; that is what makes `until` antisymmetric. */
  lemma TDivNegate(a: int, b: int)
    requires 0 < b
    ensures TDiv(-a, b) == -TDiv(a, b)
    ensures TMod(-a, b) == -TMod(a, b)
  {
    if 0 < a {
      assert TDiv(-a, b) == -(a / b);
    } else if a < 0 {
      assert TDiv(a, b) == -((-a) / b);
    }
  }

  /** A multiple of a positive divisor leaves no Euclidean remainder. */
  lemma MultipleHasNoRemainder(k: int, b: int)
    requires 0 < b
    ensures (b * k) % b == 0
  {
    var q, r := (b * k) / b, (b * k) % b;
    assert r == b * (k - q);
    if k - q > 0 {
      MultipleAtLeast(b, k - q);
      assert false;
    } else if k - q < 0 {
      MultipleAtLeast(b, q - k);
      assert false;
    }
  }

  lemma MultipleAtLeast(b: int, d: int)
    requires 0 < b && 0 < d
    ensures b <= b * d
  {
  }

  /** A number is divisible exactly when its negation is. */
  lemma NegatedRemainderZero(n: int, b: int)
    requires 0 < b
    ensures n % b == 0 <==> (-n) % b == 0
  {
    if n % b == 0 {
      MultipleHasNoRemainder(-(n / b), b);
      assert -n == b * (-(n / b));
    }
    if (-n) % b == 0 {
      MultipleHasNoRemainder(-((-n) / b), b);
      assert n == b * (-((-n) / b));
    }
  }

  /** Swift's `a % b == 0` and Dafny's agree, whatever the sign of `a`. */
  lemma TModZeroIff(a: int, b: int)
    requires 0 < b
    ensures TMod(a, b) == 0 <==> a % b == 0
  {
    if a < 0 {
      NegatedRemainderZero(-a, b);
    }
  }
}
