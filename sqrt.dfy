/**
 * `Math.sqrt` is a library call whose body is not part of this model.
 * Every member that needs it takes the square root as a parameter and
 * requires only that it returns the non-negative square root of every
 * non-negative argument, exactly (IEEE rounding is not modelled).
 */
module RealSqrt {

  ghost predicate IsSqrt(sqrt: real -> real)
  {
    forall a :: 0.0 <= a ==> 0.0 <= sqrt(a) && sqrt(a) * sqrt(a) == a
  }

  /** Squares of non-negative reals are strictly ordered as the reals are. */
  lemma SquareStrictlyMonotone(p: real, q: real)
    requires 0.0 <= p < q
    ensures p * p < q * q
  {
    var d := q - p;
    assert q * q == p * p + d * (p + q);
    assert 0.0 < d * (p + q);
  }

  /** The square root is the unique non-negative root: sqrt(r * r) == r. */
  lemma SqrtUnique(sqrt: real -> real, a: real, r: real)
    requires IsSqrt(sqrt)
    requires 0.0 <= r && r * r == a
    ensures sqrt(a) == r
  {
    var s := sqrt(a);
    assert 0.0 <= s && s * s == a;
    if s < r {
      SquareStrictlyMonotone(s, r);
    } else if r < s {
      SquareStrictlyMonotone(r, s);
    }
  }

  /** The square root is monotone. */
  lemma SqrtMonotone(sqrt: real -> real, a: real, b: real)
    requires IsSqrt(sqrt)
    requires 0.0 <= a <= b
    ensures sqrt(a) <= sqrt(b)
  {
    var sa, sb := sqrt(a), sqrt(b);
    assert 0.0 <= sa && sa * sa == a;
    assert 0.0 <= sb && sb * sb == b;
    if sb < sa {
      SquareStrictlyMonotone(sb, sa);
    }
  }

  /** The square root of a positive number is positive. */
  lemma SqrtPositive(sqrt: real -> real, a: real)
    requires IsSqrt(sqrt)
    requires 0.0 < a
    ensures 0.0 < sqrt(a)
  {
    var s := sqrt(a);
    assert s * s == a;
  }

  /** Non-negative numbers are ordered as their squares are. */
  lemma OrderedBySquares(p: real, q: real)
    requires 0.0 <= p && 0.0 <= q && p * p <= q * q
    ensures p <= q
  {
    if q < p {
      SquareStrictlyMonotone(q, p);
    }
  }
}
