/**
 * `solve_quadratic` (`function.rs`) over the reals. The square root of the
 * discriminant is a parameter `s` with `s >= 0` and `s * s` equal to it.
 */
module Quadratic {
  import opened Wrappers

  function Discriminant(a: real, b: real, c: real): real {
    b * b - 4.0 * a * c
  }

  predicate IsRoot(a: real, b: real, c: real, x: real) {
    a * x * x + b * x + c == 0.0
  }

  /** `s` is the non-negative square root of the discriminant whenever that is non-negative. */
  predicate IsSqrtOfDiscriminant(a: real, b: real, c: real, s: real) {
    Discriminant(a, b, c) >= 0.0 ==> s >= 0.0 && s * s == Discriminant(a, b, c)
  }

  /** The numerically stable `q` of the positive-discriminant branch. */
  function StableQ(b: real, s: real): real {
    if b > 0.0 then -0.5 * (b + s) else -0.5 * (b - s)
  }

  /**
   * None exactly for a negative discriminant or a leading coefficient of 0 (a
   * linear equation is not solved); otherwise an ordered pair.
   */
  function SolveQuadratic(a: real, b: real, c: real, s: real): (r: Option<(real, real)>)
    requires IsSqrtOfDiscriminant(a, b, c, s)
    ensures r.None? <==> Discriminant(a, b, c) < 0.0 || a == 0.0
    ensures r.Some? ==> r.value.0 <= r.value.1
  {
    var discr := b * b - 4.0 * a * c;
    if discr < 0.0 || a == 0.0 then None
    else if discr == 0.0 then Some((-0.5 * b / a, -0.5 * b / a))
    else
      var q := StableQ(b, s);
      QNonZero(a, b, c, s);
      var x0 := q / a;
      var x1 := c / q;
      if x0 < x1 then Some((x0, x1)) else Some((x1, x0))
  }

  /** For a positive discriminant `q` is never 0, so `c / q` is defined. */
  lemma QNonZero(a: real, b: real, c: real, s: real)
    requires IsSqrtOfDiscriminant(a, b, c, s) && Discriminant(a, b, c) > 0.0
    ensures StableQ(b, s) != 0.0
  {
    assert s > 0.0;
  }

  /** `q` satisfies `q^2 + a c = -b q`, the identity behind both roots. */
  lemma QIdentity(a: real, b: real, c: real, s: real)
    requires IsSqrtOfDiscriminant(a, b, c, s) && Discriminant(a, b, c) > 0.0
    ensures StableQ(b, s) * StableQ(b, s) + a * c == -b * StableQ(b, s)
  {
    var e := if b > 0.0 then s else -s;
    assert e * e == b * b - 4.0 * a * c;
    assert StableQ(b, s) == -0.5 * (b + e);
  }

  /** For `a != 0`, `x` is a root iff `(2 a x + b)^2` is the discriminant. */
  lemma RootIffSquare(a: real, b: real, c: real, x: real)
    requires a != 0.0
    ensures IsRoot(a, b, c, x) <==> (2.0 * a * x + b) * (2.0 * a * x + b) == Discriminant(a, b, c)
  {
    assert (2.0 * a * x + b) * (2.0 * a * x + b) == 4.0 * a * (a * x * x + b * x) + b * b;
  }

  /**
   * Both returned values solve `a t^2 + b t + c = 0`; a double root is
   * `-b / (2 a)` and otherwise the product of the roots is `c / a`.
   */
  lemma SolveQuadraticRoots(a: real, b: real, c: real, s: real)
    requires IsSqrtOfDiscriminant(a, b, c, s)
    ensures var r := SolveQuadratic(a, b, c, s);
      r.Some? ==>
        && IsRoot(a, b, c, r.value.0) && IsRoot(a, b, c, r.value.1)
        && r.value.0 * r.value.1 == c / a
        && (Discriminant(a, b, c) == 0.0 ==> r.value.0 == r.value.1 == -b / (2.0 * a))
  {
    var d := Discriminant(a, b, c);
    if d == 0.0 && a != 0.0 {
      DoubleRoot(a, b, c);
    } else if d > 0.0 && a != 0.0 {
      DistinctRoots(a, b, c, s);
    }
  }

  lemma DoubleRoot(a: real, b: real, c: real)
    requires a != 0.0 && Discriminant(a, b, c) == 0.0
    ensures var x := -0.5 * b / a;
      IsRoot(a, b, c, x) && x * x == c / a && x == -b / (2.0 * a)
  {
    var x := -0.5 * b / a;
    assert a * x == -0.5 * b;
    assert a * x * x == -0.5 * b * x;
    assert a * (b * x) == -0.5 * b * b;
    assert a * (-0.5 * b * x + b * x + c) == 0.25 * b * b - 0.5 * b * b + a * c;
    assert a * (x * x) * a == 0.25 * b * b;
    assert a * (x * x) * a == a * c;
  }

  lemma DistinctRoots(a: real, b: real, c: real, s: real)
    requires IsSqrtOfDiscriminant(a, b, c, s) && a != 0.0 && Discriminant(a, b, c) > 0.0
    ensures var q := StableQ(b, s);
      q != 0.0 && IsRoot(a, b, c, q / a) && IsRoot(a, b, c, c / q) && (q / a) * (c / q) == c / a
  {
    var q := StableQ(b, s);
    QNonZero(a, b, c, s);
    QIdentity(a, b, c, s);
    RootOfQOverA(a, b, c, q);
    RootOfCOverQ(a, b, c, q);
    assert (q / a) * (c / q) == c / a;
  }

  lemma RootOfQOverA(a: real, b: real, c: real, q: real)
    requires a != 0.0 && q != 0.0 && q * q + a * c == -b * q
    ensures IsRoot(a, b, c, q / a)
  {
    var x := q / a;
    assert a * x == q;
    assert a * x * x == q * x;
    assert a * (q * x + b * x + c) == q * q + b * q + a * c;
  }

  lemma RootOfCOverQ(a: real, b: real, c: real, q: real)
    requires a != 0.0 && q != 0.0 && q * q + a * c == -b * q
    ensures IsRoot(a, b, c, c / q)
  {
    var x := c / q;
    assert q * x == c;
    assert q * q * (a * x * x + b * x + c) == a * c * c + b * c * q + c * q * q;
    assert a * c * c + b * c * q + c * q * q == c * (a * c + b * q + q * q);
  }

  /**
   * Every root of a genuine quadratic is returned: for `a != 0` a root exists
   * only when the result is Some, and it is one of the two values.
   */
  lemma SolveQuadraticComplete(a: real, b: real, c: real, s: real, x: real)
    requires IsSqrtOfDiscriminant(a, b, c, s) && a != 0.0 && IsRoot(a, b, c, x)
    ensures var r := SolveQuadratic(a, b, c, s);
      r.Some? && (x == r.value.0 || x == r.value.1)
  {
    RootForcesNonNegative(a, b, c, x);
    VietaRelations(a, b, c, s);
    var r := SolveQuadratic(a, b, c, s);
    RootIsOneOf(a, b, c, x, r.value.0, r.value.1);
  }

  /** Vieta's relations for `x0`, `x1`, scaled by `a`: sum `-b/a` and product `c/a`. */
  predicate VietaPair(a: real, b: real, c: real, x0: real, x1: real) {
    a * (x0 + x1) == -b && a * (x0 * x1) == c
  }

  /** The returned pair satisfies Vieta's relations. */
  lemma VietaRelations(a: real, b: real, c: real, s: real)
    requires IsSqrtOfDiscriminant(a, b, c, s) && a != 0.0 && Discriminant(a, b, c) >= 0.0
    ensures var r := SolveQuadratic(a, b, c, s);
      r.Some? && VietaPair(a, b, c, r.value.0, r.value.1)
  {
    VietaSum(a, b, c, s);
    var r := SolveQuadratic(a, b, c, s);
    if Discriminant(a, b, c) == 0.0 {
      DoubleRoot(a, b, c);
    } else {
      DistinctRoots(a, b, c, s);
    }
    ProductTimesA(a, c, r.value.0 * r.value.1);
  }

  /** A genuine quadratic with a root has a non-negative discriminant. */
  lemma RootForcesNonNegative(a: real, b: real, c: real, x: real)
    requires a != 0.0 && IsRoot(a, b, c, x)
    ensures Discriminant(a, b, c) >= 0.0
  {
    RootIffSquare(a, b, c, x);
    var y := 2.0 * a * x + b;
    assert y * y >= 0.0;
  }

  /** With the sum and product of two values fixed by Vieta, a root is one of them. */
  lemma RootIsOneOf(a: real, b: real, c: real, x: real, x0: real, x1: real)
    requires a != 0.0 && VietaPair(a, b, c, x0, x1) && IsRoot(a, b, c, x)
    ensures x == x0 || x == x1
  {
    Factored(a, x, x0, x1);
    FactorZero(a, x - x0, x - x1);
  }

  lemma ProductTimesA(a: real, c: real, p: real)
    requires a != 0.0 && p == c / a
    ensures a * p == c
  {
  }

  /** `a (x - x0) (x - x1) = a x^2 - a (x0 + x1) x + a x0 x1`. */
  lemma Factored(a: real, x: real, x0: real, x1: real)
    ensures a * ((x - x0) * (x - x1)) == a * x * x - a * (x0 + x1) * x + a * (x0 * x1)
  {
  }

  lemma FactorZero(a: real, u: real, v: real)
    requires a != 0.0 && a * (u * v) == 0.0
    ensures u == 0.0 || v == 0.0
  {
  }

  /** The two values add up to `-b / a`. */
  lemma VietaSum(a: real, b: real, c: real, s: real)
    requires IsSqrtOfDiscriminant(a, b, c, s) && a != 0.0 && Discriminant(a, b, c) >= 0.0
    ensures var r := SolveQuadratic(a, b, c, s);
      r.Some? && a * (r.value.0 + r.value.1) == -b
  {
    if Discriminant(a, b, c) > 0.0 {
      var q := StableQ(b, s);
      QNonZero(a, b, c, s);
      QIdentity(a, b, c, s);
      assert a * (q / a) == q;
      assert q * (c / q) == c;
      assert a * (c / q) * q == a * c;
      assert a * (c / q) * q == -b * q - q * q;
      assert a * (c / q) == -b - q;
    }
  }
}
