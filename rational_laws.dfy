/** What the operations of `RatImpl` (mod.ts:36-110) promise together:
    canonical construction does not depend on how a value is written, the
    operations relate to one another as the arithmetic of rationals does, and
    `cmp` is a total order that agrees with the cross-multiplication rule. */
module RationalLaws {
  import opened Failures
  import Integers
  import opened Rationals

  // ---------------------------------------------------------------------------
  // Construction.

  /** Constructing from a canonical pair gives that pair back. */
  lemma NormalizeCanonicalPair(x: Rat)
    requires Valid(x)
    ensures Normalize(x.num, x.denom) == Ok(x)
  {
    NormalizeCanonical(x.num, x.denom, x);
  }

  /** Two pairs construct the same instance exactly when they denote the same
      number: the result does not depend on how the fraction is written
      (4/8 and 1/2 and -1/-2 give one instance). */
  lemma NormalizeSameValue(n: int, d: int, m: int, e: int)
    requires d != 0 && e != 0
    ensures Normalize(n, d) == Normalize(m, e) <==> n * e == m * d
  {
    var x, y := Normalize(n, d).value, Normalize(m, e).value;
    CrossValue(x, n, d);
    CrossValue(y, m, e);
    ValueInjective(x, y);
    CrossIsRatio(n, d, m, e);
  }

  lemma CrossIsRatio(n: int, d: int, m: int, e: int)
    requires d != 0 && e != 0
    ensures n * e == m * d <==> n as real / d as real == m as real / e as real
  {
    var N, D, M, E := n as real, d as real, m as real, e as real;
    assert (n * e) as real == N * E;
    assert (m * d) as real == M * D;
    RealCrossEqual(N, D, M, E);
  }

  lemma RealCrossEqual(n: real, d: real, m: real, e: real)
    requires d != 0.0 && e != 0.0
    ensures n / d == m / e <==> n * e == m * d
  {
    assert (n / d) * (d * e) == n * e;
    assert (m / e) * (d * e) == m * d;
  }

  /** Scaling both parts by a non-zero factor changes nothing. */
  lemma NormalizeScale(n: int, d: int, k: int)
    requires d != 0 && k != 0
    ensures k * d != 0
    ensures Normalize(k * n, k * d) == Normalize(n, d)
  {
    ZeroProduct(k, d);
    assert (k * n) * d == n * (k * d);
    NormalizeSameValue(k * n, k * d, n, d);
  }

  // ---------------------------------------------------------------------------
  // The unary operations.

  lemma NegInvolution(x: Rat)
    requires Valid(x)
    ensures Neg(Neg(x)) == x
  {
    var y := Neg(x);
    assert y.num == -x.num && y.denom == x.denom;
  }

  lemma AbsOfNeg(x: Rat)
    requires Valid(x)
    ensures Abs(Neg(x)) == Abs(x)
    ensures Abs(Abs(x)) == Abs(x)
  {
    ValueInjective(Abs(Neg(x)), Abs(x));
    ValueInjective(Abs(Abs(x)), Abs(x));
  }

  lemma InvInvolution(x: Rat)
    requires Valid(x) && x.num != 0
    ensures Inv(x).Ok? && Valid(Inv(x).value)
    ensures Inv(Inv(x).value) == Ok(x)
  {
    var y := Inv(x).value;
    assert y.num != 0;
    var z := Inv(y).value;
    assert Value(z) == 1.0 / (1.0 / Value(x));
    ValueInjective(z, x);
  }

  // ---------------------------------------------------------------------------
  // Addition and subtraction.

  lemma AddZero(x: Rat)
    requires Valid(x)
    ensures Add(Zero, x) == x && Add(x, Zero) == x
  {
    Integers.GcdZeroLeft(1);
    ValueInjective(Add(Zero, x), x);
    ValueInjective(Add(x, Zero), x);
  }

  lemma AddCommutative(x: Rat, y: Rat)
    requires Valid(x) && Valid(y)
    ensures Add(x, y) == Add(y, x)
  {
    ValueInjective(Add(x, y), Add(y, x));
  }

  lemma AddAssociative(x: Rat, y: Rat, z: Rat)
    requires Valid(x) && Valid(y) && Valid(z)
    ensures Add(Add(x, y), z) == Add(x, Add(y, z))
  {
    ValueInjective(Add(Add(x, y), z), Add(x, Add(y, z)));
  }

  /** `sub` is `add` of the negation. */
  lemma SubIsAddNeg(x: Rat, y: Rat)
    requires Valid(x) && Valid(y)
    ensures Sub(x, y) == Add(x, Neg(y))
  {
    ValueInjective(Sub(x, y), Add(x, Neg(y)));
  }

  /** `sub` undoes `add`. */
  lemma SubUndoesAdd(x: Rat, y: Rat)
    requires Valid(x) && Valid(y)
    ensures Sub(Add(x, y), y) == x
  {
    ValueInjective(Sub(Add(x, y), y), x);
  }

  lemma SubSelf(x: Rat)
    requires Valid(x)
    ensures Sub(x, x) == Zero
  {
    Integers.GcdZeroLeft(1);
    ValueInjective(Sub(x, x), Zero);
  }

  // ---------------------------------------------------------------------------
  // Multiplication and division.

  lemma MulOne(x: Rat)
    requires Valid(x)
    ensures Mul(One, x) == x && Mul(x, One) == x
  {
    ValueInjective(Mul(One, x), x);
    ValueInjective(Mul(x, One), x);
  }

  lemma MulCommutative(x: Rat, y: Rat)
    requires Valid(x) && Valid(y)
    ensures Mul(x, y) == Mul(y, x)
  {
    ValueInjective(Mul(x, y), Mul(y, x));
  }

  /** A non-zero instance times its reciprocal is one. */
  lemma MulInv(x: Rat)
    requires Valid(x) && x.num != 0
    ensures Inv(x).Ok? && Valid(Inv(x).value)
    ensures Mul(x, Inv(x).value) == One
  {
    var y := Inv(x).value;
    assert Value(x) != 0.0;
    assert Value(x) * (1.0 / Value(x)) == 1.0;
    ValueInjective(Mul(x, y), One);
  }

  /** `div` is `mul` by the reciprocal, and fails exactly when `inv` does. */
  lemma DivIsMulInv(x: Rat, y: Rat)
    requires Valid(x) && Valid(y)
    ensures Div(x, y).Err? <==> Inv(y).Err?
    ensures Inv(y).Ok? ==> Valid(Inv(y).value) && Div(x, y) == Ok(Mul(x, Inv(y).value))
  {
    if y.num != 0 {
      var q, z := Div(x, y).value, Inv(y).value;
      var m := Mul(x, z);
      assert Value(q) == Value(m) by {
        SignOfValue(y);
        DivideByReciprocal(Value(x), Value(y));
      }
      ValueInjective(q, m);
    }
  }

  lemma DivideByReciprocal(a: real, b: real)
    requires b != 0.0
    ensures a / b == a * (1.0 / b)
  {
  }

  /** `mul` undoes `div`. */
  lemma MulUndoesDiv(x: Rat, y: Rat)
    requires Valid(x) && Valid(y) && y.num != 0
    ensures Div(x, y).Ok? && Valid(Div(x, y).value)
    ensures Mul(Div(x, y).value, y) == x
  {
    var q := Div(x, y).value;
    assert Value(y) != 0.0;
    assert (Value(x) / Value(y)) * Value(y) == Value(x);
    ValueInjective(Mul(q, y), x);
  }

  // ---------------------------------------------------------------------------
  // Comparison.

  /** `cmp` is the sign of a.d - c.b, whichever path it takes. */
  lemma CmpIsCrossSign(x: Rat, y: Rat)
    requires Valid(x) && Valid(y)
    ensures Cmp(x, y) == Integers.Compare(x.num * y.denom, y.num * x.denom)
  {
    OrderByCross(x, y);
    ValueInjective(x, y);
    if x == y {
      assert x.num * y.denom == y.num * x.denom;
    } else {
      assert x.num * y.denom != y.num * x.denom by {
        if x.num * y.denom == y.num * x.denom { CanonicalUnique(x, y); }
      }
    }
  }

  /** `cmp` is the sign of the difference. */
  lemma CmpIsSignOfSub(x: Rat, y: Rat)
    requires Valid(x) && Valid(y)
    ensures Cmp(x, y) == Sign(Sub(x, y))
  {
    ValueInjective(x, y);
  }

  lemma CmpAntisymmetric(x: Rat, y: Rat)
    requires Valid(x) && Valid(y)
    ensures Cmp(x, y) == -Cmp(y, x)
  {
    ValueInjective(x, y);
  }

  lemma CmpTransitive(x: Rat, y: Rat, z: Rat)
    requires Valid(x) && Valid(y) && Valid(z)
    requires Cmp(x, y) <= 0 && Cmp(y, z) <= 0
    ensures Cmp(x, z) <= 0
  {
    ValueInjective(x, y);
    ValueInjective(y, z);
    ValueInjective(x, z);
  }

  // ---------------------------------------------------------------------------
  // Floor and power.

  /** `floor` of an integer is that integer. */
  lemma FloorOfInteger(x: Rat)
    requires Valid(x) && x.denom == 1
    ensures Floor(x) == x.num
  {
    assert Value(x) == x.num as real;
  }

  /** `floor` truncates: it is the mathematical floor for non-negative values
      and one more than it for negative non-integers. */
  lemma FloorTruncates(x: Rat)
    requires Valid(x)
    ensures x.num >= 0 || x.denom == 1 ==> Floor(x) as real <= Value(x) < Floor(x) as real + 1.0
    ensures x.num < 0 && x.denom != 1 ==> Floor(x) as real - 1.0 < Value(x) < Floor(x) as real
  {
    SignOfValue(x);
    if x.num < 0 && x.denom != 1 {
      if Value(x) == Floor(x) as real {
        var y := Rat(Floor(x), 1);
        Integers.GcdZeroLeft(1);
        Integers.GcdSymmetric(Floor(x), 1);
        assert Integers.Gcd(1, Floor(x)) == 1 by {
          var g := Integers.Gcd(1, Floor(x));
          Integers.DividesBound(g, 1);
        }
        ValueInjective(x, y);
      }
    } else if x.denom == 1 {
      FloorOfInteger(x);
    }
  }

  lemma PowZero(x: Rat)
    requires Valid(x)
    ensures Pow(x, 0) == Ok(One)
  {
  }

  lemma PowOne(x: Rat)
    requires Valid(x)
    ensures Pow(x, 1) == Ok(x)
  {
    assert Integers.Power(x.num, 1) == x.num && Integers.Power(x.denom, 1) == x.denom;
  }

  /** A negative exponent is the reciprocal of the positive power. */
  lemma PowNegative(x: Rat, e: int)
    requires Valid(x) && x.num != 0 && e > 0
    ensures Pow(x, e).Ok? && Valid(Pow(x, e).value) && Pow(x, e).value.num != 0
    ensures Pow(x, -e) == Inv(Pow(x, e).value)
  {
    var p := Pow(x, e).value;
    var q := Pow(x, -e).value;
    assert Value(x) != 0.0;
    RealPowerNonzero(Value(x), e);
    assert Value(p) != 0.0;
    SignOfValue(p);
    var i := Inv(p).value;
    assert Value(q) * Value(p) == 1.0;
    assert Value(i) == 1.0 / Value(p);
    assert Value(q) == 1.0 / Value(p);
    ValueInjective(q, i);
  }

  lemma {:induction false} RealPowerNonzero(v: real, e: nat)
    requires v != 0.0
    ensures RealPower(v, e) != 0.0
  {
    if e > 0 {
      RealPowerNonzero(v, e - 1);
    }
  }
}
