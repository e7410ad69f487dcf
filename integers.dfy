/** Arbitrary-precision integer helpers of mod.ts: `abs`, `cmp`, `gcd`, and the
    operators of JavaScript `bigint` that behave differently from Dafny's `int`
    (truncating `/`). Divisibility and the greatest-common-divisor facts the
    rational type relies on are proved here. */
module Integers {

  /** `abs` (mod.ts:3). */
  function Abs(a: int): (r: nat)
    ensures r == a || r == -a
  {
    if a < 0 then -a else a
  }

  /** The three-way `cmp` helper (mod.ts:4). */
  function Compare(a: int, b: int): (r: int)
    ensures r == 1 <==> a > b
    ensures r == 0 <==> a == b
    ensures r == -1 <==> a < b
  {
    if a > b then 1 else if a == b then 0 else -1
  }

  /** The `bigint` operator `/`, which truncates toward zero (unlike Dafny's
      Euclidean `/`). The contract pins the result down: its magnitude is the
      number of whole |b|'s in |a|, and it is negative only when the signs of
      the operands differ. */
  function Quot(a: int, b: int): (q: int)
    requires b != 0
    ensures Abs(q) * Abs(b) <= Abs(a) < (Abs(q) + 1) * Abs(b)
    ensures q > 0 ==> (a > 0) == (b > 0)
    ensures q < 0 ==> (a > 0) != (b > 0)
  {
    var m := Abs(a) / Abs(b);
    QuotBounds(Abs(a), Abs(b));
    if (a < 0) == (b < 0) then m else -m
  }

  lemma QuotBounds(x: nat, y: nat)
    requires y > 0
    ensures x / y >= 0
    ensures (x / y) * y <= x < (x / y + 1) * y
    ensures x / y > 0 ==> x > 0
  {
    var m, r := x / y, x % y;
    assert x == m * y + r;
    assert (m + 1) * y == m * y + y;
  }

  /** The `bigint` operator `**` for a non-negative exponent (`0n ** 0n` is 1). */
  function Power(b: int, e: nat): (r: int)
    ensures r == 0 <==> b == 0 && e > 0
    ensures b > 0 ==> r > 0
    decreases e
  {
    if e == 0 then 1
    else
      var p := Power(b, e - 1);
      ProductSign(b, p);
      b * p
  }

  lemma ProductSign(a: int, b: int)
    ensures a * b == 0 <==> a == 0 || b == 0
    ensures a > 0 && b > 0 ==> a * b > 0
  {
    if a * b == 0 { MulZero(a, b); }
    if a > 0 && b > 0 { MulMonotone(a, 1, b); }
  }

  /** k divides n; 0 divides only 0. */
  predicate Divides(k: nat, n: int)
  {
    if k == 0 then n == 0 else n % k == 0
  }

  // ---------------------------------------------------------------------------
  // Elementary facts about division.

  lemma DivModUnique(n: int, d: int, q: int, r: int)
    requires d > 0 && n == d * q + r && 0 <= r < d
    ensures n / d == q && n % d == r
  {
    var q0, r0 := n / d, n % d;
    assert n == d * q0 + r0;
    if q0 < q {
      assert d * (q - q0) == r0 - r;
      assert d * (q - q0) >= d by { MulMonotone(d, 1, q - q0); }
    } else if q < q0 {
      assert d * (q0 - q) == r - r0;
      assert d * (q0 - q) >= d by { MulMonotone(d, 1, q0 - q); }
    }
  }

  lemma MulMonotone(d: nat, a: int, b: int)
    requires a <= b
    ensures d * a <= d * b
  {
    assert d * b - d * a == d * (b - a);
  }

  /** A multiple of k is divisible by k. */
  lemma MultipleDivides(k: nat, m: int)
    ensures Divides(k, k * m)
  {
    if k > 0 {
      DivModUnique(k * m, k, m, 0);
    }
  }

  /** A divisor provides its cofactor. */
  lemma DividesCofactor(k: nat, n: int)
    requires Divides(k, n)
    ensures n == k * (if k == 0 then 0 else n / k)
  {
  }

  /** Divisibility is closed under integer linear combinations. */
  lemma DividesLinear(k: nat, a: int, b: int, x: int, y: int)
    requires Divides(k, a) && Divides(k, b)
    ensures Divides(k, x * a + y * b)
  {
    if k > 0 {
      var p, q := a / k, b / k;
      DividesCofactor(k, a);
      DividesCofactor(k, b);
      assert x * a + y * b == k * (x * p + y * q) by {
        assert x * a == k * (x * p);
        assert y * b == k * (y * q);
      }
      MultipleDivides(k, x * p + y * q);
    }
  }

  /** A positive multiple is at least as large as the divisor. */
  lemma DividesBound(k: nat, n: int)
    requires Divides(k, n) && n > 0
    ensures k <= n
  {
    DividesCofactor(k, n);
    var q := n / k;
    assert q >= 1 by {
      if q <= 0 { MulMonotone(k, q, 0); }
    }
    MulMonotone(k, 1, q);
  }

  lemma DividesAbs(k: nat, n: int)
    ensures Divides(k, n) <==> Divides(k, Abs(n))
  {
    if k > 0 && n < 0 {
      if Divides(k, n) { DividesLinear(k, n, 0, -1, 0); }
      if Divides(k, -n) { DividesLinear(k, -n, 0, -1, 0); }
    }
  }

  /** Divisibility is transitive. */
  lemma DividesTrans(a: nat, b: nat, c: int)
    requires Divides(a, b) && Divides(b, c)
    ensures Divides(a, c)
  {
    if b > 0 {
      var q := c / b;
      DividesCofactor(b, c);
      DividesLinear(a, b, 0, q, 0);
      assert q * b + 0 * 0 == c;
    } else {
      assert c == 0;
      MultipleDivides(a, 0);
    }
  }

  /** Scaling both sides preserves divisibility. */
  lemma DividesScale(k: nat, n: int, m: nat)
    requires Divides(k, n)
    ensures Divides(k * m, n * m)
  {
    DividesCofactor(k, n);
    var q := if k == 0 then 0 else n / k;
    assert n * m == (k * m) * q;
    MultipleDivides(k * m, q);
  }

  /** Cancelling a positive common factor preserves divisibility. */
  lemma DividesCancel(k: nat, n: int, m: nat)
    requires m > 0 && Divides(k * m, n * m)
    ensures Divides(k, n)
  {
    if k == 0 {
      assert n * m == 0;
    } else {
      DividesCofactor(k * m, n * m);
      var q := (n * m) / (k * m);
      assert (n - k * q) * m == 0;
      assert n == k * q;
      MultipleDivides(k, q);
    }
  }

  /** Mutual divisibility of non-negative numbers is equality. */
  lemma DividesAntisym(a: nat, b: nat)
    requires Divides(a, b) && Divides(b, a)
    ensures a == b
  {
    if a > 0 && b > 0 {
      DividesBound(a, b);
      DividesBound(b, a);
    }
  }

  // ---------------------------------------------------------------------------
  // The greatest common divisor.

  /** Euclid's algorithm on non-negative numbers, as the loop of `gcd` runs it. */
  /** a is its quotient by b times b, plus its remainder. */
  lemma DivisionIdentity(a: int, b: int)
    requires b != 0
    ensures (a / b) * b + 1 * (a % b) == a
    ensures 1 * a + -(a / b) * b == a % b
  {
  }

  function Euclid(a: nat, b: nat): (g: nat)
    ensures Divides(g, a) && Divides(g, b)
    decreases b
  {
    if b == 0 then
      MultipleDivides(a, 1);
      MultipleDivides(a, 0);
      a
    else
      var g := Euclid(b, a % b);
      DividesLinear(g, b, a % b, a / b, 1);
      DivisionIdentity(a, b);
      g
  }

  /** `gcd` (mod.ts:5-14): Euclid on the absolute values. */
  function Gcd(a: int, b: int): (g: nat)
    ensures Divides(g, a) && Divides(g, b)
    ensures g == 0 <==> a == 0 && b == 0
  {
    var g := Euclid(Abs(a), Abs(b));
    DividesAbs(g, a);
    DividesAbs(g, b);
    g
  }

  lemma {:induction false} EuclidGreatest(a: nat, b: nat, k: nat)
    requires Divides(k, a) && Divides(k, b)
    ensures Divides(k, Euclid(a, b))
    decreases b
  {
    if b != 0 {
      DividesLinear(k, a, b, 1, -(a / b));
      DivisionIdentity(a, b);
      EuclidGreatest(b, a % b, k);
    }
  }

  /** Every common divisor of a and b divides Gcd(a, b): Gcd is the greatest. */
  lemma GcdGreatest(a: int, b: int, k: nat)
    requires Divides(k, a) && Divides(k, b)
    ensures Divides(k, Gcd(a, b))
  {
    DividesAbs(k, a);
    DividesAbs(k, b);
    EuclidGreatest(Abs(a), Abs(b), k);
  }

  /** `gcd(0, d)` is |d|. */
  lemma GcdZeroLeft(d: int)
    ensures Gcd(0, d) == Abs(d)
  {
    var g := Gcd(0, d);
    MultipleDivides(Abs(d), 0);
    MultipleDivides(Abs(d), 1);
    DividesAbs(Abs(d), d);
    GcdGreatest(0, d, Abs(d));
    DividesAbs(g, d);
    DividesAntisym(g, Abs(d));
  }

  lemma GcdSymmetric(a: int, b: int)
    ensures Gcd(a, b) == Gcd(b, a)
  {
    GcdGreatest(a, b, Gcd(b, a));
    GcdGreatest(b, a, Gcd(a, b));
    DividesAntisym(Gcd(a, b), Gcd(b, a));
  }

  /** Gcd depends only on the absolute values of its arguments. */
  lemma GcdAbs(a: int, b: int)
    ensures Gcd(a, b) == Gcd(Abs(a), Abs(b)) == Gcd(-a, b)
  {
  }

  /** The characterisation: a common divisor divisible by every common divisor is the Gcd. */
  lemma GcdUnique(a: int, b: int, g: nat)
    requires Divides(g, a) && Divides(g, b)
    requires forall k: nat :: Divides(k, a) && Divides(k, b) ==> Divides(k, g)
    ensures g == Gcd(a, b)
  {
    GcdGreatest(a, b, g);
    DividesAntisym(g, Gcd(a, b));
  }

  /** Gcd(m·a, m·b) == m·Gcd(a, b). */
  lemma GcdScale(a: nat, b: nat, m: nat)
    ensures Gcd(m * a, m * b) == m * Gcd(a, b)
  {
    var g := Gcd(a, b);
    var h := Gcd(m * a, m * b);
    DividesScale(g, a, m);
    DividesScale(g, b, m);
    assert m * a == a * m && m * b == b * m && m * g == g * m;
    GcdGreatest(m * a, m * b, m * g);
    if m > 0 {
      // m divides both m·a and m·b, so m divides h; h / m is a common divisor of a and b.
      MultipleDivides(m, a);
      MultipleDivides(m, b);
      GcdGreatest(m * a, m * b, m);
      DividesCofactor(m, h);
      var c := h / m;
      assert h == c * m;
      assert Divides(c * m, a * m) && Divides(c * m, b * m);
      DividesCancel(c, a, m);
      DividesCancel(c, b, m);
      GcdGreatest(a, b, c);
      DividesScale(c, g, m);
      assert Divides(h, m * g);
    } else {
      assert h == 0;
    }
    DividesAntisym(h, m * g);
  }

  /** Euclid's lemma: a number coprime to d whose product with c is a multiple
      of d leaves d dividing c. */
  lemma CoprimeDivides(a: nat, d: nat, c: nat)
    requires Gcd(a, d) == 1 && Divides(d, a * c)
    ensures Divides(d, c)
  {
    GcdScale(a, d, c);
    assert Gcd(c * a, c * d) == c;
    assert a * c == c * a;
    MultipleDivides(d, c);
    assert c * d == d * c;
    GcdGreatest(c * a, c * d, d);
  }

  /** Dividing two numbers by their gcd leaves them coprime. */
  lemma GcdOfQuotients(a: nat, b: nat)
    requires b > 0
    ensures var g := Gcd(a, b); g > 0 && Gcd(a / g, b / g) == 1
  {
    var g := Gcd(a, b);
    DividesCofactor(g, a);
    DividesCofactor(g, b);
    var a', b' := a / g, b / g;
    assert g * a' == a && g * b' == b;
    GcdScale(a', b', g);
    assert g * Gcd(a', b') == g;
    assert g * Gcd(a', b') == g * 1;
  }

  lemma AbsMul(a: int, b: int)
    ensures Abs(a * b) == Abs(a) * Abs(b)
  {
    if a < 0 && b >= 0 { assert a * b == -(Abs(a) * b); MulMonotone(Abs(a), 0, b); }
    if a >= 0 && b < 0 { assert a * b == -(a * Abs(b)); MulMonotone(a, 0, Abs(b)); }
    if a < 0 && b < 0 { assert a * b == Abs(a) * Abs(b); }
    if a >= 0 && b >= 0 { MulMonotone(a, 0, b); }
  }

  lemma MulZero(a: int, b: int)
    requires a * b == 0
    ensures a == 0 || b == 0
  {
    AbsMul(a, b);
    if a != 0 && b != 0 { MulMonotone(Abs(a), 1, Abs(b)); }
  }

  /** A product of two numbers coprime to d is coprime to d. */
  lemma CoprimeMul(a: int, p: int, d: int)
    requires Gcd(a, d) == 1 && Gcd(p, d) == 1
    ensures Gcd(a * p, d) == 1
  {
    var h := Gcd(a * p, d);
    assert h != 0 by {
      if h == 0 {
        assert d == 0 && a * p == 0;
        MulZero(a, p);
      }
    }
    // The common divisors of h and a divide gcd(a, d) = 1 ...
    var u := Gcd(h, Abs(a));
    assert u == 1 by {
      DividesAbs(u, a);
      DividesTrans(u, h, d);
      GcdGreatest(a, d, u);
      DividesBound(u, 1);
    }
    GcdSymmetric(h, Abs(a));
    // ... so h, which divides a·p, divides p (Euclid's lemma) ...
    assert Divides(h, Abs(a) * Abs(p)) by {
      DividesAbs(h, a * p);
      AbsMul(a, p);
    }
    CoprimeDivides(Abs(a), h, Abs(p));
    DividesAbs(h, p);
    // ... and hence divides gcd(p, d) = 1.
    GcdGreatest(p, d, h);
    DividesBound(h, 1);
  }

  /** A power of a number coprime to d stays coprime to d. */
  lemma {:induction false} CoprimePowerLeft(a: int, d: int, e: nat)
    requires Gcd(a, d) == 1
    ensures Gcd(Power(a, e), d) == 1
    decreases e
  {
    if e == 0 {
      var h := Gcd(1, d);
      DividesBound(h, 1);
    } else {
      CoprimePowerLeft(a, d, e - 1);
      CoprimeMul(a, Power(a, e - 1), d);
    }
  }

  lemma CoprimePower(a: int, d: int, e: nat)
    requires Gcd(a, d) == 1
    ensures Gcd(Power(a, e), Power(d, e)) == 1
  {
    CoprimePowerLeft(a, d, e);
    GcdSymmetric(Power(a, e), d);
    CoprimePowerLeft(d, Power(a, e), e);
    GcdSymmetric(Power(d, e), Power(a, e));
  }

  // ---------------------------------------------------------------------------
  // The imperative loop of `gcd`.

  /** `gcd` as mod.ts:5-14 runs it: take absolute values, then replace
      (a, b) by (b, a % b) until b is 0. */
  method ComputeGcd(a0: int, b0: int) returns (g: nat)
    ensures g == Gcd(a0, b0)
    ensures Divides(g, a0) && Divides(g, b0)
  {
    var a: nat := Abs(a0);
    var b: nat := Abs(b0);
    while b != 0
      invariant Euclid(a, b) == Gcd(a0, b0)
      decreases b
    {
      var c := b;
      b := a % b;
      a := c;
    }
    g := a;
  }
}
