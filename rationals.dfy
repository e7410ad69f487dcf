/** `RatImpl` (mod.ts:32-115): an exact rational held as a pair of `bigint`s in
    canonical form, its canonicalising constructor, and its operations. Every
    operation builds its result through the constructor; the model states what
    each result means as a real number (`Value`) and proves that it is the
    canonical pair of that number. */
module Rationals {
  import opened Failures
  import opened Integers
  import opened Decimal

  /** A `RatImpl` instance: its two read-only fields. Instances never change
      after construction, so a datatype value models one exactly. */
  datatype Rat = Rat(num: int, denom: int)

  /** The canonical form every constructed instance has: a positive denominator
      and no common factor between numerator and denominator. */
  predicate Valid(x: Rat)
  {
    x.denom > 0 && Gcd(x.num, x.denom) == 1
  }

  /** The number an instance stands for. */
  ghost function Value(x: Rat): real
    requires x.denom != 0
  {
    x.num as real / x.denom as real
  }

  ghost function RealAbs(v: real): real
  {
    if v < 0.0 then -v else v
  }

  ghost function RealPower(v: real, e: nat): real
  {
    if e == 0 then 1.0 else v * RealPower(v, e - 1)
  }

  /** `Rat.zero` and `Rat.one` (mod.ts:148-149), the canonical pairs of 0 and 1. */
  const Zero := Rat(0, 1)
  const One := Rat(1, 1)

  /** The values the constructor accepts (its parameters are `unknown`): a
      `bigint` or integral `number`, a string, or an existing instance. */
  datatype Arg = Int(i: int) | Text(s: string) | Obj(r: Rat)

  /** `BigInt(v)` on a constructor argument. An instance is first turned into a
      primitive, which is its `toString()` text "num/denom"; `BigInt` rejects
      that text. */
  function ToBigInt(a: Arg): (r: Result<int>)
    ensures r.Ok? <==> a.Int? || (a.Text? && IsIntegerText(a.s))
    ensures r.Err? ==> r.error == SyntaxError
    ensures a.Int? ==> r == Ok(a.i)
    ensures a.Text? ==> r == ParseBigInt(a.s)
  {
    match a
    case Int(i) => Ok(i)
    case Text(s) => ParseBigInt(s)
    case Obj(x) =>
      InstanceText(x);
      ParseBigInt(ToString(x))
  }

  // ---------------------------------------------------------------------------
  // Construction (mod.ts:36-53).

  /** The canonicalising part of the constructor, on `bigint`s: throw
      `RangeError` on a zero denominator, move the sign into the numerator,
      divide both by their gcd. The result is canonical and denotes n/d. */
  function Normalize(n: int, d: int): (r: Result<Rat>)
    ensures r.Err? <==> d == 0
    ensures r.Err? ==> r.error == RangeError
    ensures r.Ok? ==> Valid(r.value) && r.value.num * d == n * r.value.denom
  {
    if d == 0 then Err(RangeError)
    else
      var n1 := if d < 0 then -n else n;
      var d1 := if d < 0 then -d else d;
      var g := Gcd(n1, d1);
      ReducedPair(n1, d1);
      Ok(Rat(Quot(n1, g), Quot(d1, g)))
  }

  /** The constructor with its argument coercion: `BigInt(num)`, then
      `BigInt(denom)`, then canonicalisation. */
  function Construct(a: Arg, b: Arg): (r: Result<Rat>)
    ensures r.Ok? <==> ToBigInt(a).Ok? && ToBigInt(b).Ok? && ToBigInt(b).value != 0
    ensures ToBigInt(a).Err? ==> r == Err(ToBigInt(a).error)
    ensures ToBigInt(a).Ok? && ToBigInt(b).Err? ==> r == Err(ToBigInt(b).error)
    ensures ToBigInt(a).Ok? && ToBigInt(b).Ok? && r.Err? ==> r.error == RangeError
    ensures r.Ok? ==> Valid(r.value) && r.value.num * ToBigInt(b).value == ToBigInt(a).value * r.value.denom
  {
    var n :- ToBigInt(a);
    var d :- ToBigInt(b);
    Normalize(n, d)
  }

  /** The constructor as mod.ts:36-53 runs it: coerce both arguments, reject a
      zero denominator, flip both signs when the denominator is negative, then
      divide both fields by their gcd. */
  method NewRat(a: Arg, b: Arg) returns (r: Result<Rat>)
    ensures r == Construct(a, b)
  {
    var numIn := ToBigInt(a);
    if numIn.Err? {
      return Err(numIn.error);
    }
    var denomIn := ToBigInt(b);
    if denomIn.Err? {
      return Err(denomIn.error);
    }
    var num, denom := numIn.value, denomIn.value;
    CoercedArguments(a, b);
    if denom == 0 {
      return Err(RangeError);
    }
    if denom < 0 {
      num := -num;
      denom := -denom;
    }
    NormalizeSteps(numIn.value, denomIn.value, num, denom);
    var g := ComputeGcd(num, denom);
    num := Quot(num, g);
    denom := Quot(denom, g);
    r := Ok(Rat(num, denom));
  }

  /** Once both arguments are coerced, the constructor is `Normalize`. */
  lemma CoercedArguments(a: Arg, b: Arg)
    requires ToBigInt(a).Ok? && ToBigInt(b).Ok?
    ensures Construct(a, b) == Normalize(ToBigInt(a).value, ToBigInt(b).value)
  {
  }

  /** `Normalize` divides the sign-adjusted pair (n1, d1) by its gcd. */
  lemma NormalizeSteps(n: int, d: int, n1: int, d1: int)
    requires d != 0
    requires (d < 0 ==> n1 == -n && d1 == -d) && (d > 0 ==> n1 == n && d1 == d)
    ensures Gcd(n1, d1) > 0
    ensures Normalize(n, d) == Ok(Rat(Quot(n1, Gcd(n1, d1)), Quot(d1, Gcd(n1, d1))))
  {
  }

  // ---------------------------------------------------------------------------
  // The operations (mod.ts:55-114).

  /** `sign` (mod.ts:55-57): -1, 0 or 1 as the number is negative, zero or positive. */
  function Sign(x: Rat): (r: int)
    requires Valid(x)
    ensures r == 1 <==> Value(x) > 0.0
    ensures r == 0 <==> Value(x) == 0.0
    ensures r == -1 <==> Value(x) < 0.0
  {
    SignOfValue(x);
    if x.num > 0 then 1 else if x.num == 0 then 0 else -1
  }

  /** `abs` (mod.ts:59-61): the absolute value; only the numerator's sign changes. */
  function Abs(x: Rat): (r: Rat)
    requires Valid(x)
    ensures Valid(r) && Value(r) == RealAbs(Value(x))
    ensures r.num >= 0 && r.denom == x.denom
  {
    var n := Integers.Abs(x.num);
    GcdAbs(x.num, x.denom);
    NormalizeCanonical(n, x.denom, Rat(n, x.denom));
    SignOfValue(x);
    assert Value(Rat(n, x.denom)) == RealAbs(Value(x));
    Normalize(n, x.denom).value
  }

  /** `neg` (mod.ts:63-65): the additive inverse; only the numerator's sign changes. */
  function Neg(x: Rat): (r: Rat)
    requires Valid(x)
    ensures Valid(r) && Value(r) == -Value(x)
    ensures r.num == -x.num && r.denom == x.denom
  {
    NegatedPair(x);
    Normalize(-x.num, x.denom).value
  }

  /** `inv` (mod.ts:67-69): the reciprocal; the constructor throws `RangeError`
      for zero. Otherwise the parts swap places, the sign staying on top. */
  function Inv(x: Rat): (r: Result<Rat>)
    requires Valid(x)
    ensures r.Err? <==> x.num == 0
    ensures r.Err? ==> r.error == RangeError
    ensures r.Ok? ==> Valid(r.value) && Value(r.value) == 1.0 / Value(x)
    ensures r.Ok? ==> (r.value.denom == Integers.Abs(x.num) &&
                       r.value.num == if x.num < 0 then -x.denom else x.denom)
  {
    if x.num == 0 then
      Normalize(x.denom, x.num)
    else
      InvertedPair(x);
      Normalize(x.denom, x.num)
  }

  /** `add` (mod.ts:71-76): the canonical form of (a·d + c·b)/(b·d). */
  function Add(x: Rat, y: Rat): (r: Rat)
    requires Valid(x) && Valid(y)
    ensures Valid(r) && Value(r) == Value(x) + Value(y)
  {
    var n, d := x.num * y.denom + y.num * x.denom, x.denom * y.denom;
    PositiveProduct(x.denom, y.denom);
    var r := Normalize(n, d).value;
    CrossValue(r, n, d);
    SumValue(x.num, x.denom, y.num, y.denom);
    r
  }

  /** `sub` (mod.ts:78-83): the canonical form of (a·d - c·b)/(b·d). */
  function Sub(x: Rat, y: Rat): (r: Rat)
    requires Valid(x) && Valid(y)
    ensures Valid(r) && Value(r) == Value(x) - Value(y)
  {
    var n, d := x.num * y.denom - y.num * x.denom, x.denom * y.denom;
    PositiveProduct(x.denom, y.denom);
    var r := Normalize(n, d).value;
    CrossValue(r, n, d);
    DifferenceValue(x.num, x.denom, y.num, y.denom);
    r
  }

  /** `mul` (mod.ts:85-87): the canonical form of (a·c)/(b·d). */
  function Mul(x: Rat, y: Rat): (r: Rat)
    requires Valid(x) && Valid(y)
    ensures Valid(r) && Value(r) == Value(x) * Value(y)
  {
    var n, d := x.num * y.num, x.denom * y.denom;
    PositiveProduct(x.denom, y.denom);
    var r := Normalize(n, d).value;
    CrossValue(r, n, d);
    ProductValue(x.num, x.denom, y.num, y.denom);
    r
  }

  /** `div` (mod.ts:89-91): the canonical form of (a·d)/(b·c); the constructor
      throws `RangeError` when the divisor is zero. */
  function Div(x: Rat, y: Rat): (r: Result<Rat>)
    requires Valid(x) && Valid(y)
    ensures r.Err? <==> y.num == 0
    ensures r.Err? ==> r.error == RangeError
    ensures r.Ok? ==> Valid(r.value) && Value(r.value) == Value(x) / Value(y)
  {
    var n, d := x.num * y.denom, x.denom * y.num;
    ZeroProduct(x.denom, y.num);
    var r := Normalize(n, d);
    if r.Ok? then
      CrossValue(r.value, n, d);
      QuotientValue(x.num, x.denom, y.num, y.denom);
      r
    else
      r
  }

  /** `cmp` (mod.ts:93-100): decided by the signs when they differ, by the
      numerators when the denominators agree, and by cross-multiplication
      otherwise. Whatever the path, the answer is the order of the two
      numbers, and 0 exactly for the same instance. */
  function Cmp(x: Rat, y: Rat): (r: int)
    requires Valid(x) && Valid(y)
    ensures r == 1 <==> Value(x) > Value(y)
    ensures r == -1 <==> Value(x) < Value(y)
    ensures r == 0 <==> x == y
  {
    var leftSign, rightSign := Sign(x), Sign(y);
    if leftSign != rightSign then
      if leftSign > rightSign then 1 else -1
    else if x.denom == y.denom then
      CompareNumerators(x, y);
      Compare(x.num, y.num)
    else
      CompareCross(x, y);
      Compare(x.num * y.denom, x.denom * y.num)
  }

  /** Over a common denominator, the numerators order the numbers. */
  lemma CompareNumerators(x: Rat, y: Rat)
    requires Valid(x) && Valid(y) && x.denom == y.denom
    ensures Compare(x.num, y.num) == 1 <==> Value(x) > Value(y)
    ensures Compare(x.num, y.num) == -1 <==> Value(x) < Value(y)
    ensures Compare(x.num, y.num) == 0 <==> x == y
  {
    var d := x.denom as real;
    assert Value(x) - Value(y) == (x.num - y.num) as real / d;
  }

  /** Cross-multiplied numerators order the numbers. */
  lemma CompareCross(x: Rat, y: Rat)
    requires Valid(x) && Valid(y)
    ensures Compare(x.num * y.denom, x.denom * y.num) == 1 <==> Value(x) > Value(y)
    ensures Compare(x.num * y.denom, x.denom * y.num) == -1 <==> Value(x) < Value(y)
    ensures Compare(x.num * y.denom, x.denom * y.num) == 0 <==> x == y
  {
    var a, b := x.num * y.denom, x.denom * y.num;
    assert b == y.num * x.denom;
    OrderByCross(x, y);
    if a == b {
      assert Value(x) == Value(y);
      ValueInjective(x, y);
    } else {
      assert x != y;
    }
  }

  /** `floor` (mod.ts:102-104): `bigint` division of the fields, which
      truncates toward zero, so a negative non-integer rounds up. */
  function Floor(x: Rat): (r: int)
    requires Valid(x)
    ensures Value(x) >= 0.0 ==> r as real <= Value(x) < r as real + 1.0
    ensures Value(x) < 0.0 ==> r as real - 1.0 < Value(x) <= r as real
  {
    var q := Quot(x.num, x.denom);
    SignOfValue(x);
    TruncationBounds(x.num, x.denom, q);
    q
  }

  /** `pow` (mod.ts:106-110): for e > 0 the fields raised to e; for e <= 0 the
      swapped fields raised to -e, so e = 0 gives 1 even for zero, and a
      negative e throws `RangeError` for zero. */
  function Pow(x: Rat, e: int): (r: Result<Rat>)
    requires Valid(x)
    ensures r.Err? <==> e < 0 && x.num == 0
    ensures r.Err? ==> r.error == RangeError
    ensures r.Ok? ==> Valid(r.value)
    ensures e == 0 ==> r == Ok(Rat(1, 1))
    ensures e > 0 ==> r == Ok(Rat(Power(x.num, e), Power(x.denom, e)))
    ensures e >= 0 ==> Value(r.value) == RealPower(Value(x), e)
    ensures e < 0 && r.Ok? ==> Value(r.value) * RealPower(Value(x), -e) == 1.0
  {
    if e > 0 then
      RaisedPair(x, e);
      Normalize(Power(x.num, e), Power(x.denom, e))
    else
      SwappedRaisedPair(x, -e);
      Normalize(Power(x.denom, -e), Power(x.num, -e))
  }

  /** `toString` (mod.ts:112-114): "num/denom"; cutting it at '/' gives back
      the decimal texts of the two fields. */
  function ToString(x: Rat): (s: string)
    ensures Split(s, '/') == [IntToString(x.num), IntToString(x.denom)]
  {
    var s := IntToString(x.num) + "/" + IntToString(x.denom);
    assert Join([IntToString(x.num), IntToString(x.denom)], '/') == s;
    SplitJoin([IntToString(x.num), IntToString(x.denom)], '/');
    s
  }
  /** The text of an instance is never an integer text: it holds a '/'. */
  lemma InstanceText(x: Rat)
    ensures !IsIntegerText(ToString(x))
  {
    var s := ToString(x);
    var a := IntToString(x.num);
    assert s == a + "/" + IntToString(x.denom);
    assert s[|a|] == '/';
    if |s| >= 2 && s[0] == '-' {
      assert s[1..][|a| - 1] == '/';
    }
  }


  // ---------------------------------------------------------------------------
  // Facts the operations rest on.

  /** Dividing a pair with positive second part by its gcd gives a canonical
      pair with the same ratio. */
  lemma ReducedPair(n: int, d: int)
    requires d > 0
    ensures var g := Gcd(n, d);
      g > 0 && Valid(Rat(Quot(n, g), Quot(d, g))) && Quot(n, g) * d == n * Quot(d, g)
  {
    var g := Gcd(n, d);
    GcdAbs(n, d);
    GcdOfQuotients(Integers.Abs(n), d);
    QuotExact(n, g);
    QuotExact(d, g);
    var p, q := Quot(n, g), Quot(d, g);
    GcdAbs(p, q);
    assert q > 0;
    CrossOfScaled(p, q, g, n, d);
  }

  lemma CrossOfScaled(p: int, q: int, g: int, n: int, d: int)
    requires p * g == n && q * g == d
    ensures p * d == n * q
  {
    calc {
      p * d;
      p * (q * g);
      (p * g) * q;
      n * q;
    }
  }

  /** A division by an exact divisor truncates nothing. */
  lemma QuotExact(n: int, g: nat)
    requires g > 0 && Divides(g, n)
    ensures Quot(n, g) * g == n
    ensures Integers.Abs(Quot(n, g)) == Integers.Abs(n) / g
  {
    DividesAbs(g, n);
    DividesCofactor(g, Integers.Abs(n));
    var m := Integers.Abs(n) / g;
    assert Integers.Abs(n) == g * m;
  }

  /** Cross-multiplication is equality of values. */
  lemma CrossValue(r: Rat, n: int, d: int)
    requires r.denom > 0 && d != 0 && r.num * d == n * r.denom
    ensures Value(r) == n as real / d as real
  {
    assert (r.num * d) as real == r.num as real * d as real;
    assert (n * r.denom) as real == n as real * r.denom as real;
  }

  /** A canonical pair is determined by its value. */
  lemma ValueInjective(x: Rat, y: Rat)
    requires Valid(x) && Valid(y)
    ensures Value(x) == Value(y) <==> x == y
  {
    if Value(x) == Value(y) {
      CrossOfValue(x, y);
      CanonicalUnique(x, y);
    }
  }

  lemma CrossOfValue(x: Rat, y: Rat)
    requires x.denom > 0 && y.denom > 0 && Value(x) == Value(y)
    ensures x.num * y.denom == y.num * x.denom
  {
    var a, b, c, d := x.num as real, x.denom as real, y.num as real, y.denom as real;
    assert a / b == c / d;
    assert a * d == c * b;
    assert (x.num * y.denom) as real == a * d;
    assert (y.num * x.denom) as real == c * b;
  }

  /** Two canonical pairs with equal cross products are the same pair. */
  lemma CanonicalUnique(x: Rat, y: Rat)
    requires Valid(x) && Valid(y) && x.num * y.denom == y.num * x.denom
    ensures x == y
  {
    var a, b, c, d := Integers.Abs(x.num), x.denom, Integers.Abs(y.num), y.denom;
    AbsMul(x.num, d);
    AbsMul(y.num, b);
    assert a * d == c * b;
    GcdAbs(x.num, b);
    GcdAbs(y.num, d);
    // b divides c·b = a·d and is coprime to a, so b divides d; and the other way round.
    MultipleDivides(b, c);
    assert b * c == a * d;
    CoprimeDivides(a, b, d);
    MultipleDivides(d, a);
    assert d * a == c * b;
    CoprimeDivides(c, d, b);
    DividesAntisym(b, d);
    assert (x.num - y.num) * d == 0;
    MulZero(x.num - y.num, d);
  }

  /** Canonicalising any pair with the value of a canonical pair yields that pair. */
  lemma NormalizeCanonical(n: int, d: int, x: Rat)
    requires Valid(x) && d != 0 && x.num * d == n * x.denom
    ensures Normalize(n, d) == Ok(x)
  {
    var r := Normalize(n, d).value;
    CrossValue(r, n, d);
    CrossValue(x, n, d);
    ValueInjective(r, x);
  }

  lemma SignOfValue(x: Rat)
    requires x.denom > 0
    ensures Value(x) > 0.0 <==> x.num > 0
    ensures Value(x) == 0.0 <==> x.num == 0
    ensures Value(x) < 0.0 <==> x.num < 0
  {
  }

  lemma OrderByCross(x: Rat, y: Rat)
    requires x.denom > 0 && y.denom > 0
    ensures Value(x) < Value(y) <==> x.num * y.denom < y.num * x.denom
    ensures Value(x) > Value(y) <==> x.num * y.denom > y.num * x.denom
  {
    var a, b, c, d := x.num as real, x.denom as real, y.num as real, y.denom as real;
    assert (x.num * y.denom) as real == a * d;
    assert (y.num * x.denom) as real == c * b;
    assert a / b - c / d == (a * d - c * b) / (b * d);
  }

  lemma PositiveProduct(a: int, b: int)
    requires a > 0 && b > 0
    ensures a * b > 0
  {
    MulMonotone(a, 1, b);
  }

  lemma ZeroProduct(a: int, b: int)
    requires a != 0
    ensures a * b == 0 <==> b == 0
  {
    if a * b == 0 { MulZero(a, b); }
  }

  lemma SumValue(a: int, b: int, c: int, d: int)
    requires b > 0 && d > 0
    ensures (a * d + c * b) as real / (b * d) as real == a as real / b as real + c as real / d as real
  {
    assert (b * d) as real == b as real * d as real;
    assert (a * d + c * b) as real == a as real * d as real + c as real * b as real;
  }

  lemma ProductValue(a: int, b: int, c: int, d: int)
    requires b > 0 && d > 0
    ensures (a * c) as real / (b * d) as real == (a as real / b as real) * (c as real / d as real)
  {
    assert (b * d) as real == b as real * d as real;
    assert (a * c) as real == a as real * c as real;
  }

  lemma QuotientValue(a: int, b: int, c: int, d: int)
    requires b > 0 && d > 0 && c != 0
    ensures (a * d) as real / (b * c) as real == (a as real / b as real) / (c as real / d as real)
  {
    var A, B, C, D := a as real, b as real, c as real, d as real;
    assert (b * c) as real == B * C;
    assert (a * d) as real == A * D;
    assert (A / B) / (C / D) == (A / B) * (D / C);
    assert (A / B) * (D / C) == (A * D) / (B * C);
  }

  lemma DifferenceValue(a: int, b: int, c: int, d: int)
    requires b > 0 && d > 0
    ensures (a * d - c * b) as real / (b * d) as real == a as real / b as real - c as real / d as real
  {
    assert (b * d) as real == b as real * d as real;
    assert (a * d - c * b) as real == a as real * d as real - c as real * b as real;
  }

  lemma NegatedPair(x: Rat)
    requires Valid(x)
    ensures Normalize(-x.num, x.denom) == Ok(Rat(-x.num, x.denom))
    ensures Value(Rat(-x.num, x.denom)) == -Value(x)
  {
    GcdAbs(x.num, x.denom);
    assert Valid(Rat(-x.num, x.denom));
    NormalizeCanonical(-x.num, x.denom, Rat(-x.num, x.denom));
    assert (-x.num) as real == -(x.num as real);
    NegatedQuotient(x.num as real, x.denom as real);
  }

  lemma NegatedQuotient(n: real, d: real)
    requires d != 0.0
    ensures -n / d == -(n / d)
  {
  }

  /** The pair (n^e, d^e) of a canonical n/d is canonical already and denotes (n/d)^e. */
  lemma RaisedPair(x: Rat, e: nat)
    requires Valid(x)
    ensures Power(x.denom, e) > 0
    ensures Normalize(Power(x.num, e), Power(x.denom, e)) == Ok(Rat(Power(x.num, e), Power(x.denom, e)))
    ensures Value(Rat(Power(x.num, e), Power(x.denom, e))) == RealPower(Value(x), e)
  {
    var n, d := Power(x.num, e), Power(x.denom, e);
    CoprimePower(x.num, x.denom, e);
    NormalizeCanonical(n, d, Rat(n, d));
    PowerValue(x.num, x.denom, e);
  }

  /** The pair (d^k, n^k) of a canonical n/d: 1/1 for k = 0, a `RangeError`
      for zero and k > 0, and otherwise a canonical pair denoting 1/(n/d)^k. */
  lemma SwappedRaisedPair(x: Rat, k: nat)
    requires Valid(x)
    ensures var r := Normalize(Power(x.denom, k), Power(x.num, k));
      && (r.Err? <==> k > 0 && x.num == 0)
      && (r.Err? ==> r.error == RangeError)
      && (r.Ok? ==> Valid(r.value))
      && (k == 0 ==> r == Ok(Rat(1, 1)) && Value(r.value) == RealPower(Value(x), 0))
      && (k > 0 && r.Ok? ==> Value(r.value) * RealPower(Value(x), k) == 1.0)
  {
    if k == 0 {
      NormalizeCanonical(1, 1, Rat(1, 1));
    } else {
      if x.num != 0 {
        SwappedRaisedNonzero(x, k);
      }
    }
  }

  lemma SwappedRaisedNonzero(x: Rat, k: nat)
    requires Valid(x) && x.num != 0 && k > 0
    ensures var r := Normalize(Power(x.denom, k), Power(x.num, k));
      r.Ok? && Value(r.value) * RealPower(Value(x), k) == 1.0
  {
    var n, d := Power(x.denom, k), Power(x.num, k);
    assert d != 0;
    var r := Normalize(n, d).value;
    PowerValue(x.num, x.denom, k);
    assert RealPower(Value(x), k) == d as real / n as real;
    CrossValue(r, n, d);
    assert Value(r) == n as real / d as real;
    RealInverse(n as real, d as real);
  }

  lemma RealInverse(n: real, d: real)
    requires n != 0.0 && d != 0.0
    ensures (n / d) * (d / n) == 1.0
  {
  }

  /** The swapped pair of a canonical non-zero n/d, with the sign moved to the
      top, is canonical and denotes d/n. */
  lemma InvertedPair(x: Rat)
    requires Valid(x) && x.num != 0
    ensures var y := Rat(if x.num < 0 then -x.denom else x.denom, Integers.Abs(x.num));
      && Normalize(x.denom, x.num) == Ok(y)
      && Valid(y) && Value(y) == 1.0 / Value(x)
  {
    var y := Rat(if x.num < 0 then -x.denom else x.denom, Integers.Abs(x.num));
    assert Gcd(y.num, y.denom) == 1 by {
      GcdSymmetric(x.num, x.denom);
      GcdAbs(x.denom, x.num);
      GcdAbs(y.num, y.denom);
    }
    assert y.num * x.num == x.denom * y.denom;
    NormalizeCanonical(x.denom, x.num, y);
    CrossValue(y, x.denom, x.num);
    RealReciprocal(x.num as real, x.denom as real);
  }

  lemma RealReciprocal(n: real, d: real)
    requires n != 0.0 && d != 0.0
    ensures d / n == 1.0 / (n / d)
  {
    assert (n / d) * (d / n) == 1.0;
  }

  lemma RealDivBounds(a: real, b: real, d: real)
    requires d > 0.0
    ensures a * d <= b <==> a <= b / d
    ensures a * d < b <==> a < b / d
    ensures b <= a * d <==> b / d <= a
    ensures b < a * d <==> b / d < a
  {
    assert (b / d) * d == b;
  }

  lemma TruncationBounds(n: int, d: int, q: int)
    requires d > 0 && q == Quot(n, d)
    ensures n >= 0 ==> q as real <= n as real / d as real < q as real + 1.0
    ensures n < 0 ==> q as real - 1.0 < n as real / d as real <= q as real
  {
    var a := Integers.Abs(q);
    assert a * d <= Integers.Abs(n) < (a + 1) * d;
    if n >= 0 {
      assert q * d <= n < (q + 1) * d;
      RealLowerBound(q, n, d);
      RealUpperBound(q + 1, n, d);
    } else {
      assert (q - 1) * d < n <= q * d;
      RealLowerBound(q - 1, n, d);
      RealUpperBound(q, n, d);
    }
  }

  lemma RealLowerBound(k: int, n: int, d: int)
    requires d > 0
    ensures k * d <= n ==> k as real <= n as real / d as real
    ensures k * d < n ==> k as real < n as real / d as real
  {
    assert (k * d) as real == k as real * d as real;
    RealDivBounds(k as real, n as real, d as real);
  }

  lemma RealUpperBound(k: int, n: int, d: int)
    requires d > 0
    ensures n <= k * d ==> n as real / d as real <= k as real
    ensures n < k * d ==> n as real / d as real < k as real
  {
    assert (k * d) as real == k as real * d as real;
    RealDivBounds(k as real, n as real, d as real);
  }

  /** The value of (n^e)/(d^e) is (n/d)^e. */
  lemma {:induction false} PowerValue(n: int, d: int, e: nat)
    requires d > 0
    ensures Power(d, e) > 0
    ensures Power(n, e) as real / Power(d, e) as real == RealPower(n as real / d as real, e)
  {
    if e > 0 {
      PowerValue(n, d, e - 1);
      ProductValue(n, d, Power(n, e - 1), Power(d, e - 1));
    }
  }

}
