/** The public entry point of mod.ts: `stringToRat` (mod.ts:119-129), the
    `Rat` function that picks a way to build an instance from the shape of its
    arguments (mod.ts:140-145), and the constants `Rat.zero` and `Rat.one`
    (mod.ts:148-149). */
module RatConstructor {
  import opened Failures
  import opened Decimal
  import opened Rationals
  import Integers

  /** A second argument that may be left out (`undefined`). */
  datatype Option<+T> = None | Some(value: T)

  /** JavaScript truthiness of an argument: `0`, `0n` and `""` are falsy, any
      other number or string and every object are truthy. */
  function Truthy(a: Arg): (t: bool)
    ensures !t <==> a == Int(0) || a == Text("")
  {
    match a
    case Int(i) => i != 0
    case Text(s) => s != ""
    case Obj(_) => true
  }

  /** `stringToRat` (mod.ts:119-129): text with a '/' is split into numerator
      and denominator texts (pieces after a second '/' are ignored); text
      without one is split at '.', the two pieces glued into the numerator
      and 10 to the number of fraction digits taken as the denominator (pieces
      after a second '.' are ignored); plain text is a numerator over 1. */
  function StringToRat(s: string): (r: Result<Rat>)
    ensures r.Ok? ==> Valid(r.value)
    ensures r.Err? ==> r.error == SyntaxError || r.error == RangeError
    ensures '/' !in s ==> r.Err? ==> r.error == SyntaxError
  {
    var strs := Split(s, '/');
    if |strs| == 1 then
      var ints := Split(strs[0], '.');
      if |ints| == 1 then
        Construct(Text(ints[0]), Int(1))
      else
        Construct(Text(ints[0] + ints[1]), Int(Pow10(|ints[1]|)))
    else
      Construct(Text(strs[0]), Text(strs[1]))
  }

  /** `Rat(a, b)` (mod.ts:140-145): a truthy second argument sends both to the
      constructor; otherwise an instance is returned as it is, a string is
      parsed, and anything else throws `TypeError`. A falsy second argument
      such as `0` is ignored, so `Rat(1, 0)` throws `TypeError`, not
      `RangeError`. An instance argument is one the constructor built, hence
      canonical. */
  function RatOf(a: Arg, b: Option<Arg>): (r: Result<Rat>)
    requires a.Obj? ==> Valid(a.r)
    ensures r.Ok? ==> Valid(r.value)
    ensures b.Some? && Truthy(b.value) ==> r == Construct(a, b.value)
    ensures !(b.Some? && Truthy(b.value)) ==>
      (a.Obj? ==> r == Ok(a.r)) &&
      (a.Text? ==> r == StringToRat(a.s)) &&
      (a.Int? ==> r == Err(TypeError))
  {
    if b.Some? && Truthy(b.value) then Construct(a, b.value)
    else if a.Obj? then Ok(a.r)
    else if a.Text? then StringToRat(a.s)
    else Err(TypeError)
  }

  // ---------------------------------------------------------------------------
  // The three forms of text.

  /** "a/b" is the pair of the two texts read as integers. */
  lemma FractionText(a: string, b: string)
    requires '/' !in a && '/' !in b
    ensures StringToRat(a + "/" + b) == Construct(Text(a), Text(b))
  {
    SplitJoin([a, b], '/');
    assert Join([a, b], '/') == a + "/" + b;
  }

  /** Pieces after a second '/' are dropped: "a/b/c" reads as "a/b". */
  lemma ExtraFractionPiecesIgnored(a: string, b: string, c: string)
    requires '/' !in a && '/' !in b
    ensures StringToRat(a + "/" + b + "/" + c) == StringToRat(a + "/" + b)
  {
    FractionText(a, b);
    SplitAtFirst(a, '/', b + "/" + c);
    assert a + "/" + b + "/" + c == a + ['/'] + (b + "/" + c);
    SplitAtFirst(b, '/', c);
    assert b + "/" + c == b + ['/'] + c;
  }

  /** Pieces after a second '.' are dropped: "i.f.g" reads as "i.f". */
  lemma ExtraDecimalPiecesIgnored(i: string, f: string, g: string)
    requires '/' !in i && '/' !in f && '/' !in g && '.' !in i && '.' !in f
    ensures StringToRat(i + "." + f + "." + g) == StringToRat(i + "." + f)
  {
    DecimalText(i, f);
    var s := i + "." + f + "." + g;
    assert s == i + ['.'] + (f + ['.'] + g);
    NotInJoined(i, f + "." + g, '/') by { NotInJoined(f, g, '/'); }
    SplitNoSeparator(s, '/');
    SplitAtFirst(i, '.', f + ['.'] + g);
    SplitAtFirst(f, '.', g);
  }

  /** "i.f" is the integer text i ++ f over 10^|f|. */
  lemma DecimalText(i: string, f: string)
    requires '/' !in i && '/' !in f && '.' !in i && '.' !in f
    ensures StringToRat(i + "." + f) == Construct(Text(i + f), Int(Pow10(|f|)))
  {
    var s := i + "." + f;
    NotInJoined(i, f, '/');
    SplitNoSeparator(s, '/');
    DecimalPieces(i, f);
    var strs := Split(s, '/');
    assert strs[0] == s && |strs| == 1;
    var ints := Split(strs[0], '.');
    assert ints[0] + ints[1] == i + f && |ints[1]| == |f| && |ints| == 2;
  }

  lemma DecimalPieces(i: string, f: string)
    requires '.' !in i && '.' !in f
    ensures Split(i + "." + f, '.') == [i, f]
  {
    SplitJoin([i, f], '.');
    JoinPair(i, f, '.');
  }

  lemma JoinPair(a: string, b: string, sep: char)
    ensures Join([a, b], sep) == a + [sep] + b
  {
    assert [a, b][1..] == [b];
  }

  lemma NotInJoined(i: string, f: string, c: char)
    requires c !in i && c !in f && c != '.'
    ensures c !in i + "." + f
  {
  }

  /** Text without '/' or '.' is an integer over 1. */
  lemma IntegerText(s: string)
    requires '/' !in s && '.' !in s
    ensures StringToRat(s) == Construct(Text(s), Int(1))
  {
    SplitNoSeparator(s, '/');
    SplitNoSeparator(s, '.');
  }

  /** The value of decimal text: digits i, '.', digits f is (i·10^|f| + f) / 10^|f|. */
  lemma DecimalValue(i: string, f: string)
    requires IsDigits(i) && IsDigits(f)
    ensures StringToRat(i + "." + f) == Normalize(DigitsValue(i) * Pow10(|f|) + DigitsValue(f), Pow10(|f|))
  {
    DigitsHaveNoSeparator(i);
    DigitsHaveNoSeparator(f);
    DecimalText(i, f);
    DecimalConstruct(i, f);
  }

  /** The integer text i ++ f over 10^|f| is (i·10^|f| + f) over 10^|f|. */
  lemma DecimalConstruct(i: string, f: string)
    requires IsDigits(i) && IsDigits(f)
    ensures Construct(Text(i + f), Int(Pow10(|f|))) == Normalize(DigitsValue(i) * Pow10(|f|) + DigitsValue(f), Pow10(|f|))
  {
    var p := Pow10(|f|);
    JoinedDigitsValue(i, f);
    ConstructOfIntegers(Text(i + f), Int(p), DigitsValue(i) * p + DigitsValue(f), p);
  }

  /** i ++ f reads as i·10^|f| + f. */
  lemma JoinedDigitsValue(i: string, f: string)
    requires IsDigits(i) && IsDigits(f)
    ensures ToBigInt(Text(i + f)).Ok?
    ensures ToBigInt(Text(i + f)).value == DigitsValue(i) * Pow10(|f|) + DigitsValue(f)
  {
    DigitsValueAppend(i, f);
    DigitsText(i + f);
  }

  /** With a leading '-' the same value is negated; "-." alone is not an integer text. */
  lemma NegativeDecimalValue(i: string, f: string)
    requires IsDigits(i) && IsDigits(f) && i + f != []
    ensures StringToRat("-" + i + "." + f) == Normalize(-(DigitsValue(i) * Pow10(|f|) + DigitsValue(f)), Pow10(|f|))
  {
    NegativeDecimalText(i, f);
    NegativeDecimalConstruct(i, f);
  }

  /** "-i.f" is the integer text "-" ++ i ++ f over 10^|f|. */
  lemma NegativeDecimalText(i: string, f: string)
    requires IsDigits(i) && IsDigits(f)
    ensures StringToRat("-" + i + "." + f) == Construct(Text("-" + i + f), Int(Pow10(|f|)))
  {
    SignedDigitsHaveNoSeparator(i);
    DigitsHaveNoSeparator(f);
    DecimalText("-" + i, f);
  }

  /** The integer text "-" ++ i ++ f over 10^|f| is minus (i·10^|f| + f) over 10^|f|. */
  lemma NegativeDecimalConstruct(i: string, f: string)
    requires IsDigits(i) && IsDigits(f) && i + f != []
    ensures Construct(Text("-" + i + f), Int(Pow10(|f|))) == Normalize(-(DigitsValue(i) * Pow10(|f|) + DigitsValue(f)), Pow10(|f|))
  {
    var p := Pow10(|f|);
    NegativeJoinedDigitsValue(i, f);
    ConstructOfIntegers(Text("-" + i + f), Int(p), -(DigitsValue(i) * p + DigitsValue(f)), p);
  }

  /** "-" ++ i ++ f reads as minus (i·10^|f| + f). */
  lemma NegativeJoinedDigitsValue(i: string, f: string)
    requires IsDigits(i) && IsDigits(f) && i + f != []
    ensures ToBigInt(Text("-" + i + f)).Ok?
    ensures ToBigInt(Text("-" + i + f)).value == -(DigitsValue(i) * Pow10(|f|) + DigitsValue(f))
  {
    NegativeDigitsText(i, f);
    DigitsValueAppend(i, f);
  }

  /** "-" ++ i ++ f reads as minus the value of the digits i ++ f. */
  lemma NegativeDigitsText(i: string, f: string)
    requires IsDigits(i) && IsDigits(f) && i + f != []
    ensures IsDigits(i + f)
    ensures ToBigInt(Text("-" + i + f)).Ok?
    ensures ToBigInt(Text("-" + i + f)).value == -(DigitsValue(i + f) as int)
  {
    assert "-" + i + f == "-" + (i + f);
    DigitsAppend(i, f);
    NegativeIntegerText(i + f);
  }

  lemma SignedDigitsHaveNoSeparator(u: string)
    requires IsDigits(u)
    ensures '/' !in "-" + u && '.' !in "-" + u
  {
    var m := "-" + u;
    assert forall k :: 0 < k < |m| ==> m[k] == u[k - 1];
  }

  lemma DigitsHaveNoSeparator(u: string)
    requires IsDigits(u)
    ensures '/' !in u && '.' !in u
  {
  }

  /** A digit string, the empty one included, reads as its value. */
  lemma DigitsText(u: string)
    requires IsDigits(u)
    ensures ParseBigInt(u) == Ok(DigitsValue(u))
  {
  }

  /** Arguments that both read as integers, the second non-zero, construct
      the canonical pair of their quotient. */
  lemma ConstructOfIntegers(a: Arg, b: Arg, n: int, d: int)
    requires ToBigInt(a).Ok? && ToBigInt(a).value == n
    requires ToBigInt(b).Ok? && ToBigInt(b).value == d && d != 0
    ensures Construct(a, b) == Normalize(n, d)
  {
  }

  lemma NegativeIntegerText(u: string)
    requires IsDigits(u) && u != []
    ensures ParseBigInt("-" + u) == Ok(-(DigitsValue(u) as int))
  {
    var t := "-" + u;
    assert t[0] == '-' && t[1..] == u;
    assert !IsDigits(t) by { assert !IsDigit(t[0]); }
  }

  /** Text produced by `toString` reads back as the same instance. */
  lemma ToStringRoundTrip(x: Rat)
    requires Valid(x)
    ensures StringToRat(ToString(x)) == Ok(x)
    ensures RatOf(Text(ToString(x)), None) == Ok(x)
  {
    var a, b := IntToString(x.num), IntToString(x.denom);
    assert ToString(x) == a + "/" + b;
    FractionText(a, b);
    NormalizeCanonical(x.num, x.denom, x);
  }

  // ---------------------------------------------------------------------------
  // Dispatch.

  /** A zero second argument is falsy: the single-argument path runs and a
      number alone is a `TypeError`. */
  lemma ZeroSecondArgument(n: int)
    ensures RatOf(Int(n), Some(Int(0))) == Err(TypeError)
    ensures RatOf(Int(n), None) == Err(TypeError)
  {
  }

  /** An empty second text is falsy too: `Rat(s, "")` parses s alone. */
  lemma EmptySecondText(s: string)
    ensures RatOf(Text(s), Some(Text(""))) == StringToRat(s)
  {
  }

  /** A zero denominator given as text is truthy and reaches the constructor,
      which throws `RangeError`. */
  lemma ZeroDenominatorText(a: string)
    requires IsIntegerText(a)
    ensures RatOf(Text(a), Some(Text("0"))) == Err(RangeError)
  {
    assert ParseBigInt("0") == Ok(0);
  }

  /** With two non-zero integers the canonical pair of their ratio comes out. */
  lemma TwoIntegers(n: int, d: int)
    requires d != 0
    ensures RatOf(Int(n), Some(Int(d))) == Normalize(n, d)
  {
  }

  /** An instance passes through unchanged. */
  lemma InstancePassesThrough(x: Rat)
    requires Valid(x)
    ensures RatOf(Obj(x), None) == Ok(x)
  {
  }

  /** `Rat.zero` is `Rat("0")`, `Rat.one` is `Rat("1")`, and `Rat("")` is zero. */
  lemma Constants()
    ensures RatOf(Text("0"), None) == Ok(Zero)
    ensures RatOf(Text("1"), None) == Ok(One)
    ensures RatOf(Text(""), None) == Ok(Zero)
  {
    IntegerText("0");
    IntegerText("1");
    IntegerText("");
    assert ParseBigInt("0") == Ok(0);
    assert ParseBigInt("1") == Ok(1);
    NormalizeCanonical(0, 1, Zero) by { Integers.GcdZeroLeft(1); }
    NormalizeCanonical(1, 1, One) by { Integers.GcdZeroLeft(1); Integers.GcdSymmetric(0, 1); }
  }
}
