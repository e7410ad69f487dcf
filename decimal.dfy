/** Decimal text as mod.ts uses it: `BigInt(text)` for reading an integer,
    template-literal interpolation `${n}` for writing one, and
    `String.prototype.split` for cutting "a/b" and "i.f" into pieces. */
module Decimal {
  import Integers
  import opened Failures

  predicate IsDigit(c: char)
  {
    '0' <= c <= '9'
  }

  predicate IsDigits(s: string)
  {
    forall i :: 0 <= i < |s| ==> IsDigit(s[i])
  }

  /** The number a string of decimal digits denotes, most significant digit first. */
  function DigitsValue(s: string): nat
    requires IsDigits(s)
  {
    if s == [] then 0 else 10 * DigitsValue(s[..|s| - 1]) + (s[|s| - 1] as int - '0' as int)
  }

  /** 10 to the power k, as `10n ** BigInt(k)`. */
  function Pow10(k: nat): (p: nat)
    ensures p >= 1
  {
    if k == 0 then 1 else 10 * Pow10(k - 1)
  }

  /** The texts `BigInt` reads as an integer in this model: the empty text, or an
      optional '-' followed by at least one decimal digit. */
  predicate IsIntegerText(s: string)
  {
    || s == []
    || (IsDigits(s) && |s| >= 1)
    || (|s| >= 2 && s[0] == '-' && IsDigits(s[1..]))
  }

  /** `BigInt(s)` for a string `s`: the empty text is 0, a digit string is its
      value, '-' and a digit string is its negated value; every other text is
      a `SyntaxError`. */
  function ParseBigInt(s: string): (r: Result<int>)
    ensures r.Ok? <==> IsIntegerText(s)
    ensures r.Err? ==> r.error == SyntaxError
    ensures s == [] ==> r == Ok(0)
    ensures r.Ok? && s != [] && s[0] != '-' ==> r.value == DigitsValue(s)
    ensures r.Ok? && s != [] && s[0] == '-' ==> r.value == -(DigitsValue(s[1..]) as int)
  {
    if s == [] then Ok(0)
    else if IsDigits(s) then Ok(DigitsValue(s))
    else if |s| >= 2 && s[0] == '-' && IsDigits(s[1..]) then Ok(-(DigitsValue(s[1..]) as int))
    else Err(SyntaxError)
  }

  /** The decimal digits of n, without leading zeros. */
  function NatToDigits(n: nat): (s: string)
    ensures |s| >= 1 && IsDigits(s)
    ensures DigitsValue(s) == n
    ensures |s| > 1 ==> s[0] != '0'
  {
    if n < 10 then [('0' as int + n) as char]
    else
      var s := NatToDigits(n / 10) + [('0' as int + n % 10) as char];
      assert s[..|s| - 1] == NatToDigits(n / 10);
      s
  }

  /** `${i}` for a `bigint` i: its decimal digits, preceded by '-' when negative. */
  function IntToString(i: int): (s: string)
    ensures ParseBigInt(s) == Ok(i)
    ensures '/' !in s && '.' !in s
    ensures |s| >= 1 && (s[0] == '-' <==> i < 0)
    ensures var digits := if i < 0 then s[1..] else s;
      |digits| >= 1 && IsDigits(digits) && (|digits| > 1 ==> digits[0] != '0')
  {
    if i < 0 then "-" + NatToDigits(-i) else NatToDigits(i)
  }

  /** `10n ** BigInt(k)` is the `bigint` power of ten. */
  lemma {:induction false} Pow10IsPower(k: nat)
    ensures Pow10(k) == Integers.Power(10, k)
  {
    if k > 0 {
      Pow10IsPower(k - 1);
    }
  }

  /** Concatenating digit strings: the value of a ++ b. */
  lemma {:induction false} DigitsValueAppend(a: string, b: string)
    requires IsDigits(a) && IsDigits(b)
    ensures IsDigits(a + b)
    ensures DigitsValue(a + b) == DigitsValue(a) * Pow10(|b|) + DigitsValue(b)
    decreases |b|
  {
    DigitsAppend(a, b);
    if b == [] {
      assert a + b == a;
    } else {
      var b' := b[..|b| - 1];
      var ab := a + b;
      assert ab[..|ab| - 1] == a + b';
      assert ab[|ab| - 1] == b[|b| - 1];
      DigitsValueAppend(a, b');
      ShiftDigit(DigitsValue(a), Pow10(|b'|), DigitsValue(b'), b[|b| - 1] as int - '0' as int);
    }
  }

  lemma DigitsAppend(a: string, b: string)
    requires IsDigits(a) && IsDigits(b)
    ensures IsDigits(a + b)
  {
    assert forall k :: 0 <= k < |a + b| ==> (a + b)[k] == if k < |a| then a[k] else b[k - |a|];
  }

  lemma ShiftDigit(x: int, p: int, y: int, last: int)
    ensures 10 * (x * p + y) + last == x * (10 * p) + (10 * y + last)
  {
  }

  /** `s.split(sep)`: the maximal pieces of s free of sep, in order. */
  function Split(s: string, sep: char): (parts: seq<string>)
    ensures |parts| >= 1
    ensures forall i :: 0 <= i < |parts| ==> sep !in parts[i]
    ensures Join(parts, sep) == s
  {
    if s == [] then [[]]
    else
      var rest := Split(s[1..], sep);
      if s[0] == sep then
        assert Join([[]] + rest, sep) == [sep] + Join(rest, sep);
        [[]] + rest
      else
        var parts := [[s[0]] + rest[0]] + rest[1..];
        assert parts[1..] == rest[1..];
        assert s == [s[0]] + s[1..];
        parts
  }

  /** `parts.join(sep)`: the inverse of Split. */
  function Join(parts: seq<string>, sep: char): string
    requires |parts| >= 1
  {
    if |parts| == 1 then parts[0] else parts[0] + [sep] + Join(parts[1..], sep)
  }

  lemma {:induction false} SplitNoSeparator(s: string, sep: char)
    requires sep !in s
    ensures Split(s, sep) == [s]
  {
    if s != [] {
      SplitNoSeparator(s[1..], sep);
    }
  }

  lemma {:induction false} SplitAtFirst(a: string, sep: char, b: string)
    requires sep !in a
    ensures Split(a + [sep] + b, sep) == [a] + Split(b, sep)
  {
    if a != [] {
      var s := a + [sep] + b;
      assert s[0] == a[0] && s[1..] == a[1..] + [sep] + b;
      SplitAtFirst(a[1..], sep, b);
      assert [a[0]] + a[1..] == a;
    } else {
      assert (a + [sep] + b)[1..] == b;
    }
  }

  /** Splitting a join of separator-free pieces gives the pieces back. */
  lemma {:induction false} SplitJoin(parts: seq<string>, sep: char)
    requires |parts| >= 1
    requires forall i :: 0 <= i < |parts| ==> sep !in parts[i]
    ensures Split(Join(parts, sep), sep) == parts
  {
    if |parts| == 1 {
      SplitNoSeparator(parts[0], sep);
    } else {
      SplitJoin(parts[1..], sep);
      SplitAtFirst(parts[0], sep, Join(parts[1..], sep));
      assert [parts[0]] + parts[1..] == parts;
    }
  }
}
