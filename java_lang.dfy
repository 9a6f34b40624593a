/**
  The few behaviours of the Java platform that the tests depend on: the `%`
  operator on `int`, `String.equalsIgnoreCase`, `int`-to-`String`
  conversion, and `new BigInteger(String)`.
*/
module JavaLang {
  import opened Wrappers

  /** Java's `a / m` for a positive divisor: the quotient is truncated toward zero. */
  function Quot(a: int, m: int): int
    requires m > 0
  {
    if a >= 0 then a / m else -((-a) / m)
  }

  /**
    Java's `a % m` for a positive divisor: the remainder that goes with the
    truncating quotient, so it takes the sign of `a`.
  */
  function Rem(a: int, m: int): (r: int)
    requires m > 0
    ensures a == m * Quot(a, m) + r
    ensures -m < r < m
    ensures a >= 0 ==> r >= 0
    ensures a <= 0 ==> r <= 0
  {
    if a >= 0 then a % m
    else
      var n := -a;
      assert n == m * (n / m) + n % m;
      assert m * Quot(a, m) == -(m * (n / m));
      -(n % m)
  }

  /** `Rem(x, 2) != 0`, the source's oddness test, holds exactly for the odd numbers. */
  lemma RemTwoIsOddness(x: int)
    ensures Rem(x, 2) != 0 <==> x % 2 == 1
  {
    if x < 0 {
      assert (-x) % 2 == 1 <==> x % 2 == 1 by {
        assert x == -(-x);
        assert (-x) % 2 == 0 ==> x == 2 * (-((-x) / 2));
        assert (-x) % 2 == 1 ==> x == 2 * (-((-x) / 2) - 1) + 1;
      }
    }
  }

  // ----- String.equalsIgnoreCase -----

  /** `Character.toUpperCase`, restricted to the ASCII letters. */
  function ToUpper(c: char): char {
    if 'a' <= c <= 'z' then (c as int - 'a' as int + 'A' as int) as char else c
  }

  /** `Character.toLowerCase`, restricted to the ASCII letters. */
  function ToLower(c: char): char {
    if 'A' <= c <= 'Z' then (c as int - 'A' as int + 'a' as int) as char else c
  }

  predicate IsLetter(c: char) {
    'a' <= c <= 'z' || 'A' <= c <= 'Z'
  }

  /** The per-character test of `String.regionMatches(ignoreCase = true, ...)`. */
  predicate SameIgnoringCase(c: char, d: char) {
    c == d || ToUpper(c) == ToUpper(d) || ToLower(ToUpper(c)) == ToLower(ToUpper(d))
  }

  /** `a.equalsIgnoreCase(b)` for a non-null `a` and `b`. */
  predicate EqualsIgnoreCase(a: string, b: string) {
    |a| == |b| && forall i | 0 <= i < |a| :: SameIgnoringCase(a[i], b[i])
  }

  /** Against a text without letters, such as "2021", ignoring case is plain equality. */
  lemma EqualsIgnoreCaseWithoutLetters(a: string, b: string)
    requires forall i | 0 <= i < |b| :: !IsLetter(b[i])
    ensures EqualsIgnoreCase(a, b) <==> a == b
  {
    if EqualsIgnoreCase(a, b) {
      forall i | 0 <= i < |a|
        ensures a[i] == b[i]
      {
        assert SameIgnoringCase(a[i], b[i]);
        assert ToLower(ToUpper(b[i])) == b[i];
      }
    }
  }

  // ----- decimal text -----

  function Pow10(n: nat): (r: nat)
    ensures r >= 1
  {
    if n == 0 then 1 else 10 * Pow10(n - 1)
  }

  /** The number of decimal digits of `n`. */
  function Digits(n: nat): (d: nat)
    ensures d >= 1
    ensures n < Pow10(d)
  {
    if n < 10 then 1 else 1 + Digits(n / 10)
  }

  predicate IsDigit(c: char) {
    '0' <= c <= '9'
  }

  predicate AllDigits(s: string) {
    forall i | 0 <= i < |s| :: IsDigit(s[i])
  }

  function DigitChar(d: nat): (c: char)
    requires d < 10
  {
    (d + '0' as int) as char
  }

  /** The decimal text of a non-negative number, without leading zeros. */
  function Decimal(n: nat): (s: string)
    ensures |s| == Digits(n)
    ensures AllDigits(s)
  {
    if n < 10 then [DigitChar(n)] else Decimal(n / 10) + [DigitChar(n % 10)]
  }

  /** The value of a text of decimal digits (leading zeros allowed). */
  function ParseDecimal(s: string): nat
    requires AllDigits(s)
  {
    if s == [] then 0
    else ParseDecimal(s[..|s| - 1]) * 10 + (s[|s| - 1] as int - '0' as int)
  }

  /** Reading back the decimal text of `n` gives `n`. */
  lemma {:induction false} ParseDecimalOfDecimal(n: nat)
    ensures ParseDecimal(Decimal(n)) == n
  {
    if n >= 10 {
      ParseDecimalOfDecimal(n / 10);
      var s := Decimal(n);
      assert s[..|s| - 1] == Decimal(n / 10);
    }
  }

  /** The digits of `b` written after those of `a` shift `a` by `|b|` places. */
  lemma {:induction false} ParseDecimalAppend(a: string, b: string)
    requires AllDigits(a) && AllDigits(b)
    ensures AllDigits(a + b)
    ensures ParseDecimal(a + b) == ParseDecimal(a) * Pow10(|b|) + ParseDecimal(b)
  {
    if b == [] {
      assert a + b == a;
    } else {
      var b' := b[..|b| - 1];
      var d := b[|b| - 1] as int - '0' as int;
      assert (a + b)[..|a + b| - 1] == a + b';
      ParseDecimalAppend(a, b');
      var ab := a + b;
      assert ab[|ab| - 1] == b[|b| - 1];
      assert ParseDecimal(ab) == ParseDecimal(a + b') * 10 + d;
      assert b[..|b| - 1] == b';
      assert ParseDecimal(b) == ParseDecimal(b') * 10 + d;
      assert Pow10(|b|) == Pow10(|b'|) * 10;
      ShiftByOneDigit(ParseDecimal(a), Pow10(|b'|), ParseDecimal(b'), d);
    }
  }

  lemma ShiftByOneDigit(x: int, p: int, y: int, d: int)
    ensures (x * p + y) * 10 + d == x * (p * 10) + (y * 10 + d)
  {
  }

  /** `Integer.toString(x)`, which is also what `x + ""` produces. */
  function IntToString(x: int): string {
    if x < 0 then "-" + Decimal(-x) else Decimal(x)
  }

  /**
    `new BigInteger(s)`: an optional sign followed by at least one digit;
    any other text is a `NumberFormatException`, written `None`.
  */
  function ParseBigInteger(s: string): Option<int> {
    if |s| > 0 && (s[0] == '-' || s[0] == '+') then
      if |s| > 1 && AllDigits(s[1..]) then
        var v: int := ParseDecimal(s[1..]);
        Some(if s[0] == '-' then -v else v)
      else None
    else if |s| > 0 && AllDigits(s) then Some(ParseDecimal(s))
    else None
  }
}
