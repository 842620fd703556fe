/**
 * Decimal numerals: JavaScript's `parseInt` restricted to strings of decimal
 * digits, and the numeral a template literal `${i}` writes for a natural number.
 */
module Decimal {
  import opened Wrappers

  predicate IsDigit(c: char) { '0' <= c <= '9' }

  /** A non-empty string of decimal digits. */
  predicate IsDigits(s: string) {
    |s| > 0 && forall k :: 0 <= k < |s| ==> IsDigit(s[k])
  }

  /** No superfluous leading zero: "0", "7", "42", but not "007". */
  predicate IsCanonical(s: string) {
    IsDigits(s) && (|s| == 1 || s[0] != '0')
  }

  function DigitValue(c: char): (d: nat)
    requires IsDigit(c)
    ensures d < 10
  {
    c as int - '0' as int
  }

  function DigitChar(d: nat): (c: char)
    requires d < 10
    ensures IsDigit(c) && DigitValue(c) == d
  {
    ('0' as int + d) as char
  }

  /** The value of a digit string read most significant digit first. */
  function Value(s: string): nat
    requires forall k :: 0 <= k < |s| ==> IsDigit(s[k])
  {
    if |s| == 0 then 0
    else Value(s[..|s| - 1]) * 10 + DigitValue(s[|s| - 1])
  }

  /**
   * `parseInt(s)`: the number a digit string denotes, None (JavaScript's NaN)
   * for any other string, the empty one included.
   */
  function ParseInt(s: string): (r: Option<nat>)
    ensures r.Some? <==> IsDigits(s)
  {
    if IsDigits(s) then Some(Value(s)) else None
  }

  /** `${n}`: the canonical decimal numeral of `n`. */
  function ToDecimal(n: nat): (s: string)
    ensures IsDigits(s)
  {
    if n < 10 then [DigitChar(n)] else ToDecimal(n / 10) + [DigitChar(n % 10)]
  }

  /** Reading back the numeral of `n` gives `n`, and the numeral is canonical. */
  lemma {:induction false} ParseToDecimal(n: nat)
    ensures ParseInt(ToDecimal(n)) == Some(n)
    ensures IsCanonical(ToDecimal(n))
  {
    var s := ToDecimal(n);
    if n >= 10 {
      ParseToDecimal(n / 10);
      assert s[..|s| - 1] == ToDecimal(n / 10);
      assert DigitValue(s[|s| - 1]) == n % 10;
      assert Value(s) == (n / 10) * 10 + n % 10;
      assert s[0] == ToDecimal(n / 10)[0];
    } else {
      assert s[..0] == [];
      assert Value(s) == Value([]) * 10 + DigitValue(s[0]);
    }
  }

  lemma {:induction false} ValuePositive(s: string)
    requires IsDigits(s) && s[0] != '0'
    ensures Value(s) >= 1
  {
    if |s| > 1 {
      ValuePositive(s[..|s| - 1]);
    }
  }

  /** A canonical numeral is the numeral of the number it denotes. */
  lemma {:induction false} CanonicalIsToDecimal(s: string)
    requires IsCanonical(s)
    ensures ToDecimal(Value(s)) == s
  {
    if |s| > 1 {
      var init := s[..|s| - 1];
      ValuePositive(s);
      ValuePositive(init);
      assert IsCanonical(init);
      CanonicalIsToDecimal(init);
      assert Value(s) / 10 == Value(init);
      assert s == init + [s[|s| - 1]];
    }
  }

  /** Distinct numbers have distinct numerals. */
  lemma ToDecimalInjective(m: nat, n: nat)
    requires ToDecimal(m) == ToDecimal(n)
    ensures m == n
  {
    ParseToDecimal(m);
    ParseToDecimal(n);
  }

  /** A string is the numeral of some number exactly when it is canonical. */
  lemma NumeralIffCanonical(s: string)
    ensures (exists n: nat :: ToDecimal(n) == s) <==> IsCanonical(s)
  {
    if IsCanonical(s) {
      CanonicalIsToDecimal(s);
    }
    if exists n: nat :: ToDecimal(n) == s {
      var n: nat :| ToDecimal(n) == s;
      ParseToDecimal(n);
    }
  }
}
