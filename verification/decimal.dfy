/**
 The decimal rendering of an unsigned integer, as Rust's `u64::to_string`
 produces it: most significant digit first, no sign, no padding, no leading
 zero except for the number zero itself. The rendering decides the exact bytes
 the ledger hashes, so it is given together with its inverse.
 */
module Decimal {
  import opened Primitives

  predicate IsDigit(c: char) {
    '0' <= c <= '9'
  }

  predicate AllDigits(s: string) {
    forall i :: 0 <= i < |s| ==> IsDigit(s[i])
  }

  /** A rendering `ToDecimal` can produce: digits only, non-empty, and no
      leading zero unless the whole string is "0". */
  predicate IsCanonical(s: string) {
    && |s| >= 1
    && AllDigits(s)
    && (s[0] == '0' ==> |s| == 1)
  }

  function DigitValue(c: char): (d: nat)
    requires IsDigit(c)
    ensures d < 10
  {
    c as int - '0' as int
  }

  function DigitChar(d: nat): (c: char)
    requires d < 10
    ensures IsDigit(c)
    ensures DigitValue(c) == d
  {
    ('0' as int + d) as char
  }

  /** `n.to_string()`. */
  function ToDecimal(n: nat): (s: string)
    ensures IsCanonical(s)
    ensures s[0] == '0' <==> n == 0
    decreases n
  {
    if n < 10 then [DigitChar(n)] else ToDecimal(n / 10) + [DigitChar(n % 10)]
  }

  /** The value of a string of decimal digits, most significant first. */
  function ParseDecimal(s: string): (n: nat)
    requires AllDigits(s)
    ensures n < Pow10(|s|)
  {
    if |s| == 0 then 0
    else
      var p := s[..|s| - 1];
      assert AllDigits(p);
      ParseDecimal(p) * 10 + DigitValue(s[|s| - 1])
  }

  /** Reading a rendering back yields the number rendered. */
  lemma {:induction false} ParseToDecimal(n: nat)
    ensures ParseDecimal(ToDecimal(n)) == n
    decreases n
  {
    if n >= 10 {
      var s := ToDecimal(n / 10);
      var d := DigitChar(n % 10);
      assert (s + [d])[..|s|] == s;
      ParseToDecimal(n / 10);
    }
  }

  /** A canonical string with a non-zero first digit denotes a positive number. */
  lemma {:induction false} ParsePositive(s: string)
    requires |s| >= 1 && AllDigits(s) && s[0] != '0'
    ensures ParseDecimal(s) >= 1
    decreases |s|
  {
    if |s| > 1 {
      var p := s[..|s| - 1];
      ParsePositive(p);
    }
  }

  /** Rendering a parsed canonical string gives the same string back, so
      `ToDecimal` is a bijection onto the canonical strings. */
  lemma {:induction false} ToDecimalParse(s: string)
    requires IsCanonical(s)
    ensures ToDecimal(ParseDecimal(s)) == s
    decreases |s|
  {
    var c := s[|s| - 1];
    if |s| == 1 {
      assert ParseDecimal(s) == DigitValue(c) by {
        assert s[..0] == [];
      }
      assert DigitChar(DigitValue(c)) == c;
    } else {
      var p := s[..|s| - 1];
      assert IsCanonical(p);
      ParsePositive(p);
      ToDecimalParse(p);
      var n := ParseDecimal(s);
      assert n == ParseDecimal(p) * 10 + DigitValue(c);
      assert n / 10 == ParseDecimal(p) && n % 10 == DigitValue(c);
      assert DigitChar(DigitValue(c)) == c;
      assert s == p + [c];
    }
  }

  /** Distinct numbers have distinct renderings. */
  lemma ToDecimalInjective(a: nat, b: nat)
    ensures ToDecimal(a) == ToDecimal(b) <==> a == b
  {
    ParseToDecimal(a);
    ParseToDecimal(b);
  }

  /** A rendering has at most `k` digits exactly when the number is below 10^k. */
  lemma {:induction false} ToDecimalLength(n: nat, k: nat)
    requires k >= 1
    ensures |ToDecimal(n)| <= k <==> n < Pow10(k)
    decreases n
  {
    if n < 10 {
      assert Pow10(k) == 10 * Pow10(k - 1);
    } else if k == 1 {
      assert |ToDecimal(n / 10)| >= 1;
    } else {
      ToDecimalLength(n / 10, k - 1);
      var p := Pow10(k - 1);
      assert Pow10(k) == 10 * p;
      assert n / 10 < p <==> n < 10 * p;
    }
  }

  /** A `u64` renders in at most twenty digits. */
  lemma U64DecimalLength(t: u64)
    ensures 1 <= |ToDecimal(t)| <= 20
  {
    assert Pow10(5) == 100_000;
    assert Pow10(10) == 10_000_000_000;
    assert Pow10(15) == 1_000_000_000_000_000;
    assert Pow10(20) == 100_000_000_000_000_000_000;
    ToDecimalLength(t, 20);
  }
}
