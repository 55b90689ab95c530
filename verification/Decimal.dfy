/** Decimal numerals without leading zeros. */
module Decimal {

  predicate IsDigit(c: char) { '0' <= c <= '9' }

  predicate IsDigits(s: string) { s != [] && forall i :: 0 <= i < |s| ==> IsDigit(s[i]) }

  function DigitChar(n: nat): (c: char)
    requires n < 10
    ensures IsDigit(c)
  {
    '0' + n as char
  }

  function DigitValue(c: char): (n: nat)
    requires IsDigit(c)
    ensures n < 10 && DigitChar(n) == c
  {
    (c - '0') as int
  }

  function Print(n: nat): (s: string)
    ensures IsDigits(s)
  {
    if n < 10 then [DigitChar(n)] else Print(n / 10) + [DigitChar(n % 10)]
  }

  function Value(s: string): (n: nat)
    requires forall i :: 0 <= i < |s| ==> IsDigit(s[i])
  {
    if s == [] then 0 else Value(s[..|s| - 1]) * 10 + DigitValue(s[|s| - 1])
  }

  lemma {:induction false} ValueOfPrint(n: nat)
    ensures Value(Print(n)) == n
  {
    var s := Print(n);
    if n < 10 {
      assert s[..0] == [];
    } else {
      ValueOfPrint(n / 10);
      assert s[..|s| - 1] == Print(n / 10);
    }
  }

  /** Numerals are equal exactly when the numbers are. */
  lemma PrintInjective(m: nat, n: nat)
    ensures Print(m) == Print(n) <==> m == n
  {
    ValueOfPrint(m);
    ValueOfPrint(n);
  }

  function Pow10(k: nat): (p: nat)
    ensures p >= 1
  {
    if k == 0 then 1 else 10 * Pow10(k - 1)
  }

  lemma {:induction false} PrintLength(n: nat, k: nat)
    requires 1 <= k && n < Pow10(k)
    ensures |Print(n)| <= k
  {
    if n >= 10 {
      assert k > 1 by { assert Pow10(1) == 10; }
      PrintLength(n / 10, k - 1);
    }
  }

  lemma {:induction false} Multiple(d: nat, e: nat)
    requires e >= 1
    ensures d * e >= d
  {
    assert d * e == d * (e - 1) + d;
  }

  lemma Unique(d: nat, u: nat, w: nat, q: nat, r: nat)
    requires d * u + w == d * q + r && w < d && r < d
    ensures u == q
  {
    if u > q {
      assert d * u == d * q + d * (u - q);
      Multiple(d, u - q);
    } else if q > u {
      assert d * q == d * u + d * (q - u);
      Multiple(d, q - u);
    }
  }

  lemma DivMod(x: nat, d: nat, u: nat, w: nat)
    requires x == d * u + w && w < d
    ensures x / d == u
  {
    assert x == d * (x / d) + x % d;
    Unique(d, u, w, x / d, x % d);
  }

  lemma DivDiv(n: nat, p: nat)
    requires p >= 1
    ensures n / (10 * p) == n / 10 / p
  {
    var u, v := n / 10 / p, n / 10 % p;
    assert n / 10 == p * u + v;
    assert 10 * (p * u + v) == (10 * p) * u + 10 * v;
    DivMod(n, 10 * p, u, 10 * v + n % 10);
  }

  /** The digit `i` places from the right counts the powers of ten of that place. */
  lemma {:induction false} PrintDigit(n: nat, i: nat)
    requires i < |Print(n)|
    ensures Print(n)[|Print(n)| - 1 - i] == '0' + (n / Pow10(i) % 10) as char
    decreases i
  {
    if i > 0 {
      PrintDigit(n / 10, i - 1);
      DivDiv(n, Pow10(i - 1));
    }
  }

  /** There are no more digits than the number needs. */
  lemma {:induction false} NoLeadingZero(n: nat)
    ensures |Print(n)| > 1 ==> n >= Pow10(|Print(n)| - 1)
    ensures n < Pow10(|Print(n)|)
  {
    assert Pow10(1) == 10;
    if n >= 10 {
      NoLeadingZero(n / 10);
    }
  }
}
