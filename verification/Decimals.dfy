/** Decimal numerals, as Python's `str(n)` prints them. */
module Decimals {
  import opened Text

  function DigitChar(d: nat): (c: char)
    requires d < 10
    ensures Digit(c) && (c - '0') as int == d
  {
    '0' + d as char
  }

  function Natural(n: nat): (s: string)
    ensures s != "" && forall i | 0 <= i < |s| :: Digit(s[i])
  {
    if n < 10 then [DigitChar(n)] else Natural(n / 10) + [DigitChar(n % 10)]
  }

  function Decimal(n: int): (s: string)
    ensures s != "" && forall i | 0 <= i < |s| :: Digit(s[i]) || s[i] == '-'
  {
    if n < 0 then "-" + Natural(-n) else Natural(n)
  }

  /** The number a numeral stands for. */
  function Value(s: string): int
    requires forall i | 0 <= i < |s| :: Digit(s[i])
  {
    if s == "" then 0
    else
      assert Digit(s[|s| - 1]);
      10 * Value(s[..|s| - 1]) + (s[|s| - 1] - '0') as int
  }

  lemma {:induction false} NaturalValue(n: nat)
    ensures Value(Natural(n)) == n
  {
    if n >= 10 {
      NaturalValue(n / 10);
      assert Natural(n)[..|Natural(n)| - 1] == Natural(n / 10);
    } else {
      assert Natural(n)[..0] == "";
    }
  }

  predicate AllDigits(s: string) {
    s != "" && forall i | 0 <= i < |s| :: '0' <= s[i] <= '9'
  }

  /** `s` is the numeral of `n`: digits of that value without a leading zero, after a minus sign if
      `n` is negative. */
  ghost predicate Numeral(s: string, n: int) {
    if n < 0 then s != "" && s[0] == '-' && Numeral(s[1..], -n)
    else AllDigits(s) && (|s| > 1 ==> s[0] != '0') && Value(s) == n
  }

  lemma {:induction false} NaturalLeads(n: nat)
    ensures |Natural(n)| > 1 ==> n >= 10
    ensures n > 0 ==> Natural(n)[0] != '0'
  {
    if n >= 10 {
      NaturalLeads(n / 10);
      assert Natural(n)[0] == Natural(n / 10)[0];
    }
  }

  /** Every number is written as its numeral. */
  lemma DecimalWrites(n: int)
    ensures Numeral(Decimal(n), n)
  {
    var m := if n < 0 then -n else n;
    NaturalValue(m);
    NaturalLeads(m);
    assert AllDigits(Natural(m));
    if n < 0 {
      assert Decimal(n)[1..] == Natural(m);
    }
  }

  lemma {:induction false} LeadingDigit(s: string)
    requires AllDigits(s) && s[0] != '0'
    ensures Value(s) > 0
  {
    assert s[|s| - 1] >= '0';
    if |s| > 1 {
      LeadingDigit(s[..|s| - 1]);
    } else {
      assert s[..0] == "";
    }
  }

  /** A number has one numeral. */
  lemma {:induction false} NumeralUnique(s: string, t: string, n: nat)
    requires Numeral(s, n) && Numeral(t, n)
    ensures s == t
    decreases |s|
  {
    var i, j := |s| - 1, |t| - 1;
    assert s[i] >= '0' && t[j] >= '0' && s[..i] + [s[i]] == s && t[..j] + [t[j]] == t;
    if i > 0 {
      LeadingDigit(s[..i]);
    } else {
      assert s[..i] == "";
    }
    if j > 0 {
      LeadingDigit(t[..j]);
    } else {
      assert t[..j] == "";
    }
    LastDigit(Value(s[..i]), (s[i] - '0') as int, Value(t[..j]), (t[j] - '0') as int);
    if i > 0 {
      NumeralUnique(s[..i], t[..j], Value(s[..i]));
    }
  }

  lemma LastDigit(a: int, x: int, b: int, y: int)
    requires 10 * a + x == 10 * b + y && 0 <= x < 10 && 0 <= y < 10
    ensures a == b && x == y
  {
  }

  lemma DecimalInjective(m: int, n: int)
    requires Decimal(m) == Decimal(n)
    ensures m == n
  {
    DecimalWrites(m);
    DecimalWrites(n);
  }
}
