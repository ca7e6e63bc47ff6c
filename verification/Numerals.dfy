// Numerals in a base up to sixteen, and what it means for a text to be the numeral of a number.
module Numerals {
  const DIGITS_HEX := "0123456789ABCDEF"

  predicate GoodBase(base: nat) { 2 <= base <= 16 }

  function DigitChar(d: nat): char
    requires d < 16
  {
    DIGITS_HEX[d]
  }

  // Most significant digit first, no leading zero.
  function Numeral(n: nat, base: nat): (s: string)
    requires GoodBase(base)
    ensures s != ""
    decreases n
  {
    if n < base then [DigitChar(n)] else
      QuotientSmaller(n, base);
      Numeral(n / base, base) + [DigitChar(n % base)]
  }

  lemma Scaled(base: nat, x: int)
    requires GoodBase(base)
    ensures x >= 1 ==> base * x >= base && base * x >= 2 * x
    ensures x <= -1 ==> base * x <= 0 - base
  {
  }

  lemma QuotientSmaller(n: nat, base: nat)
    requires GoodBase(base) && base <= n
    ensures 0 < n / base < n
  {
  }

  function Decimal(n: int): string {
    if n < 0 then "-" + Numeral(-n, 10) else Numeral(n, 10)
  }

  // ---- reading ----

  predicate IsDigit(c: char, base: nat)
    requires GoodBase(base)
  {
    c in DIGITS_HEX[..base]
  }

  function DigitValue(c: char): (d: int)
    ensures c in DIGITS_HEX ==> 0 <= d < 16 && DIGITS_HEX[d] == c
  {
    if '0' <= c <= '9' then c as int - '0' as int else if 'A' <= c <= 'F' then 10 + (c as int - 'A' as int) else -1
  }

  lemma DigitIs(d: nat)
    requires d < 16
    ensures DigitValue(DigitChar(d)) == d
  {
  }

  function Value(s: string, base: nat): int {
    if s == "" then 0 else Value(s[..|s| - 1], base) * base + DigitValue(s[|s| - 1])
  }

  function ParseDecimal(s: string): int {
    if s != "" && s[0] == '-' then -Value(s[1..], 10) else Value(s, 10)
  }

  predicate CanonicalNumeral(s: string, base: nat)
    requires GoodBase(base)
  {
    s != "" && (forall i :: 0 <= i < |s| ==> IsDigit(s[i], base)) && (s[0] == '0' ==> |s| == 1)
  }

  predicate CanonicalDecimal(s: string) {
    CanonicalNumeral(s, 10) || (|s| > 1 && s[0] == '-' && s[1] != '0' && CanonicalNumeral(s[1..], 10))
  }

  lemma DigitBelow(c: char, base: nat)
    requires GoodBase(base) && IsDigit(c, base)
    ensures 0 <= DigitValue(c) < base && DigitChar(DigitValue(c)) == c
  {
  }

  lemma ValueOfAppend(s: string, c: char, base: nat)
    ensures Value(s + [c], base) == Value(s, base) * base + DigitValue(c)
  {
  }

  lemma DivMod(n: nat, base: nat)
    requires GoodBase(base)
    ensures n / base >= 0 && 0 <= n % base < base && n == (n / base) * base + n % base
  {
  }

  lemma QuotientZero(n: nat, base: nat)
    requires GoodBase(base) && n < base
    ensures n / base == 0 && n % base == n
  {
  }

  lemma NumeralUnfold(n: nat, base: nat)
    requires GoodBase(base) && base <= n
    ensures 0 < n / base < n && n % base < 16 && Numeral(n, base) == Numeral(n / base, base) + [DigitChar(n % base)]
  {
  }

  lemma {:induction false} ValueOfNumeral(n: nat, base: nat)
    requires GoodBase(base)
    ensures Value(Numeral(n, base), base) == n
    decreases n
  {
    if n < base {
      NumeralOfDigit(n, base);
      ValueOfDigit(n, base);
    } else {
      hide Value, Numeral, DigitValue, DigitChar;
      NumeralUnfold(n, base);
      var q, d := n / base, n % base;
      DivMod(n, base);
      ValueOfNumeral(q, base);
      ValueOfAppend(Numeral(q, base), DigitChar(d), base);
      DigitIs(d);
    }
  }

  lemma ValueOfDigit(d: nat, base: nat)
    requires d < 16
    ensures Value([DigitChar(d)], base) == d
  {
  }

  lemma {:induction false} NumeralCanonical(n: nat, base: nat)
    requires GoodBase(base)
    ensures CanonicalNumeral(Numeral(n, base), base) && (Numeral(n, base)[0] == '0' <==> n == 0)
    decreases n
  {
    var d := n % base;
    assert DIGITS_HEX[..base][d] == DigitChar(d);
    DigitIs(d);
    if n >= base {
      QuotientSmaller(n, base);
      NumeralCanonical(n / base, base);
    }
  }

  lemma Divided(v: int, d: nat, base: nat)
    requires GoodBase(base) && d < base && 0 < v
    ensures v * base + d >= base && (v * base + d) / base == v && (v * base + d) % base == d
  {
    var n := v * base + d;
    var q, r := n / base, n % base;
    assert n == base * q + r;
    assert base * (v - q) == r - d;
    Scaled(base, v - q);
    Scaled(base, v);
  }

  lemma NumeralAppend(v: int, d: nat, base: nat)
    requires GoodBase(base) && d < base && 0 < v
    ensures 0 <= v * base + d && Numeral(v * base + d, base) == Numeral(v, base) + [DigitChar(d)]
  {
    hide DigitChar;
    Divided(v, d, base);
  }

  // A canonical text is the numeral of its value.
  lemma {:induction false} NumeralOfValue(s: string, base: nat)
    requires GoodBase(base) && CanonicalNumeral(s, base)
    ensures 0 <= Value(s, base) && Numeral(Value(s, base), base) == s
    decreases |s|
  {
    hide Value, DigitValue, Numeral, DigitChar, IsDigit;
    var front, last := s[..|s| - 1], s[|s| - 1];
    assert s == front + [last];
    assert IsDigit(last, base);
    DigitBelow(last, base);
    var d := DigitValue(last);
    if |s| == 1 {
      ValueOfDigit(d, base);
      assert s == [last];
      NumeralOfDigit(d, base);
    } else {
      assert front[0] == s[0];
      NumeralOfValue(front, base);
      var v := Value(front, base);
      NumeralCanonical(v, base);
      ValueOfAppend(front, last, base);
      NumeralAppend(v, d, base);
    }
  }

  lemma NumeralOfDigit(d: nat, base: nat)
    requires GoodBase(base) && d < base
    ensures Numeral(d, base) == [DigitChar(d)]
  {
  }

  lemma DecimalBack(n: int)
    ensures CanonicalDecimal(Decimal(n)) && ParseDecimal(Decimal(n)) == n
  {
    hide Value, Numeral, IsDigit;
    var m := if n < 0 then -n else n;
    ValueOfNumeral(m, 10);
    NumeralCanonical(m, 10);
    var t := Numeral(m, 10);
    assert IsDigit(t[0], 10);
    NoSignDigit(t[0]);
    assert ("-" + t)[1..] == t;
  }

  lemma NoSignDigit(c: char)
    requires IsDigit(c, 10)
    ensures c != '-'
  {
  }

  lemma DecimalOfParse(s: string)
    requires CanonicalDecimal(s)
    ensures Decimal(ParseDecimal(s)) == s
  {
    hide Value, Numeral, IsDigit;
    if CanonicalNumeral(s, 10) {
      assert IsDigit(s[0], 10);
      NoSignDigit(s[0]);
      NumeralOfValue(s, 10);
    } else {
      NumeralOfValue(s[1..], 10);
      NumeralCanonical(Value(s[1..], 10), 10);
      assert s == "-" + s[1..];
    }
  }

  // The decimal text of a number is the one canonical text with that value.
  lemma DecimalIff(s: string, n: int)
    ensures s == Decimal(n) <==> CanonicalDecimal(s) && ParseDecimal(s) == n
  {
    hide Decimal, CanonicalDecimal, ParseDecimal;
    DecimalBack(n);
    if CanonicalDecimal(s) { DecimalOfParse(s); }
  }

  lemma HexIff(s: string, n: nat)
    ensures s == Numeral(n, 16) <==> CanonicalNumeral(s, 16) && Value(s, 16) == n
  {
    ValueOfNumeral(n, 16);
    NumeralCanonical(n, 16);
    if CanonicalNumeral(s, 16) { NumeralOfValue(s, 16); }
  }

  // ---- the digits ----

  function Power(base: nat, k: nat): (p: nat)
    requires GoodBase(base)
    ensures 0 < p
  {
    if k == 0 then 1 else base * Power(base, k - 1)
  }

  lemma TwoQuotients(n: nat, base: nat, p: nat)
    requires GoodBase(base) && 0 < p
    ensures 0 < base * p && n / base / p == n / (base * p)
  {
    var q, r := n / base, n % base;
    var s, t := q / p, q % p;
    assert n == base * q + r && q == p * s + t;
    Regrouped(base, p, s, t);
    QuotientIs(n, base * p, s, base * t + r);
  }

  lemma Regrouped(base: nat, p: nat, s: int, t: nat)
    requires 0 < base && t < p
    ensures base * (p * s + t) == base * p * s + base * t && 0 <= base * t <= base * p - base
  {
    Spread(base, p * s, t);
    Grouped(base, p, s);
    Spread(base, t, p - t);
    Multiple(base, p - t);
    Multiple(base, t);
  }

  lemma Spread(a: int, b: int, c: int)
    ensures a * (b + c) == a * b + a * c
  {
  }

  lemma Grouped(a: int, b: int, c: int)
    ensures a * (b * c) == a * b * c
  {
  }

  lemma QuotientIs(n: nat, d: nat, q: int, r: int)
    requires 0 <= r < d && n == d * q + r
    ensures n / d == q
  {
    var e := n / d - q;
    assert d * (n / d) + n % d == n;
    assert d * e == r - n % d;
    Multiple(d, e);
  }

  lemma Multiple(d: nat, e: int)
    ensures (e >= 1 ==> d * e >= d) && (e <= -1 ==> d * e <= 0 - d)
  {
  }

  // The digits, counted from the right, are those of the number's quotients by the powers of
  // the base.
  lemma {:induction false} DigitAt(n: nat, base: nat, i: nat)
    requires GoodBase(base) && i < |Numeral(n, base)|
    ensures var s := Numeral(n, base);
            s[|s| - 1 - i] == "0123456789ABCDEF"[n / Power(base, i) % base]
    decreases i
  {
    hide Numeral;
    assert Power(base, 0) == 1;
    if n < base {
      NumeralOfDigit(n, base);
      QuotientZero(n, base);
    } else {
      NumeralUnfold(n, base);
      if i > 0 {
        DigitAt(n / base, base, i - 1);
        TwoQuotients(n, base, Power(base, i - 1));
      }
    }
  }

  // ---- length ----

  lemma QuotientBelow(n: nat, base: nat, p: nat)
    requires GoodBase(base) && n < base * p
    ensures n / base < p
  {
  }

  lemma {:induction false} NumeralLength(n: nat, base: nat, k: nat)
    requires GoodBase(base) && 0 < k && n < Power(base, k)
    ensures |Numeral(n, base)| <= k
    decreases k
  {
    hide Numeral, DigitChar;
    if n < base {
      NumeralOfDigit(n, base);
    } else {
      QuotientBelow(n, base, Power(base, k - 1));
      NumeralUnfold(n, base);
      assert Power(base, 0) == 1;
      NumeralLength(n / base, base, k - 1);
    }
  }
}
