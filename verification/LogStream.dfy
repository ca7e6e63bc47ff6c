// Printing integers and addresses into the logger's small buffer: digits are written least
// significant first and then turned round in place.
module LogStreams {
  import opened FixedBuffers
  import opened Numerals

  const SMALL_BUFFER: nat := 4000
  const MAX_NUMERIC_SIZE: nat := 48

  // Every value of the signed and unsigned integer types up to 64 bits.
  type Number = x: int | -0x8000_0000_0000_0000 <= x < 0x1_0000_0000_0000_0000
  type Address = x: nat | x < 0x1_0000_0000_0000_0000

  // Division truncates toward zero and the remainder has the dividend's sign.
  function Quotient(a: int, b: int): int
    requires 0 < b
  {
    if a < 0 then -(-a / b) else a / b
  }

  function Remainder(a: int, b: int): int
    requires 0 < b
  {
    a - b * Quotient(a, b)
  }

  // Mirrored about its zero, so that a negative remainder finds its digit as well.
  const DIGITS := "9876543210123456789"
  const ZERO := 9

  function Abs(n: int): nat { if n < 0 then -n else n }

  lemma DigitOf(num: int)
    ensures 0 <= ZERO + Remainder(num, 10) < |DIGITS|
    ensures DIGITS[ZERO + Remainder(num, 10)] == DigitChar(Abs(num) % 10)
    ensures Abs(Quotient(num, 10)) == Abs(num) / 10
  {
    assert Abs(num) == 10 * (Abs(num) / 10) + Abs(num) % 10;
    MirroredDigit(Remainder(num, 10));
  }

  lemma MirroredDigit(r: int)
    requires -10 < r < 10
    ensures DIGITS[ZERO + r] == DigitChar(Abs(r))
  {
  }

  function Reversed(s: string): (r: string)
    ensures |r| == |s|
  {
    if s == "" then "" else Reversed(s[1..]) + [s[0]]
  }

  lemma {:induction false} ReversedAt(s: string, k: nat)
    requires k < |s|
    ensures Reversed(s)[k] == s[|s| - 1 - k]
  {
    if k < |s| - 1 { ReversedAt(s[1..], k); }
  }

  lemma {:induction false} ReversedAppend(s: string, c: char)
    ensures Reversed(s + [c]) == [c] + Reversed(s)
  {
    if s != "" {
      assert (s + [c])[1..] == s[1..] + [c];
      ReversedAppend(s[1..], c);
    } else {
      assert s + [c] == [c];
    }
  }

  // One more digit: what is still to be printed and what has been printed backwards always
  // make up the whole numeral.
  lemma DigitWritten(n: nat, base: nat, printed: string)
    requires GoodBase(base)
    ensures n / base == 0 <==> n < base
    ensures (if n < base then "" else Numeral(n / base, base)) + Reversed(printed + [DigitChar(n % base)]) ==
            Numeral(n, base) + Reversed(printed)
  {
    hide Reversed, Numeral, DigitChar;
    ReversedAppend(printed, DigitChar(n % base));
    var c, r := DigitChar(n % base), Reversed(printed);
    if n < base {
      QuotientZero(n, base);
      NumeralOfDigit(n, base);
      assert "" + ([c] + r) == [c] + r;
    } else {
      NumeralUnfold(n, base);
      assert Numeral(n / base, base) + ([c] + r) == Numeral(n / base, base) + [c] + r;
    }
  }

  lemma NumberLength(n: nat)
    requires n < 0x1_0000_0000_0000_0000
    ensures |Numeral(n, 10)| <= 20 && |Numeral(n, 16)| <= 16
    ensures n <= 0x8000_0000_0000_0000 ==> |Numeral(n, 10)| <= 19
  {
    assert Power(16, 8) == 0x1_0000_0000;
    assert Power(16, 16) == 0x1_0000_0000_0000_0000;
    assert Power(10, 5) == 100_000;
    assert Power(10, 10) == 100_000 * Power(10, 5);
    assert Power(10, 15) == 100_000 * Power(10, 10);
    assert Power(10, 19) == 10_000_000_000_000_000_000;
    NumeralLength(n, 16, 16);
    NumeralLength(n, 10, 20);
    if n <= 0x8000_0000_0000_0000 { NumeralLength(n, 10, 19); }
  }

  // std::reverse on a stretch of the array.
  method ReverseInPlace(a: array<char>, from: nat, to: nat)
    requires from <= to <= a.Length
    modifies a
    ensures a[from..to] == Reversed(old(a[from..to]))
    ensures a[..from] == old(a[..from]) && a[to..] == old(a[to..])
  {
    hide Reversed;
    ghost var before := a[..];
    var i, j := from, to;
    while i + 1 < j
      invariant from <= i <= j <= to && i - from == to - j
      invariant forall k :: 0 <= k < from || to <= k < a.Length || i <= k < j ==> a[k] == before[k]
      invariant forall k :: from <= k < i || j <= k < to ==> a[k] == before[from + to - 1 - k]
      decreases j - i
    {
      j := j - 1;
      a[i], a[j] := a[j], a[i];
      i := i + 1;
    }
    ghost var part := before[from..to];
    forall k | 0 <= k < to - from
      ensures a[from..to][k] == Reversed(part)[k]
    {
      ReversedAt(part, k);
      assert a[from + k] == before[from + to - 1 - (from + k)];
    }
  }

  class LogStream {
    const buffer: FixedBuffer

    ghost predicate Valid()
      reads this, buffer
    {
      buffer.Valid()
    }

    ghost function Text(): string
      requires Valid()
      reads this, buffer, buffer.data
    {
      buffer.Text()
    }

    constructor ()
      ensures Valid() && Text() == "" && buffer.Avail() == 4000 && fresh(buffer) && fresh(buffer.data)
    {
      buffer := new FixedBuffer(SMALL_BUFFER);
    }

    // With room for the longest numeral the decimal text is added, followed by a
    // terminator behind the used part; without it nothing happens.
    method FormatInteger(n: Number)
      requires Valid()
      modifies buffer`curr, buffer.data
      ensures Valid()
      ensures old(buffer.Avail()) < 48 ==> Text() == old(Text())
      ensures 48 <= old(buffer.Avail()) ==>
                Text() == old(Text()) + Decimal(n) && |Decimal(n)| < 48 && buffer.data[buffer.curr] == 0 as char
    {
      if buffer.Avail() >= MAX_NUMERIC_SIZE {
        DecimalFits(n);
        var len := Convert(buffer.data, buffer.curr, n);
        buffer.Add(len);
      }
    }

    // An address is printed as 0x and its hexadecimal numeral.
    method WriteAddress(v: Address)
      requires Valid()
      modifies buffer`curr, buffer.data
      ensures Valid()
      ensures old(buffer.Avail()) < 48 ==> Text() == old(Text())
      ensures 48 <= old(buffer.Avail()) ==>
                && Text() == old(Text()) + "0x" + Numeral(v, 16)
                && 2 + |Numeral(v, 16)| < 48 && buffer.data[buffer.curr] == 0 as char
    {
      if buffer.Avail() >= MAX_NUMERIC_SIZE {
        var a, at := buffer.data, buffer.curr;
        NumberLength(v);
        a[at], a[at + 1] := '0', 'x';
        assert a[..at + 2] == old(Text()) + "0x";
        var len := ConvertHex(a, at + 2, v);
        assert a[..at + 2 + len] == a[..at + 2] + a[at + 2..at + 2 + len];
        buffer.Add(len + 2);
      }
    }
  }

  const TERMINATOR: char := 0 as char

  lemma DecimalFits(n: Number)
    ensures |Decimal(n)| <= 20
  {
    NumberLength(Abs(n));
  }

  // The digit loop of FormatInteger: the numeral of the absolute value, backwards.
  method PrintDigits(a: array<char>, start: nat, n: Number) returns (cur: nat)
    requires start + |Numeral(Abs(n), 10)| <= a.Length
    modifies a
    ensures cur == start + |Numeral(Abs(n), 10)| && Reversed(a[start..cur]) == Numeral(Abs(n), 10)
    ensures a[..start] == old(a[..start])
  {
    hide Numeral, Reversed, DIGITS, DigitChar, Quotient, Remainder;
    var num, more := n as int, true;
    cur := start;
    ghost var whole := Numeral(Abs(n), 10);
    while more
      invariant start <= cur <= start + |whole|
      invariant (if more then Numeral(Abs(num), 10) else "") + Reversed(a[start..cur]) == whole
      invariant a[..start] == old(a[..start])
      decreases more, Abs(num)
    {
      DigitOf(num);
      DigitWritten(Abs(num), 10, a[start..cur]);
      ghost var printed := a[start..cur];
      assert |Reversed(printed)| == cur - start;
      a[cur] := DIGITS[ZERO + Remainder(num, 10)];
      cur := cur + 1;
      assert a[start..cur] == printed + [a[cur - 1]];
      num := Quotient(num, 10);
      more := num != 0;
    }
  }

  // The rest of FormatInteger: the sign and the terminator are added, and the text is
  // turned round.
  method Convert(a: array<char>, start: nat, n: Number) returns (len: nat)
    requires start + |Decimal(n)| < a.Length
    modifies a
    ensures len == |Decimal(n)| && a[start..start + len] == Decimal(n) && a[start + len] == TERMINATOR
    ensures a[..start] == old(a[..start])
  {
    hide Numeral, Reversed;
    var cur := PrintDigits(a, start, n);
    if n < 0 {
      ghost var printed := a[start..cur];
      ReversedAppend(printed, '-');
      a[cur] := '-';
      cur := cur + 1;
      assert a[start..cur] == printed + ['-'];
    }
    a[cur] := TERMINATOR;
    ReverseInPlace(a, start, cur);
    len := cur - start;
    assert a[start + len] == a[cur..][0];
  }

  method ConvertHex(a: array<char>, start: nat, value: Address) returns (len: nat)
    requires start + |Numeral(value, 16)| < a.Length
    modifies a
    ensures len == |Numeral(value, 16)| && a[start..start + len] == Numeral(value, 16)
    ensures a[start + len] == TERMINATOR && a[..start] == old(a[..start])
  {
    hide Numeral, Reversed;
    var i: nat, p, more := value, start, true;
    ghost var whole := Numeral(value, 16);
    while more
      invariant start <= p <= start + |whole|
      invariant (if more then Numeral(i, 16) else "") + Reversed(a[start..p]) == whole
      invariant a[..start] == old(a[..start])
      decreases more, i
    {
      DigitWritten(i, 16, a[start..p]);
      ghost var printed := a[start..p];
      assert |Reversed(printed)| == p - start;
      var lsd := i % 16;
      i := i / 16;
      a[p] := DigitChar(lsd);
      p := p + 1;
      assert a[start..p] == printed + [a[p - 1]];
      more := i != 0;
    }
    a[p] := TERMINATOR;
    ReverseInPlace(a, start, p);
    len := p - start;
  }
}
