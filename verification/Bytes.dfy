// Bytes, and integers of 1, 2, 4 or 8 bytes in network order.
module Bytes {
  type Byte = x: int | 0 <= x < 256 witness 0

  function Power256(k: nat): (p: nat)
    ensures 1 <= p
  {
    if k == 0 then 1 else 256 * Power256(k - 1)
  }

  // The k low bytes of x, most significant first.
  function BigEndian(k: nat, x: nat): (s: seq<Byte>)
    ensures |s| == k
  {
    if k == 0 then [] else BigEndian(k - 1, x / 256) + [x % 256]
  }

  function FromBigEndian(s: seq<Byte>): nat {
    if s == [] then 0 else 256 * FromBigEndian(s[..|s| - 1]) + s[|s| - 1]
  }

  // The values of a signed integer of k bytes, its two's complement, and back.
  predicate Fits(k: nat, x: int) { 0 - Power256(k) <= 2 * x < Power256(k) }

  function Wrapped(k: nat, x: int): (n: nat)
    requires Fits(k, x)
    ensures n < Power256(k) || k == 0
  {
    if x < 0 then x + Power256(k) else x
  }

  function Signed(k: nat, n: nat): int { if 2 * n < Power256(k) then n else n - Power256(k) }

  function EncodeInt(k: nat, x: int): (s: seq<Byte>)
    requires Fits(k, x)
    ensures |s| == k
  {
    BigEndian(k, Wrapped(k, x))
  }

  function DecodeInt(s: seq<Byte>): int { Signed(|s|, FromBigEndian(s)) }

  lemma {:induction false} BigEndianBack(k: nat, x: nat)
    requires x < Power256(k)
    ensures FromBigEndian(BigEndian(k, x)) == x
  {
    if k > 0 {
      var s := BigEndian(k, x);
      assert s[..k - 1] == BigEndian(k - 1, x / 256);
      BigEndianBack(k - 1, x / 256);
    }
  }

  // ---- network order ----

  lemma Powers()
    ensures Power256(0) == 1 && Power256(1) == 0x100 && Power256(2) == 0x1_0000
    ensures Power256(4) == 0x1_0000_0000 && Power256(8) == 0x1_0000_0000_0000_0000
  {
    assert Power256(3) == 256 * Power256(2) && Power256(4) == 256 * Power256(3);
    assert Power256(5) == 256 * Power256(4) && Power256(6) == 256 * Power256(5);
    assert Power256(7) == 256 * Power256(6) && Power256(8) == 256 * Power256(7);
  }

  lemma {:induction false} PowerSum(i: nat, j: nat)
    ensures Power256(i + j) == Power256(i) * Power256(j)
  {
    if i > 0 {
      PowerSum(i - 1, j);
      assert Power256(i + j) == 256 * Power256(i - 1 + j) && Power256(i) == 256 * Power256(i - 1);
    }
  }

  lemma QuotientBy(x: int, p: nat)
    requires 0 < p
    ensures x / 256 / p == x / (256 * p)
  {
    var a, b := x / 256, x % 256;
    var q, r := a / p, a % p;
    assert a == p * q + r && x == 256 * (p * q + r) + b;
    assert 256 * (p * q + r) == 256 * p * q + 256 * r;
    assert 0 <= 256 * r + b < 256 * p;
    OneQuotient(x, 256 * p, q, 256 * r + b);
  }

  lemma OneQuotient(x: int, d: nat, q: int, r: int)
    requires 0 <= r < d && x == d * q + r
    ensures x / d == q
  {
    var e := x / d - q;
    assert d * (x / d) + x % d == x;
    assert d * e == r - x % d;
    Times(d, e);
  }

  lemma Times(d: nat, e: int)
    ensures (e >= 1 ==> d * e >= d) && (e <= -1 ==> d * e <= 0 - d)
  {
  }

  lemma {:induction false} BigEndianAt(k: nat, x: nat, i: nat)
    requires i < k
    ensures BigEndian(k, x)[i] == x / Power256(k - 1 - i) % 256
  {
    if i < k - 1 {
      BigEndianAt(k - 1, x / 256, i);
      QuotientBy(x, Power256(k - 2 - i));
    }
  }

  // Byte i of the code counts the multiples of 256 to the power k - 1 - i: the most
  // significant byte comes first, and negative numbers are in two's complement.
  lemma EncodedByte(k: nat, x: int, i: nat)
    requires i < k && Fits(k, x)
    ensures EncodeInt(k, x)[i] == x / Power256(k - 1 - i) % 256
  {
    var p, m := Power256(k - 1 - i), Power256(i);
    assert Power256(i + 1) == 256 * m;
    hide BigEndian, Fits, Power256;
    BigEndianAt(k, Wrapped(k, x), i);
    if x < 0 {
      PowerSum(k - 1 - i, i + 1);
      Shifted(x, p, 256 * m);
      SameByte(x / p, m);
    }
  }

  lemma SameByte(x: int, m: int)
    ensures (x + 256 * m) % 256 == x % 256
  {
  }

  lemma Shifted(x: int, p: nat, m: int)
    requires 0 < p
    ensures (x + p * m) / p == x / p + m
  {
    assert x == p * (x / p) + x % p;
    assert x + p * m == p * (x / p + m) + x % p by { assert p * (x / p + m) == p * (x / p) + p * m; }
    OneQuotient(x + p * m, p, x / p + m, x % p);
  }

  // One in four bytes.
  lemma OneEncoded()
    ensures Fits(4, 1) && EncodeInt(4, 1) == [0, 0, 0, 1] && Fits(2, -2) && EncodeInt(2, -2) == [255, 254]
  {
    Powers();
    assert BigEndian(3, 0) == [0, 0, 0] by { assert BigEndian(1, 0) == [0] && BigEndian(2, 0) == [0, 0]; }
    assert BigEndian(4, 1) == [0, 0, 0] + [1];
    assert BigEndian(1, 255) == [255] && BigEndian(2, 65534) == [255] + [254];
  }

  lemma {:induction false} FromBigEndianBack(s: seq<Byte>)
    ensures FromBigEndian(s) < Power256(|s|) && BigEndian(|s|, FromBigEndian(s)) == s
  {
    if s != [] {
      var t, b := s[..|s| - 1], s[|s| - 1];
      FromBigEndianBack(t);
      OneQuotient(256 * FromBigEndian(t) + b, 256, FromBigEndian(t), b);
      assert s == t + [b];
    }
  }

  // Any bytes are the code of the integer read from them.
  lemma EncodeDecode(s: seq<Byte>)
    requires s != []
    ensures Fits(|s|, DecodeInt(s)) && EncodeInt(|s|, DecodeInt(s)) == s
  {
    hide BigEndian, FromBigEndian;
    FromBigEndianBack(s);
    assert Power256(|s|) == 256 * Power256(|s| - 1);
  }

  // Any value that fits its width survives the trip through the network order.
  lemma DecodeEncode(k: nat, x: int)
    requires k > 0 && Fits(k, x)
    ensures DecodeInt(EncodeInt(k, x)) == x
  {
    BigEndianBack(k, Wrapped(k, x));
  }

  // ---- integers of mixed widths queued at both ends ----

  datatype Item = Item(width: nat, value: int)

  predicate Sized(w: nat) { w == 1 || w == 2 || w == 4 || w == 8 }

  predicate GoodItems(items: seq<Item>) {
    forall e <- items :: Sized(e.width) && Fits(e.width, e.value)
  }

  function EncodeAll(items: seq<Item>): seq<Byte>
    requires GoodItems(items)
  {
    if items == [] then [] else EncodeInt(items[0].width, items[0].value) + EncodeAll(items[1..])
  }

  // Reading the given widths in order; too few bytes end the reading.
  function ReadAll(widths: seq<nat>, s: seq<Byte>): (seq<int>, seq<Byte>) {
    if widths == [] || |s| < widths[0] then ([], s)
    else
      var (values, rest) := ReadAll(widths[1..], s[widths[0]..]);
      ([DecodeInt(s[..widths[0]])] + values, rest)
  }

  function Widths(items: seq<Item>): (r: seq<nat>)
    ensures |r| == |items|
  {
    if items == [] then [] else [items[0].width] + Widths(items[1..])
  }

  function ValuesOf(items: seq<Item>): (r: seq<int>)
    ensures |r| == |items|
  {
    if items == [] then [] else [items[0].value] + ValuesOf(items[1..])
  }

  lemma {:induction false} ReadBack(items: seq<Item>, rest: seq<Byte>)
    requires GoodItems(items)
    ensures ReadAll(Widths(items), EncodeAll(items) + rest) == (ValuesOf(items), rest)
  {
    hide EncodeInt, DecodeInt, Fits;
    if items == [] {
      assert EncodeAll(items) + rest == rest;
    } else {
      var e, s := items[0], EncodeAll(items) + rest;
      assert e in items;
      DecodeEncode(e.width, e.value);
      hide GoodItems;
      assert s[..e.width] == EncodeInt(e.width, e.value);
      assert s[e.width..] == EncodeAll(items[1..]) + rest;
      assert Widths(items)[1..] == Widths(items[1..]);
      ReadBack(items[1..], rest);
    }
  }

  lemma {:induction false} EncodeAllAppend(items: seq<Item>, e: Item)
    requires GoodItems(items + [e])
    ensures GoodItems(items) && Fits(e.width, e.value)
    ensures EncodeAll(items + [e]) == EncodeAll(items) + EncodeInt(e.width, e.value)
  {
    hide EncodeInt, Fits;
    forall d | d in items
      ensures d in items + [e]
    {
    }
    assert (items + [e])[|items|] == e;
    if items == [] {
      assert items + [e] == [e];
      assert EncodeAll([e]) == EncodeInt(e.width, e.value) + EncodeAll([]);
    } else {
      assert (items + [e])[1..] == items[1..] + [e];
      EncodeAllAppend(items[1..], e);
    }
  }

  lemma EncodeAllPrepend(items: seq<Item>, e: Item)
    requires GoodItems([e] + items)
    ensures GoodItems(items) && Fits(e.width, e.value)
    ensures EncodeAll([e] + items) == EncodeInt(e.width, e.value) + EncodeAll(items)
  {
  }

  // Writing an integer behind or in front of what is there.
  datatype Write = Back(e: Item) | Front(e: Item)

  predicate GoodWrites(ws: seq<Write>) {
    forall w <- ws :: Sized(w.e.width) && Fits(w.e.width, w.e.value)
  }

  function Written(ws: seq<Write>, s: seq<Byte>): seq<Byte>
    requires GoodWrites(ws)
  {
    if ws == [] then s
    else
      var code := EncodeInt(ws[0].e.width, ws[0].e.value);
      Written(ws[1..], if ws[0].Back? then s + code else code + s)
  }

  function Queued(ws: seq<Write>, items: seq<Item>): seq<Item> {
    if ws == [] then items
    else Queued(ws[1..], if ws[0].Back? then items + [ws[0].e] else [ws[0].e] + items)
  }

  lemma {:induction false} WrittenIsQueued(ws: seq<Write>, items: seq<Item>)
    requires GoodWrites(ws) && GoodItems(items)
    ensures GoodItems(Queued(ws, items))
    ensures Written(ws, EncodeAll(items)) == EncodeAll(Queued(ws, items))
  {
    if ws != [] {
      var e := ws[0].e;
      if ws[0].Back? {
        EncodeAllAppend(items, e);
        WrittenIsQueued(ws[1..], items + [e]);
      } else {
        EncodeAllPrepend(items, e);
        WrittenIsQueued(ws[1..], [e] + items);
      }
    }
  }

  // Integers of mixed widths written at either end of an empty buffer read back as the
  // same values, front to back, with nothing left over.
  lemma MixedRoundTrip(ws: seq<Write>)
    requires GoodWrites(ws)
    ensures ReadAll(Widths(Queued(ws, [])), Written(ws, [])) == (ValuesOf(Queued(ws, [])), [])
  {
    WrittenIsQueued(ws, []);
    var items := Queued(ws, []);
    ReadBack(items, []);
    assert EncodeAll(items) + [] == EncodeAll(items);
  }
}
