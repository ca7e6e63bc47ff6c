// The network buffer: a byte vector with a reader and a writer index, whose content
// slides to the front or moves to a larger vector when room runs out.
module Buffers {
  import opened Bytes

  const CHEAP_PREPEND: nat := 8
  const INITIAL_SIZE: nat := 1024
  const INT_MAX: nat := 0x7FFF_FFFF
  const SIZE_T: nat := 0x1_0000_0000_0000_0000
  // no vector is longer
  const MAX_SIZE: nat := 0x7FFF_FFFF_FFFF_FFFF

  // A length passed where an int is expected, and an int used as an unsigned length.
  function ToInt(len: nat): int {
    if len % 0x1_0000_0000 <= INT_MAX then len % 0x1_0000_0000 else len % 0x1_0000_0000 - 0x1_0000_0000
  }

  function ToSize(x: int): nat { x % SIZE_T }

  // Each is the one value of its type that is the same modulo the width of the type.
  lemma Narrowing(len: nat, x: int)
    ensures -0x8000_0000 <= ToInt(len) < 0x8000_0000 && (len - ToInt(len)) % 0x1_0000_0000 == 0
    ensures 0 <= ToSize(x) < 0x1_0000_0000_0000_0000 && (x - ToSize(x)) % 0x1_0000_0000_0000_0000 == 0
  {
  }

  // Whether asking for so many writable bytes gives them: they are there, or their number is
  // an int, or sliding makes the room and the narrowed number does not prevent it.
  predicate Enough(writable: nat, reader: nat, len: nat) {
    && len < SIZE_T
    && (len <= writable || len <= INT_MAX || (len + CHEAP_PREPEND <= writable + reader && -8 <= ToInt(len)))
  }

  // The writable bytes after MakeSpace, or -1 when the vector refuses its new size.
  function RoomMade(size: nat, reader: nat, writer: nat, len: nat): int
    requires reader <= writer <= size
  {
    var m := ToInt(len);
    if size - writer + reader < ToSize(m + CHEAP_PREPEND) then
      if ToSize(writer + m) > MAX_SIZE then -1 else ToSize(writer + m) - writer
    else size - CHEAP_PREPEND - (writer - reader)
  }

  // Sliding makes the whole free part writable, growing exactly the narrowed number, if the
  // vector can have that size.
  lemma RoomIs(size: nat, reader: nat, writer: nat, len: nat)
    requires reader <= writer <= size <= 0x3FFF_FFFF_FFFF_FFFF
    ensures var m := ToInt(len);
            RoomMade(size, reader, writer, len) ==
            if ToSize(m + 8) <= size - writer + reader then size - 8 - (writer - reader)
            else if writer + m < 0 then -1 else m
  {
    var m := ToInt(len);
    assert 0 <= writer + m ==> ToSize(writer + m) == writer + m;
    assert writer + m < 0 ==> ToSize(writer + m) == writer + m + SIZE_T;
  }

  // For every length: MakeSpace takes an int, and that is exactly what can go wrong.
  lemma EnoughIff(size: nat, reader: nat, writer: nat, len: nat)
    requires reader <= writer <= size <= 0x3FFF_FFFF_FFFF_FFFF && size - writer < len < SIZE_T
    ensures len <= RoomMade(size, reader, writer, len) <==> Enough(size - writer, reader, len)
  {
    var m := ToInt(len);
    assert m <= len && (len <= INT_MAX ==> m == len);
    assert -8 <= m ==> ToSize(m + CHEAP_PREPEND) == m + CHEAP_PREPEND;
    assert m < -8 ==> ToSize(m + CHEAP_PREPEND) == m + CHEAP_PREPEND + SIZE_T;
    assert 0 <= writer + m ==> ToSize(writer + m) == writer + m;
    assert writer + m < 0 ==> ToSize(writer + m) == writer + m + SIZE_T;
  }

  // Four gibibytes arrive as none at all: nothing is made, and nothing reported.
  lemma NarrowedToNothing()
    ensures RoomMade(1032, 8, 1032, 0x1_0000_0000) == 0 && !Enough(0, 8, 0x1_0000_0000)
  {
  }

  predicate CrlfAt(s: seq<Byte>, i: nat) { i + 1 < |s| && s[i] == 13 && s[i + 1] == 10 }

  // What readv answers.
  datatype Received = Got(data: seq<Byte>) | Refused(errno: int)

  lemma Overwritten(s: seq<Byte>, lo: nat, hi: nat, data: seq<Byte>)
    requires lo <= hi <= hi + |data| <= |s|
    ensures (s[..hi] + data + s[hi + |data|..])[lo..hi + |data|] == s[lo..hi] + data
  {
  }

  // The first i bytes from src have been copied to dst, and nothing from src + i on is touched.
  ghost predicate Moved(before: seq<Byte>, after: seq<Byte>, dst: nat, src: nat, i: nat)
    requires dst <= src && src + i <= |before|
  {
    && |before| == |after|
    && (forall j :: dst <= j < dst + i ==> after[j] == before[j - dst + src])
    && (forall j :: src + i <= j < |after| ==> after[j] == before[j])
  }

  lemma MovedNone(s: seq<Byte>, dst: nat, src: nat)
    requires dst <= src <= |s|
    ensures Moved(s, s, dst, src, 0)
  {
  }

  lemma MovedNext(before: seq<Byte>, after: seq<Byte>, dst: nat, src: nat, i: nat)
    requires dst <= src && src + i < |before| && Moved(before, after, dst, src, i)
    ensures Moved(before, after[dst + i := after[src + i]], dst, src, i + 1)
  {
  }

  lemma MovedAll(before: seq<Byte>, after: seq<Byte>, dst: nat, src: nat, n: nat)
    requires dst <= src && src + n <= |before| && Moved(before, after, dst, src, n)
    ensures after[dst..dst + n] == before[src..src + n]
  {
  }

  // A vector that is cut or extended behind its content keeps it.
  lemma Resized(s: seq<Byte>, more: seq<Byte>, lo: nat, hi: nat, cut: nat)
    requires lo <= hi && cut <= |s|
    ensures hi <= cut ==> (s[..cut] + more)[lo..hi] == s[lo..hi] == s[..cut][lo..hi]
    ensures hi <= |s| ==> (s + more)[lo..hi] == s[lo..hi]
  {
  }

  lemma Parted(s: seq<Byte>, lo: nat, hi: nat, k: nat)
    requires lo + k <= hi <= |s|
    ensures s[lo..hi][..k] == s[lo..lo + k] && s[lo..hi][k..] == s[lo + k..hi]
  {
  }

  class Buffer {
    var bytes: seq<Byte>
    var reader: nat
    var writer: nat

    ghost predicate Valid()
      reads this
    {
      reader <= writer <= |bytes| && CHEAP_PREPEND <= |bytes|
    }

    // What has been appended and not yet retrieved.
    function Content(): (s: seq<Byte>)
      requires Valid()
      reads this
    {
      bytes[reader..writer]
    }

    function Writable(): nat
      requires Valid()
      reads this
    {
      |bytes| - writer
    }

    constructor (initialSize: nat)
      ensures Valid() && Content() == [] && reader == 8 && Writable() == initialSize
    {
      bytes := seq(CHEAP_PREPEND + initialSize, _ => 0);
      reader, writer := CHEAP_PREPEND, CHEAP_PREPEND;
    }

    // ---- room ----

    // Copy the content down to the front, byte by byte in ascending order: the target is
    // below the source, so overlapping ranges do no harm.
    method SlideDown()
      requires Valid() && CHEAP_PREPEND <= reader
      modifies this
      ensures Valid() && Content() == old(Content()) && reader == 8 && |bytes| == |old(bytes)|
    {
      hide Moved;
      ghost var before := bytes;
      var readable := writer - reader;
      var i := 0;
      MovedNone(before, CHEAP_PREPEND, reader);
      while i < readable
        invariant 0 <= i <= readable && |bytes| == |before| && reader == old(reader) && writer == old(writer)
        invariant Moved(before, bytes, CHEAP_PREPEND, reader, i)
      {
        MovedNext(before, bytes, CHEAP_PREPEND, reader, i);
        bytes := bytes[CHEAP_PREPEND + i := bytes[reader + i]];
        i := i + 1;
      }
      MovedAll(before, bytes, CHEAP_PREPEND, reader, readable);
      reader := CHEAP_PREPEND;
      writer := reader + readable;
    }

    // resize of the vector: it is cut, or extended with zeros.
    method Resize(size: nat)
      requires Valid()
      modifies `bytes
      ensures |bytes| == size && (writer <= size ==> bytes[reader..writer] == old(Content()))
    {
      if size < |bytes| {
        Resized(bytes, [], reader, writer, size);
        bytes := bytes[..size];
      } else {
        Resized(bytes, seq(size - |bytes|, _ => 0), reader, writer, |bytes|);
        bytes := bytes + seq(size - |bytes|, _ => 0);
      }
    }

    // Called when fewer than len bytes are writable: slide if that gives enough room, else
    // grow.  The length arrives as an int, and a negative one counts as a huge one: growing by
    // it cuts the vector, or asks for more than any vector holds.
    method MakeSpace(len: nat) returns (thrown: bool)
      requires Valid() && Writable() < len < SIZE_T && (Slides(len) ==> CHEAP_PREPEND <= reader)
      modifies this
      ensures thrown == old(!Slides(len) && writer + ToInt(len) < 0)
      ensures thrown ==> bytes == old(bytes) && reader == old(reader) && writer == old(writer)
      ensures old(Slides(len)) ==> reader == CHEAP_PREPEND && |bytes| == |old(bytes)|
      ensures !old(Slides(len)) && !thrown ==>
                reader == old(reader) && writer == old(writer) && |bytes| == writer + ToInt(len)
      ensures old(|bytes|) <= 0x3FFF_FFFF_FFFF_FFFF ==>
        (if thrown then -1 else |bytes| - writer) == old(RoomMade(|bytes|, reader, writer, len))
      ensures Valid() <==> thrown || old(Slides(len)) || (0 <= ToInt(len) && CHEAP_PREPEND <= |bytes|)
      ensures Valid() ==> Content() == old(Content())
      ensures len <= 0x7FFF_FFFF ==>
        if old(|bytes| - writer + reader) < len + 8 then reader == old(reader) && |bytes| == old(writer) + len
        else reader == 8 && |bytes| == |old(bytes)|
      ensures old(Keeps(len)) ==> Valid() && !thrown && (len <= Writable() <==> old(Enough(Writable(), reader, len)))
    {
      var m := ToInt(len);
      if Keeps(len) { Narrowed(len); }
      if |bytes| <= 0x3FFF_FFFF_FFFF_FFFF { RoomIs(|bytes|, reader, writer, len); }
      hide RoomMade;
      thrown := false;
      if Writable() + reader < ToSize(m + CHEAP_PREPEND) {
        if writer + m < 0 {
          thrown := true;
        } else {
          Resize(writer + m);
        }
      } else {
        SlideDown();
      }
    }

    // Whether MakeSpace slides.
    predicate Slides(len: nat)
      requires Valid()
      reads this
    {
      ToSize(ToInt(len) + CHEAP_PREPEND) <= Writable() + reader
    }

    predicate Keeps(len: nat)
      requires Valid()
      reads this
    {
      len < SIZE_T && (Enough(Writable(), reader, len) || (CHEAP_PREPEND <= reader && -8 <= ToInt(len)))
    }

    lemma Narrowed(len: nat)
      requires Valid() && Writable() < len && Keeps(len)
      ensures -8 <= ToInt(len) <= len && ToSize(ToInt(len) + CHEAP_PREPEND) == ToInt(len) + CHEAP_PREPEND
      ensures len <= INT_MAX ==> ToInt(len) == len
    {
    }

    // Whether asking for so much room ends in an exception.
    predicate Throws(len: nat)
      requires Valid()
      reads this
    {
      Writable() < len < SIZE_T && !Slides(len) && writer + ToInt(len) < 0
    }

    lemma NotBoth(len: nat)
      requires Valid()
      ensures !(Keeps(len) && Throws(len))
      ensures len <= Writable() ==> Enough(Writable(), reader, len) || SIZE_T <= len
      ensures Writable() < len && Keeps(len) && Slides(len) ==> CHEAP_PREPEND <= reader
    {
    }

    method EnsureWritable(len: nat) returns (thrown: bool)
      requires Valid() && (Keeps(len) || Throws(len))
      modifies this
      ensures Valid() && Content() == old(Content()) && thrown == old(Throws(len)) == !old(Keeps(len))
      ensures thrown ==> bytes == old(bytes) && reader == old(reader) && writer == old(writer)
      ensures !thrown ==> (len <= Writable() <==> old(Enough(Writable(), reader, len)))
      ensures old(Writable()) >= len ==> bytes == old(bytes) && reader == old(reader) && writer == old(writer)
      ensures old(Writable()) < len && old(Slides(len)) ==> reader == CHEAP_PREPEND && |bytes| == |old(bytes)|
      ensures old(Writable()) < len && !old(Slides(len)) && !thrown ==>
                reader == old(reader) && writer == old(writer) && |bytes| == writer + ToInt(len)
    {
      NotBoth(len);
      hide RoomMade, Enough, ToInt, ToSize;
      thrown := false;
      if Writable() < len {
        thrown := MakeSpace(len);
      }
    }

    // ---- both ends of the deque ----

    method Append(data: seq<Byte>)
      requires Valid() && Enough(Writable(), reader, |data|)
      modifies this
      ensures Valid() && Content() == old(Content()) + data
      ensures |data| <= old(Writable()) ==> reader == old(reader) && |bytes| == |old(bytes)|
      ensures old(Writable()) < |data| && old(Slides(|data|)) ==> reader == CHEAP_PREPEND && |bytes| == |old(bytes)|
      ensures old(Writable()) < |data| && !old(Slides(|data|)) ==>
                reader == old(reader) && |bytes| == old(writer) + ToInt(|data|)
    {
      var _ := EnsureWritable(|data|);
      Overwritten(bytes, reader, writer, data);
      bytes := bytes[..writer] + data + bytes[writer + |data|..];
      writer := writer + |data|;
    }

    method Prepend(data: seq<Byte>)
      requires Valid() && |data| <= reader
      modifies this
      ensures Valid() && Content() == data + old(Content()) && reader == old(reader) - |data|
    {
      reader := reader - |data|;
      bytes := bytes[..reader] + data + bytes[reader + |data|..];
    }

    method RetrieveAll()
      requires Valid()
      modifies `reader, `writer
      ensures Valid() && Content() == [] && reader == 8
    {
      reader := CHEAP_PREPEND;
      writer := CHEAP_PREPEND;
    }

    // Asking for more than there is takes everything.
    method Retrieve(len: nat)
      requires Valid()
      modifies `reader, `writer
      ensures Valid()
      ensures Content() == if len < |old(Content())| then old(Content())[len..] else []
      ensures reader == if len < |old(Content())| then old(reader) + len else 8
    {
      if len < writer - reader {
        reader := reader + len;
      } else {
        RetrieveAll();
      }
    }

    method RetrieveAsString(len: nat) returns (s: seq<Byte>)
      requires Valid() && len <= |Content()|
      modifies this
      ensures Valid() && old(Content()) == s + Content() && |s| == len
    {
      s := bytes[reader..reader + len];
      Retrieve(len);
    }

    // Move the content to a buffer with no more room than needed; swap takes its place.  The
    // room asked for may narrow to a negative number, which ends in an exception.
    method Shrink(reserve: nat) returns (thrown: bool)
      requires Valid() && |Content()| <= INT_MAX
      modifies this
      ensures Valid() && Content() == old(Content())
      ensures var room := (|Content()| + reserve) % SIZE_T;
              && (thrown <==> 1024 < room && ToInt(room) < -8)
              && (!thrown ==> reader == 8 && |bytes| == 8 + Max(1024, Max(ToInt(room), |Content()|)))
      ensures thrown ==> bytes == old(bytes) && reader == old(reader) && writer == old(writer)
    {
      var room := (|Content()| + reserve) % SIZE_T;
      var other := new Buffer(INITIAL_SIZE);
      hide Slides, Throws, Keeps, Enough, ToInt;
      FreshRoom(other, room);
      thrown := other.EnsureWritable(room);
      if !thrown {
        EmptyRoom(other, |Content()|);
        other.Append(Content());
        bytes, reader, writer := other.bytes, other.reader, other.writer;
      }
    }

    function Max(a: int, b: int): (m: int)
      ensures m >= a && m >= b && (m == a || m == b)
    {
      if a < b then b else a
    }

    lemma FreshRoom(b: Buffer, len: nat)
      requires b.Valid() && b.Content() == [] && b.reader == CHEAP_PREPEND
      requires b.Writable() == INITIAL_SIZE && len < SIZE_T
      ensures b.Throws(len) <==> INITIAL_SIZE < len && ToInt(len) < -8
      ensures b.Keeps(len) <==> !b.Throws(len)
      ensures INITIAL_SIZE < len && !b.Throws(len) ==> (b.Slides(len) <==> ToInt(len) <= INITIAL_SIZE)
      ensures len <= INITIAL_SIZE ==> ToInt(len) == len
    {
    }

    lemma EmptyRoom(b: Buffer, len: nat)
      requires b.Valid() && b.Content() == [] && b.reader == CHEAP_PREPEND && len <= INT_MAX
      ensures Enough(b.Writable(), b.reader, len) && ToInt(len) == len && (b.Writable() < len ==> !b.Slides(len))
    {
    }

    // ---- reading from a descriptor ----

    // The system fills the writable part and then, if that is short, the extra area, or it
    // fails.  The extra part is appended afterwards; the error number is saved.
    method ReadFd(r: Received, errno: int) returns (n: int, savedErrno: int)
      requires Valid() && (r.Got? ==> |r.data| <= Writable() + (if Writable() < 65536 then 65536 else 0))
      modifies this
      ensures Valid() && Content() == old(Content()) + if r.Got? then r.data else []
      ensures (n, savedErrno) == if r.Got? then (|r.data|, errno) else (-1, r.errno)
      ensures r.Refused? ==> bytes == old(bytes) && reader == old(reader) && writer == old(writer)
    {
      savedErrno := errno;
      var writable := Writable();
      match r
      case Refused(e) =>
        n, savedErrno := -1, e;
      case Got(data) =>
        n := |data|;
        if n <= writable {
          Overwritten(bytes, reader, writer, data);
          bytes := bytes[..writer] + data + bytes[writer + n..];
          writer := writer + n;
        } else {
          bytes := bytes[..writer] + data[..writable];
          writer := |bytes|;
          assert Content() == old(Content()) + data[..writable];
          Append(data[writable..]);
        }
    }

    // ---- network-order integers ----

    // The most significant byte goes first.
    method AppendInt(k: nat, x: int)
      requires Valid() && (k == 1 || k == 2 || k == 4 || k == 8) && Fits(k, x)
      modifies this
      ensures Valid() && Content() == old(Content()) + EncodeInt(k, x)
      ensures var code := Content()[|old(Content())|..];
              |code| == k && forall i :: 0 <= i < k ==> code[i] == x / Power256(k - 1 - i) % 256
    {
      hide EncodeInt, Power256, Fits;
      EncodedBytes(k, x);
      Append(EncodeInt(k, x));
    }

    lemma EncodedBytes(k: nat, x: int)
      requires Fits(k, x)
      ensures forall i :: 0 <= i < k ==> EncodeInt(k, x)[i] == x / Power256(k - 1 - i) % 256
    {
      hide EncodeInt, Power256, Fits;
      forall i | 0 <= i < k
        ensures EncodeInt(k, x)[i] == x / Power256(k - 1 - i) % 256
      {
        EncodedByte(k, x, i);
      }
    }

    method PrependInt(k: nat, x: int)
      requires Valid() && (k == 1 || k == 2 || k == 4 || k == 8) && Fits(k, x) && k <= reader
      modifies this
      ensures Valid() && Content() == EncodeInt(k, x) + old(Content())
      ensures forall i :: 0 <= i < k ==> Content()[i] == x / Power256(k - 1 - i) % 256
    {
      hide EncodeInt, Power256, Fits;
      EncodedBytes(k, x);
      Prepend(EncodeInt(k, x));
    }

    method ReadInt(k: nat) returns (x: int)
      requires Valid() && (k == 1 || k == 2 || k == 4 || k == 8) && k <= |Content()|
      modifies this
      ensures Valid() && x == DecodeInt(old(Content())[..k]) && Content() == old(Content())[k..]
      ensures Fits(k, x) && forall i :: 0 <= i < k ==> old(Content())[i] == x / Power256(k - 1 - i) % 256
    {
      assert k > 0;
      hide DecodeInt, EncodeInt, Fits, Power256;
      EncodeDecode(Content()[..k]);
      EncodedBytes(k, DecodeInt(Content()[..k]));
      Parted(bytes, reader, writer, k);
      x := DecodeInt(bytes[reader..reader + k]);
      Retrieve(k);
    }

    // ---- searching ----

    // The first line end in the content, or -1.
    method FindCRLF() returns (at: int)
      requires Valid()
      ensures at == -1 || (0 <= at && CrlfAt(Content(), at))
      ensures forall i: nat :: CrlfAt(Content(), i) && (at == -1 || i < at) ==> false
    {
      var i := 0;
      while i + 1 < writer - reader
        invariant 0 <= i
        invariant forall j: nat :: j < i ==> !CrlfAt(Content(), j)
      {
        if bytes[reader + i] == 13 && bytes[reader + i + 1] == 10 {
          return i;
        }
        i := i + 1;
      }
      return -1;
    }
  }
}
