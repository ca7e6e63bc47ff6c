// The fixed-size character buffer of the logger: an array and a position up to which it is used.
module FixedBuffers {
  // What a buffer of some size holds after a text is appended to it: something that does not
  // leave a spare place is dropped whole.
  function Appended(text: string, s: string, size: nat): (r: string)
    requires |text| <= size
    ensures |r| <= size && text <= r
  {
    if size - |text| > |s| then text + s else text
  }

  class FixedBuffer {
    const data: array<char>
    var curr: nat

    ghost predicate Valid()
      reads this
    {
      curr <= data.Length
    }

    // The used part.
    ghost function Text(): (s: string)
      requires Valid()
      reads this, data
    {
      data[..curr]
    }

    constructor (size: nat)
      ensures Valid() && fresh(data) && data.Length == size && Text() == ""
    {
      data := new char[size];
      curr := 0;
    }

    function Avail(): nat
      requires Valid()
      reads this
    {
      data.Length - curr
    }

    method Append(s: string)
      requires Valid()
      modifies `curr, data
      ensures Valid()
      ensures Text() == Appended(old(Text()), s, data.Length)
      ensures Text() == if |s| < data.Length - old(curr) then old(Text()) + s else old(Text())
      ensures data[..old(curr)] == old(data[..curr])
    {
      if Avail() > |s| {
        forall i | 0 <= i < |s| {
          data[curr + i] := s[i];
        }
        assert data[curr..curr + |s|] == s;
        assert data[..curr + |s|] == data[..curr] + data[curr..curr + |s|];
        curr := curr + |s|;
      }
    }

    // What was written behind the used part becomes part of it.
    method Add(len: nat)
      requires Valid() && len <= Avail()
      modifies `curr
      ensures Valid() && curr == old(curr) + len && Text() == old(Text()) + data[old(curr)..curr]
    {
      curr := curr + len;
    }

    method Reset()
      requires Valid()
      modifies `curr
      ensures Valid() && Text() == ""
    {
      curr := 0;
    }
  }
}
