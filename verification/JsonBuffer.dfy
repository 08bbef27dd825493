/** The string buffer that writers put bytes into. Room is reserved ahead; bytes are then put
    without looking whether it is enough, which an assertion checks. */
module JsonBuffer {
  import opened Words
  import opened JsonText
  import W = JsonWriter

  const DEFAULT_CAPACITY := 256

  /** The capacity after `Reserve`, by `Expand` where it was not enough. */
  function Expanded(capacity: nat, size: nat, count: nat): (r: nat)
    ensures r >= size + count && r >= capacity
  {
    if size + count <= capacity then capacity
    else
      var more := if capacity == 0 then DEFAULT_CAPACITY else capacity + (capacity + 1) / 2;
      if more < size + count then size + count else more
  }

  /** `GenericStringBuffer` and the `Stack` it is made of. */
  class StringBuffer {
    var data: seq<byte>
    var capacity: nat
    /** The assertion of `PushUnsafe` that there is room has failed. */
    var short: bool

    constructor ()
      ensures data == [] && capacity == 0 && !short
    {
      data, capacity, short := [], 0, false;
    }

    method Reserve(count: nat)
      modifies this`capacity
      ensures capacity == Expanded(old(capacity), |data|, count)
    {
      if |data| + count > capacity {
        var more := if capacity == 0 then DEFAULT_CAPACITY else capacity;
        if capacity != 0 {
          more := more + (more + 1) / 2;
        }
        if more < |data| + count {
          more := |data| + count;
        }
        capacity := more;
      }
    }

    /** Without room the assertion fails. */
    method PutUnsafe(c: byte)
      modifies this`data, this`short
      ensures data == old(data) + [c]
      ensures short <==> old(short) || |data| > capacity
    {
      if |data| + 1 > capacity {
        short := true;
      }
      data := data + [c];
    }

    method Put(c: byte)
      modifies this`data, this`capacity
      ensures data == old(data) + [c]
    {
      Reserve(1);
      data := data + [c];
    }

    /** `PutN`: so many bytes are pushed at once. */
    method PutN(c: byte, n: nat)
      modifies this`data, this`capacity
      ensures data == old(data) + W.Repeat(c, n)
    {
      Reserve(n);
      data := data + W.Repeat(c, n);
    }

    /** A text for which just as much room is reserved. */
    method PutText(text: seq<byte>)
      modifies this
      ensures data == old(data) + text && short == old(short)
    {
      Reserve(|text|);
      var k := 0;
      assert data + text[..0] == data;
      while k < |text|
        invariant 0 <= k <= |text| && data == old(data) + text[..k] && short == old(short)
        invariant |old(data)| + |text| <= capacity
      {
        PutUnsafe(text[k]);
        assert text[..k + 1] == text[..k] + [text[k]];
        k := k + 1;
      }
      assert text[..k] == text;
    }
  }

  /** What `WriteString` puts for a byte that it does not decode. */
  method PutEscaped(os: StringBuffer, c: byte)
    modifies os`data, os`short
    ensures os.data == old(os.data) + W.EscapedByte(c)
    ensures os.short <==> old(os.short) || |os.data| > os.capacity
  {
    var e := W.EscapeLetter(c);
    if e.Some? {
      os.PutUnsafe(BACKSLASH);
      os.PutUnsafe(e.value);
      if e.value == 0x75 {
        os.PutUnsafe(0x30);
        os.PutUnsafe(0x30);
        os.PutUnsafe(W.HexDigit(c / 16));
        os.PutUnsafe(W.HexDigit(c % 16));
      }
    } else {
      os.PutUnsafe(c);
    }
  }
}
