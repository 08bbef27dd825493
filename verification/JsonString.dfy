/** The strings of JSON (section 2.5 of RFC 4627): escapes decoded to UTF-8, by the
    reader with a stack of its own and by the one that writes into the text it reads. */
module JsonString {
  import opened Words
  import opened JsonText
  import L = JsonLengths

  const LOWER_U: byte := 0x75

  // ---------- What an escape stands for

  function HexValue(c: byte): (r: Option<nat>)
    ensures r.Some? ==> r.value < 16
  {
    if 0x30 <= c <= 0x39 then Some((c as int) - 0x30)
    else if 0x41 <= c <= 0x46 then Some((c as int) - 0x41 + 10)
    else if 0x61 <= c <= 0x66 then Some((c as int) - 0x61 + 10)
    else None
  }

  function Pow16(k: nat): nat {
    if k == 0 then 1 else 16 * Pow16(k - 1)
  }

  /** The value of `k` hexadecimal digits at `i`. */
  function Hex(s: seq<byte>, i: nat, k: nat): (r: Option<nat>)
    ensures r.Some? ==> r.value < Pow16(k) && (k > 0 ==> i + k <= |s|)
  {
    if k == 0 then Some(0)
    else
      var r, h := Hex(s, i, k - 1), HexValue(Peek(s, i + k - 1));
      if r.Some? && h.Some? then Some(r.value * 16 + h.value) else None
  }

  /** Four hexadecimal digits at `i`. */
  function Hex4(s: seq<byte>, i: nat): (r: Option<nat>)
    ensures r.Some? ==> r.value < 0x1_0000 && i + 4 <= |s|
  {
    assert Pow16(4) == 0x1_0000;
    Hex(s, i, 4)
  }

  /** The UTF-8 form of a code point (section 3 of RFC 3629). */
  function Utf8(c: nat): (b: seq<byte>)
    requires c <= 0x10FFFF
    ensures 1 <= |b| <= 4 && (c <= 0xFFFF ==> |b| <= 3)
  {
    if c <= 0x7F then [c]
    else if c <= 0x7FF then [0xC0 + c / 0x40, 0x80 + c % 0x40]
    else if c <= 0xFFFF then [0xE0 + c / 0x1000, 0x80 + c / 0x40 % 0x40, 0x80 + c % 0x40]
    else [0xF0 + c / 0x4_0000, 0x80 + c / 0x1000 % 0x40, 0x80 + c / 0x40 % 0x40, 0x80 + c % 0x40]
  }

  /** What an escape of one letter stands for. */
  function SimpleEscape(e: byte): Option<byte> {
    if e == QUOTE || e == SLASH || e == BACKSLASH then Some(e)
    else if e == 0x62 then Some(0x08)
    else if e == 0x66 then Some(0x0C)
    else if e == 0x6E then Some(0x0A)
    else if e == 0x72 then Some(0x0D)
    else if e == 0x74 then Some(0x09)
    else None
  }

  predicate IsLead(c: nat) {
    0xD800 <= c <= 0xDBFF
  }

  predicate IsTrail(c: nat) {
    0xDC00 <= c <= 0xDFFF
  }

  /** The code point of a surrogate pair. */
  function PairValue(lead: nat, trail: nat): (c: nat)
    requires IsLead(lead) && IsTrail(trail)
    ensures 0x1_0000 <= c <= 0x10FFFF
  {
    (lead - 0xD800) * 0x400 + (trail - 0xDC00) + 0x1_0000
  }

  /** One step through a string: its end, an error, or some bytes for part of the text. */
  datatype Unit = Closed | Failed | Chunk(next: nat, bytes: seq<byte>)

  function UnicodeEscape(s: seq<byte>, i: nat): (u: Unit)
    requires i < |s|
    ensures u.Chunk? ==> i + |u.bytes| < u.next <= |s|
  {
    match Hex4(s, i + 2)
    case None => Failed
    case Some(c) =>
      if !IsLead(c) then Chunk(i + 6, Utf8(c))
      else if Peek(s, i + 6) != BACKSLASH || Peek(s, i + 7) != LOWER_U then Failed
      else
        match Hex4(s, i + 8)
        case None => Failed
        case Some(c2) => if IsTrail(c2) then Chunk(i + 12, Utf8(PairValue(c, c2))) else Failed
  }

  /** The step at `i`. What is read is never shorter than what it stands for. */
  function UnitAt(s: seq<byte>, i: nat): (u: Unit)
    requires i <= |s|
    ensures u.Chunk? ==> i + |u.bytes| <= u.next <= |s| && i < u.next
    ensures u.Closed? ==> i < |s|
  {
    var c := Peek(s, i);
    if c == BACKSLASH then
      var e := Peek(s, i + 1);
      if SimpleEscape(e).Some? then Chunk(i + 2, [SimpleEscape(e).value])
      else if e == LOWER_U then UnicodeEscape(s, i)
      else Failed
    else if c == QUOTE then Closed
    else if c < 0x20 then Failed
    else Chunk(i + 1, [c])
  }

  datatype Decoded = Decoded(end: nat, bytes: seq<byte>) | Malformed

  function Before(bytes: seq<byte>, d: Decoded): Decoded {
    if d.Decoded? then Decoded(d.end, bytes + d.bytes) else Malformed
  }

  /** The string whose text starts at `i`, after its opening quote. */
  function Decode(s: seq<byte>, i: nat): (d: Decoded)
    requires i <= |s|
    ensures d.Decoded? ==> i + |d.bytes| < d.end <= |s|
    decreases |s| - i
  {
    match UnitAt(s, i)
    case Closed => Decoded(i + 1, [])
    case Failed => Malformed
    case Chunk(next, bytes) => Before(bytes, Decode(s, next))
  }

  // ---------- The reader's steps

  method ParseHex4(s: seq<byte>, i: nat) returns (r: Option<nat>)
    ensures r == Hex4(s, i)
  {
    var codepoint, k := 0, 0;
    while k < 4
      invariant 0 <= k <= 4 && Hex(s, i, k) == Some(codepoint)
    {
      var h := HexValue(Peek(s, i + k));
      if h.None? {
        HexStops(s, i, k + 1, 4);
        return None;
      }
      codepoint := codepoint * 16 + h.value;
      k := k + 1;
    }
    return Some(codepoint);
  }

  lemma {:induction false} HexStops(s: seq<byte>, i: nat, k: nat, n: nat)
    requires k <= n && Hex(s, i, k).None?
    ensures Hex(s, i, n).None?
    decreases n
  {
    if k < n {
      HexStops(s, i, k, n - 1);
    }
  }

  /** One turn of the loop over a string. */
  method ParseUnit(s: seq<byte>, i: nat) returns (u: Unit)
    requires i <= |s|
    ensures u == UnitAt(s, i)
  {
    hide Hex, Utf8;
    var c := Peek(s, i);
    if c == BACKSLASH {
      var e := Peek(s, i + 1);
      var simple := SimpleEscape(e);
      if simple.Some? {
        return Chunk(i + 2, [simple.value]);
      }
      if e != LOWER_U {
        return Failed;
      }
      var h := ParseHex4(s, i + 2);
      if h.None? {
        return Failed;
      }
      var codepoint, next := h.value, i + 6;
      if 0xD800 <= codepoint <= 0xDBFF {
        if Peek(s, next) != BACKSLASH || Peek(s, next + 1) != LOWER_U {
          return Failed;
        }
        h := ParseHex4(s, next + 2);
        if h.None? || h.value < 0xDC00 || h.value > 0xDFFF {
          return Failed;
        }
        codepoint := PairValue(codepoint, h.value);
        next := next + 6;
      }
      return Chunk(next, Utf8(codepoint));
    }
    if c == QUOTE {
      return Closed;
    }
    if c < 0x20 {
      return Failed;
    }
    return Chunk(i + 1, [c]);
  }

  /** What the reader takes off its stack: a string, and how many bytes of it are left there;
      nothing, if its counter says so; or nothing, if the string is malformed. */
  datatype OnStack = Taken(end: nat, bytes: seq<byte>, left: nat) | Beyond(end: nat) | NoString

  /** What is taken of a string, by its decoded bytes. */
  function TakenOf(d: Decoded): OnStack {
    match d
    case Malformed => NoString
    case Decoded(end, bytes) =>
      if L.LengthOk(false, bytes) then Taken(end, L.Handed(bytes), L.LeftOver(bytes)) else Beyond(end)
  }

  /** A string decoded onto the reader's stack through a `StackStream`, whose counter has 32
      bits, and taken off again. */
  method ParseToStack(s: seq<byte>, i0: nat) returns (r: OnStack)
    requires i0 <= |s|
    ensures r == TakenOf(Decode(s, i0))
  {
    hide UnitAt;
    var i: nat, stack: seq<byte>, length: nat := i0, [], 0;
    while true
      invariant i <= |s| && Before(stack, Decode(s, i)) == Decode(s, i0) && length == |stack| % TWO_32
      decreases |s| - i
    {
      var u := ParseUnit(s, i);
      match u {
        case Closed =>
          assert stack + [] == stack;
          return PopString(i + 1, stack, length);
        case Failed =>
          return NoString;
        case Chunk(next, bytes) =>
          BeforeTwice(stack, bytes, Decode(s, next));
          CountMore(|stack|, |bytes|);
          i, stack, length := next, stack + bytes, (length + |bytes|) % TWO_32;
      }
    }
  }

  lemma CountMore(a: nat, b: nat)
    ensures (a % TWO_32 + b) % TWO_32 == (a + b) % TWO_32
  {
  }

  /** The zero byte after a string, and then as many bytes off the stack as were counted. The
      handler is given their start and a length of one less, in 32 bits. */
  function PopString(end: nat, stack: seq<byte>, length: nat): (r: OnStack)
    requires length == |stack| % TWO_32
    ensures r == TakenOf(Decoded(end, stack))
  {
    var all := stack + [NUL];
    var count := (length + 1) % TWO_32;
    CountMore(|stack|, 1);
    if count == 0 then Beyond(end)
    else
      var start := |all| - count;
      var given := all[start..start + (count - 1)];
      assert given == L.Handed(stack);
      Taken(end, given, start)
  }

  lemma BeforeTwice(a: seq<byte>, b: seq<byte>, d: Decoded)
    ensures Before(a, Before(b, d)) == Before(a + b, d)
  {
    if d.Decoded? {
      assert a + (b + d.bytes) == a + b + d.bytes;
    }
  }

  // ---------- Decoding in place

  /** A step depends only on the text that is still unread. */
  lemma UnitAtUnread(s: seq<byte>, t: seq<byte>, i: nat)
    requires |s| == |t| && i <= |s| && s[i..] == t[i..]
    ensures UnitAt(s, i) == UnitAt(t, i)
  {
    hide Utf8;
    forall k: nat | i <= k
      ensures Peek(s, k) == Peek(t, k)
    {
      if k < |s| {
        assert s[k] == s[i..][k - i] && t[k] == t[i..][k - i];
      }
    }
    HexUnread(s, t, i + 2, 4);
    HexUnread(s, t, i + 8, 4);
  }

  lemma {:induction false} HexUnread(s: seq<byte>, t: seq<byte>, i: nat, k: nat)
    requires forall j: nat :: i <= j ==> Peek(s, j) == Peek(t, j)
    ensures Hex(s, i, k) == Hex(t, i, k)
    decreases k
  {
    if k > 0 {
      HexUnread(s, t, i, k - 1);
    }
  }

  lemma {:induction false} DecodeUnread(s: seq<byte>, t: seq<byte>, i: nat)
    requires |s| == |t| && i <= |s| && s[i..] == t[i..]
    ensures Decode(s, i) == Decode(t, i)
    decreases |s| - i
  {
    hide UnitAt;
    UnitAtUnread(s, t, i);
    match UnitAt(s, i)
    case Chunk(next, bytes) =>
      assert s[next..] == s[i..][next - i..] && t[next..] == t[i..][next - i..];
      DecodeUnread(s, t, next);
    case _ =>
  }

  /** A string decoded into the buffer it is read from. The write cursor never passes
      the read cursor: what lies beyond the string is left as it was, the decoded bytes
      and a zero byte stand where the string began. */
  method ParseInsitu(buf: array<byte>, head: nat) returns (ok: bool, src: nat, length: nat)
    requires head <= buf.Length
    modifies buf
    ensures ok <==> Decode(old(buf[..]), head).Decoded?
    ensures forall k :: 0 <= k < head ==> buf[k] == old(buf[k])
    ensures head <= src <= buf.Length && forall k :: src <= k < buf.Length ==> buf[k] == old(buf[k])
    ensures ok ==> src == Decode(old(buf[..]), head).end && head + length < src
    ensures ok ==> buf[head..head + length] == Decode(old(buf[..]), head).bytes && buf[head + length] == NUL
  {
    hide UnitAt;
    ghost var s := buf[..];
    src := head;
    var dst := head;
    while true
      invariant head <= dst <= src <= buf.Length
      invariant forall k :: 0 <= k < head ==> buf[k] == s[k]
      invariant forall k :: src <= k < buf.Length ==> buf[k] == s[k]
      invariant Before(buf[head..dst], Decode(s, src)) == Decode(s, head)
      decreases buf.Length - src
    {
      var u := ParseUnit(buf[..], src);
      assert buf[..][src..] == s[src..];
      UnitAtUnread(buf[..], s, src);
      match u {
        case Closed =>
          src := src + 1;
          ghost var text := buf[head..dst];
          assert text + [] == text;
          buf[dst] := NUL;
          assert buf[head..dst] == text;
          return true, src, dst - head;
        case Failed =>
          return false, src, 0;
        case Chunk(next, bytes) =>
          ghost var text := buf[head..dst];
          BeforeTwice(text, bytes, Decode(s, next));
          forall k | 0 <= k < |bytes| {
            buf[dst + k] := bytes[k];
          }
          src, dst := next, dst + |bytes|;
          assert buf[head..dst] == text + bytes;
      }
    }
  }
}
