/** How a string is spelled (section 2.5 of RFC 4627), byte by byte: what the readers decode is
    exactly what is spelled in the text. */
module JsonSpelling {
  import opened Words
  import opened JsonText
  import opened JsonString

  // ---------- The spelling

  /** The letters of the short escapes: quotation mark, reverse solidus, solidus, backspace,
      form feed, line feed, carriage return and tab. */
  predicate ShortFor(letter: byte, c: byte) {
    || (letter == 0x22 && c == 0x22)
    || (letter == 0x5C && c == 0x5C)
    || (letter == 0x2F && c == 0x2F)
    || (letter == 0x62 && c == 0x08)
    || (letter == 0x66 && c == 0x0C)
    || (letter == 0x6E && c == 0x0A)
    || (letter == 0x72 && c == 0x0D)
    || (letter == 0x74 && c == 0x09)
  }

  /** A hexadecimal digit, with letters of either case. */
  predicate DigitFor(d: byte, v: nat) {
    || (v <= 9 && d == 0x30 + v)
    || (10 <= v <= 15 && (d == 0x41 + (v - 10) || d == 0x61 + (v - 10)))
  }

  ghost predicate DigitsFor(ds: seq<byte>, v: nat) {
    && |ds| == 4
    && exists a: nat, b: nat, c: nat, d: nat ::
         DigitFor(ds[0], a) && DigitFor(ds[1], b) && DigitFor(ds[2], c) && DigitFor(ds[3], d)
         && v == a * 0x1000 + b * 0x100 + c * 0x10 + d
  }

  /** The six bits of a byte that is not the first. */
  predicate TailFor(b: byte, v: nat) {
    v < 0x40 && b == 0x80 + v
  }

  /** The first byte, above its mark. */
  predicate LeadFor(b: byte, mark: nat, v: nat) {
    b == mark + v
  }

  /** The bytes have the bits of the code point, and are as few as that allows. */
  ghost predicate Encodes(b: seq<byte>, c: nat) {
    || (|b| == 1 && c < 0x80 && b[0] == c)
    || (|b| == 2 && 0x80 <= c < 0x800
        && exists w: nat, x: nat :: LeadFor(b[0], 0xC0, w) && TailFor(b[1], x) && c == w * 0x40 + x)
    || (|b| == 3 && 0x800 <= c < 0x1_0000
        && exists w: nat, x: nat, y: nat ::
             LeadFor(b[0], 0xE0, w) && TailFor(b[1], x) && TailFor(b[2], y) && c == (w * 0x40 + x) * 0x40 + y)
    || (|b| == 4 && 0x1_0000 <= c < 0x11_0000
        && exists w: nat, x: nat, y: nat, z: nat ::
             LeadFor(b[0], 0xF0, w) && TailFor(b[1], x) && TailFor(b[2], y) && TailFor(b[3], z)
             && c == ((w * 0x40 + x) * 0x40 + y) * 0x40 + z)
  }

  /** The text of one character, and its bytes: itself, a short escape, an escape by number that
      is not the first of a pair, or a pair. The second of a pair may stand alone. */
  ghost predicate Spelled(u: seq<byte>, b: seq<byte>) {
    || (|u| == 1 && u[0] >= 0x20 && u[0] != 0x22 && u[0] != 0x5C && b == u)
    || (|u| == 2 && u[0] == 0x5C && |b| == 1 && ShortFor(u[1], b[0]))
    || (|u| == 6 && u[..2] == [0x5C, 0x75]
        && exists c: nat :: DigitsFor(u[2..], c) && !(0xD800 <= c <= 0xDBFF) && Encodes(b, c))
    || (|u| == 12 && u[..2] == [0x5C, 0x75] && u[6..8] == [0x5C, 0x75]
        && exists l: nat, t: nat :: DigitsFor(u[2..6], l) && DigitsFor(u[8..], t)
                          && 0xD800 <= l <= 0xDBFF && 0xDC00 <= t <= 0xDFFF
                          && Encodes(b, 0x1_0000 + (l - 0xD800) * 0x400 + (t - 0xDC00)))
  }

  /** The text spells the bytes, character by character. */
  ghost predicate Spells(text: seq<byte>, bytes: seq<byte>)
    decreases |text|
  {
    (text == [] && bytes == [])
    || exists n, m :: 1 <= n <= |text| && 0 <= m <= |bytes|
                      && Spelled(text[..n], bytes[..m]) && Spells(text[n..], bytes[m..])
  }

  // ---------- Parts

  lemma DigitIsHex(d: byte, v: nat)
    ensures HexValue(d) == Some(v) <==> DigitFor(d, v)
  {
  }

  lemma {:induction false} DigitsAreHex(s: seq<byte>, i: nat, v: nat)
    ensures Hex4(s, i) == Some(v) <==> i + 4 <= |s| && DigitsFor(s[i..i + 4], v)
  {
    hide HexValue, DigitFor, Hex4;
    HexParts(s, i);
    if i + 4 <= |s| {
      var ds := s[i..i + 4];
      assert ds[0] == s[i] && ds[1] == s[i + 1] && ds[2] == s[i + 2] && ds[3] == s[i + 3];
      DigitsHave(ds, v);
    }
  }

  lemma {:induction false} DigitsHave(ds: seq<byte>, v: nat)
    requires |ds| == 4
    ensures var a, b, c, d := HexValue(ds[0]), HexValue(ds[1]), HexValue(ds[2]), HexValue(ds[3]);
            DigitsFor(ds, v) <==>
            && a.Some? && b.Some? && c.Some? && d.Some?
            && v == ((a.value * 16 + b.value) * 16 + c.value) * 16 + d.value
  {
    hide HexValue, DigitFor;
    forall k, w: nat | 0 <= k < 4
      ensures HexValue(ds[k]) == Some(w) <==> DigitFor(ds[k], w)
    {
      DigitIsHex(ds[k], w);
    }
    if DigitsFor(ds, v) {
      var p: nat, q: nat, r: nat, t: nat :|
        DigitFor(ds[0], p) && DigitFor(ds[1], q) && DigitFor(ds[2], r) && DigitFor(ds[3], t)
        && v == p * 0x1000 + q * 0x100 + r * 0x10 + t;
      assert HexValue(ds[0]) == Some(p) && HexValue(ds[1]) == Some(q);
      assert HexValue(ds[2]) == Some(r) && HexValue(ds[3]) == Some(t);
    }
  }

  lemma {:induction false} HexParts(s: seq<byte>, i: nat)
    ensures var a, b, c, d := HexValue(Peek(s, i)), HexValue(Peek(s, i + 1)), HexValue(Peek(s, i + 2)),
                HexValue(Peek(s, i + 3));
            Hex4(s, i) == if a.Some? && b.Some? && c.Some? && d.Some?
                          then Some(((a.value * 16 + b.value) * 16 + c.value) * 16 + d.value) else None
    ensures Hex4(s, i).Some? ==> i + 4 <= |s|
  {
    hide HexValue;
    assert Hex(s, i, 0) == Some(0);
    var a, b, c := HexValue(Peek(s, i)), HexValue(Peek(s, i + 1)), HexValue(Peek(s, i + 2));
    assert Hex(s, i, 1) == a;
    assert Hex(s, i, 2) == if a.Some? && b.Some? then Some(a.value * 16 + b.value) else None;
    assert Hex(s, i, 3) == if a.Some? && b.Some?
        && c.Some? then Some((a.value * 16 + b.value) * 16 + c.value) else None;
  }

  lemma {:induction false} EncodesIsUtf8(b: seq<byte>, c: nat)
    requires c <= 0x10FFFF
    ensures Encodes(b, c) <==> b == Utf8(c)
  {
    hide Encodes, Utf8;
    Utf8Encodes(c);
    if Encodes(b, c) {
      EncodedOnce(b, c);
    }
  }

  lemma {:induction false} Utf8Encodes(c: nat)
    requires c <= 0x10FFFF
    ensures Encodes(Utf8(c), c)
  {
    hide TailFor, Utf8;
    var b, z, y, x := Utf8(c), c % 0x40, c / 0x40 % 0x40, c / 0x40 / 0x40 % 0x40;
    Utf8Parts(c);
    if 0x80 <= c < 0x800 {
      assert LeadFor(b[0], 0xC0, c / 0x40) && TailFor(b[1], z);
    } else if 0x800 <= c < 0x1_0000 {
      assert LeadFor(b[0], 0xE0, c / 0x40 / 0x40) && TailFor(b[1], y) && TailFor(b[2], z);
    } else if c >= 0x1_0000 {
      assert LeadFor(b[0], 0xF0, c / 0x40 / 0x40 / 0x40) && TailFor(b[1], x) && TailFor(b[2], y) && TailFor(b[3], z);
    }
  }

  lemma {:induction false} EncodedOnce(b: seq<byte>, c: nat)
    requires c <= 0x10FFFF && Encodes(b, c)
    ensures b == Utf8(c)
  {
    hide TailFor, Utf8;
    Utf8Parts(c);
    if |b| == 2 {
      var w: nat, x: nat :| LeadFor(b[0], 0xC0, w) && TailFor(b[1], x) && c == w * 0x40 + x;
      TailDigit(w, b[1], x);
      assert b == [b[0], b[1]];
    } else if |b| == 3 {
      var w: nat, x: nat, y: nat :|
        LeadFor(b[0], 0xE0, w) && TailFor(b[1], x) && TailFor(b[2], y) && c == (w * 0x40 + x) * 0x40 + y;
      TailDigit(w * 0x40 + x, b[2], y);
      TailDigit(w, b[1], x);
      assert b == [b[0], b[1], b[2]];
    } else if |b| == 4 {
      FourOnce(b, c);
    }
  }

  lemma {:induction false} FourOnce(b: seq<byte>, c: nat)
    requires |b| == 4 && c <= 0x10FFFF && Encodes(b, c)
    ensures b == Utf8(c)
  {
    hide TailFor, Utf8;
    Utf8Parts(c);
    var w: nat, x: nat, y: nat, z: nat :|
      LeadFor(b[0], 0xF0, w) && TailFor(b[1], x) && TailFor(b[2], y) && TailFor(b[3], z)
      && c == ((w * 0x40 + x) * 0x40 + y) * 0x40 + z;
    TailDigit((w * 0x40 + x) * 0x40 + y, b[3], z);
    TailDigit(w * 0x40 + x, b[2], y);
    TailDigit(w, b[1], x);
    assert b == [b[0], b[1], b[2], b[3]];
  }

  lemma TailDigit(a: nat, b: byte, x: nat)
    requires TailFor(b, x)
    ensures (a * 0x40 + x) / 0x40 == a && (a * 0x40 + x) % 0x40 == x && b == 0x80 + x
  {
  }

  /** The bytes of a code point by its digits of six bits. */
  lemma {:induction false} Utf8Parts(c: nat)
    requires c <= 0x10FFFF
    ensures var b, z, y, x := Utf8(c), c % 0x40, c / 0x40 % 0x40, c / 0x40 / 0x40 % 0x40;
            && b == (if c < 0x80 then [c]
                     else if c < 0x800 then [0xC0 + c / 0x40, 0x80 + z]
                     else if c < 0x1_0000 then [0xE0 + c / 0x40 / 0x40, 0x80 + y, 0x80 + z]
                     else [0xF0 + c / 0x40 / 0x40 / 0x40, 0x80 + x, 0x80 + y, 0x80 + z])
            && TailFor(0x80 + z, z) && TailFor(0x80 + y, y) && TailFor(0x80 + x, x)
            && c == c / 0x40 * 0x40 + z
            && c / 0x40 == c / 0x40 / 0x40 * 0x40 + y
            && c / 0x40 / 0x40 == c / 0x40 / 0x40 / 0x40 * 0x40 + x
  {
    assert c / 0x40 / 0x40 == c / 0x1000 && c / 0x1000 / 0x40 == c / 0x4_0000;
  }

  // ---------- One character

  /** A step of the readers takes a character exactly as it is spelled. */
  lemma {:induction false} UnitIsSpelled(s: seq<byte>, i: nat, next: nat, b: seq<byte>)
    requires i <= |s|
    ensures UnitAt(s, i) == Chunk(next, b) <==> i < next <= |s| && Spelled(s[i..next], b)
  {
    hide Spelled, UnitAt;
    if UnitAt(s, i) == Chunk(next, b) {
      StepIsSpelled(s, i);
    }
    if i < next <= |s| && Spelled(s[i..next], b) {
      SpelledIsStep(s, i, next, b);
    }
  }

  lemma {:induction false} StepIsSpelled(s: seq<byte>, i: nat)
    requires i <= |s| && UnitAt(s, i).Chunk?
    ensures var u := UnitAt(s, i); u.next <= |s| && Spelled(s[i..u.next], u.bytes)
  {
    hide Hex4, Utf8, DigitsFor, Encodes, PairValue;
    var u, c := UnitAt(s, i), s[i];
    var t := s[i..u.next];
    if c == BACKSLASH && SimpleEscape(Peek(s, i + 1)).None? {
      var v := Hex4(s, i + 2).value;
      DigitsAreHex(s, i + 2, v);
      assert t[..2] == [0x5C, 0x75];
      if !IsLead(v) {
        assert t[2..] == s[i + 2..i + 6];
        EncodesIsUtf8(u.bytes, v);
      } else {
        var w := Hex4(s, i + 8).value;
        DigitsAreHex(s, i + 8, w);
        assert t[2..6] == s[i + 2..i + 6] && t[8..] == s[i + 8..i + 12] && t[6..8] == [0x5C, 0x75];
        PairIsNumber(v, w);
        EncodesIsUtf8(u.bytes, PairValue(v, w));
      }
    }
  }

  lemma PairIsNumber(l: nat, t: nat)
    requires IsLead(l) && IsTrail(t)
    ensures PairValue(l, t) == 0x1_0000 + (l - 0xD800) * 0x400 + (t - 0xDC00)
  {
  }

  lemma {:induction false} SpelledIsStep(s: seq<byte>, i: nat, next: nat, b: seq<byte>)
    requires i < next <= |s| && Spelled(s[i..next], b)
    ensures UnitAt(s, i) == Chunk(next, b)
  {
    hide Hex4, Utf8, DigitsFor, Encodes, PairValue;
    var u := s[i..next];
    assert u[0] == s[i] && (|u| > 1 ==> u[1] == s[i + 1]);
    if |u| == 6 {
      EscapeIsStep(s, i, b);
    } else if |u| == 12 {
      PairIsStep(s, i, b);
    } else if |u| == 2 {
      assert b == [b[0]];
    }
  }

  lemma {:induction false} EscapeIsStep(s: seq<byte>, i: nat, b: seq<byte>)
    requires i + 6 <= |s| && Spelled(s[i..i + 6], b)
    ensures UnitAt(s, i) == Chunk(i + 6, b)
  {
    hide Hex4, Utf8, DigitsFor, Encodes, PairValue;
    var u := s[i..i + 6];
    assert u[..2][0] == s[i] && u[..2][1] == s[i + 1] && u[2..] == s[i + 2..i + 6];
    var c: nat :| DigitsFor(u[2..], c) && !(0xD800 <= c <= 0xDBFF) && Encodes(b, c);
    DigitsAreHex(s, i + 2, c);
    FourDigits(s, i + 2);
    EncodesIsUtf8(b, c);
  }

  lemma FourDigits(s: seq<byte>, i: nat)
    ensures Hex4(s, i).Some? ==> Hex4(s, i).value < 0x1_0000
  {
  }

  lemma PartOf(s: seq<byte>, i: nat, n: nat, a: nat, b: nat)
    requires i + n <= |s| && a <= b <= n
    ensures s[i..i + n][a..b] == s[i + a..i + b]
  {
    var t := s[i..i + n];
    forall k | a <= k < b
      ensures t[k] == s[i + k]
    {
    }
  }

  lemma {:induction false} PairIsStep(s: seq<byte>, i: nat, b: seq<byte>)
    requires i + 12 <= |s| && Spelled(s[i..i + 12], b)
    ensures UnitAt(s, i) == Chunk(i + 12, b)
  {
    hide Hex4, Utf8, DigitsFor, Encodes, PairValue;
    var u := s[i..i + 12];
    PartOf(s, i, 12, 0, 2);
    PartOf(s, i, 12, 2, 6);
    PartOf(s, i, 12, 6, 8);
    PartOf(s, i, 12, 8, 12);
    assert u[0..2] == u[..2] && u[8..12] == u[8..];
    assert u[..2][0] == s[i] && u[..2][1] == s[i + 1] && u[6..8][0] == s[i + 6] && u[6..8][1] == s[i + 7];
    var l: nat, t: nat :| DigitsFor(u[2..6], l) && DigitsFor(u[8..], t)
                          && 0xD800 <= l <= 0xDBFF && 0xDC00 <= t <= 0xDFFF
                          && Encodes(b, 0x1_0000 + (l - 0xD800) * 0x400 + (t - 0xDC00));
    DigitsAreHex(s, i + 2, l);
    DigitsAreHex(s, i + 8, t);
    PairIsNumber(l, t);
    EncodesIsUtf8(b, PairValue(l, t));
  }

  // ---------- A string

  /** A string is decoded to some bytes and an end exactly if the text up to a quotation mark
      there spells these bytes; so it is refused exactly if nothing is spelled. */
  lemma {:induction false} DecodeIsSpelled(s: seq<byte>, i: nat, end: nat, bytes: seq<byte>)
    requires i <= |s|
    ensures Decode(s, i) == Decoded(end, bytes) <==>
            i < end <= |s| && s[end - 1] == 0x22 && Spells(s[i..end - 1], bytes)
    decreases |s| - i
  {
    hide Spells, Decode;
    if Decode(s, i) == Decoded(end, bytes) {
      DecodedIsSpelled(s, i);
    }
    if i < end <= |s| && s[end - 1] == 0x22 && Spells(s[i..end - 1], bytes) {
      SpelledIsDecoded(s, i, end, bytes);
    }
  }

  lemma {:induction false} DecodedIsSpelled(s: seq<byte>, i: nat)
    requires i <= |s| && Decode(s, i).Decoded?
    ensures var d := Decode(s, i); s[d.end - 1] == 0x22 && Spells(s[i..d.end - 1], d.bytes)
    decreases |s| - i
  {
    hide Spelled;
    var d, u := Decode(s, i), UnitAt(s, i);
    if u.Closed? {
      CloseIsQuote(s, i);
      assert s[i..i] == [];
    } else {
      hide UnitAt;
      UnitIsSpelled(s, i, u.next, u.bytes);
      DecodedIsSpelled(s, u.next);
      var t, n, m := s[i..d.end - 1], u.next - i, |u.bytes|;
      assert t[..n] == s[i..u.next] && t[n..] == s[u.next..d.end - 1];
      assert d.bytes[..m] == u.bytes && d.bytes[m..] == Decode(s, u.next).bytes;
    }
  }

  lemma CloseIsQuote(s: seq<byte>, i: nat)
    requires i <= |s|
    ensures UnitAt(s, i).Closed? <==> i < |s| && s[i] == 0x22
  {
    hide Hex4;
  }

  lemma {:induction false} SpelledIsDecoded(s: seq<byte>, i: nat, end: nat, bytes: seq<byte>)
    requires i < end <= |s| && s[end - 1] == 0x22 && Spells(s[i..end - 1], bytes)
    ensures Decode(s, i) == Decoded(end, bytes)
    decreases |s| - i
  {
    hide Spelled, UnitAt, Spells;
    var t := s[i..end - 1];
    CloseIsQuote(s, i);
    if t == [] {
      NothingSpelled(t, bytes);
    } else {
      var n, m := FirstSpelled(t, bytes);
      assert t[..n] == s[i..i + n] && t[n..] == s[i + n..end - 1];
      UnitIsSpelled(s, i, i + n, bytes[..m]);
      SpelledIsDecoded(s, i + n, end, bytes[m..]);
      assert bytes[..m] + bytes[m..] == bytes;
    }
  }

  lemma {:induction false} FirstSpelled(t: seq<byte>, bytes: seq<byte>) returns (n: nat, m: nat)
    requires t != [] && Spells(t, bytes)
    ensures 1 <= n <= |t| && m <= |bytes| && Spelled(t[..n], bytes[..m]) && Spells(t[n..], bytes[m..])
  {
    hide Spelled;
    n, m :| 1 <= n <= |t| && 0 <= m <= |bytes| && Spelled(t[..n], bytes[..m]) && Spells(t[n..], bytes[m..]);
  }

  lemma {:induction false} NothingSpelled(t: seq<byte>, bytes: seq<byte>)
    requires t == [] && Spells(t, bytes)
    ensures bytes == []
  {
  }
}
