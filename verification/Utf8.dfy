/** UTF-8 as the library decodes and checks it, against the grammar and the code points
    of RFC 3629. */
module Utf8 {
  import opened Words
  import opened JsonText
  import opened JsonString

  // ---------- The decoder

  /** `GetRange`: 0x10, 0x20 and 0x40 are the three classes of tail bytes. */
  function Range(c: byte): nat {
    if c < 0x80 then 0
    else if c < 0x90 then 0x10
    else if c < 0xA0 then 0x40
    else if c < 0xC0 then 0x20
    else if c < 0xC2 then 8
    else if c < 0xE0 then 2
    else if c == 0xE0 then 10
    else if c == 0xED then 4
    else if c < 0xF0 then 3
    else if c == 0xF0 then 11
    else if c < 0xF4 then 6
    else if c == 0xF4 then 5
    else 8
  }

  /** Two numbers share a bit among the three of the tail classes. */
  predicate Hits(t: nat, mask: nat) {
    || (t / 16 % 2 == 1 && mask / 16 % 2 == 1)
    || (t / 32 % 2 == 1 && mask / 32 % 2 == 1)
    || (t / 64 % 2 == 1 && mask / 64 % 2 == 1)
  }

  /** The masks that the bytes after a leading byte have to hit. */
  function Masks(t: nat): Option<seq<nat>> {
    if t == 2 then Some([0x70])
    else if t == 3 then Some([0x70, 0x70])
    else if t == 4 then Some([0x50, 0x70])
    else if t == 5 then Some([0x10, 0x70, 0x70])
    else if t == 6 then Some([0x70, 0x70, 0x70])
    else if t == 10 then Some([0x20, 0x70])
    else if t == 11 then Some([0x60, 0x70, 0x70])
    else None
  }

  datatype Code = Code(ok: bool, value: nat, next: nat)

  /** Takes one byte for every mask, also after one has missed its mask. */
  function Tails(s: seq<byte>, masks: seq<nat>, d: Code): Code
    decreases |masks|
  {
    if masks == [] then d
    else
      var c := Peek(s, d.next);
      Tails(s, masks[1..], Code(d.ok && Hits(Range(c), masks[0]), d.value * 0x40 + c % 0x40, d.next + 1))
  }

  /** The bits of a leading byte that belong to the code point. */
  function LeadBits(c: byte, t: nat): nat {
    if t >= 8 then 0 else c % Pow2(8 - t)
  }

  /** `Decode`. */
  function Decode(s: seq<byte>, i: nat): Code {
    var c := Peek(s, i);
    if c < 0x80 then Code(true, c, i + 1)
    else
      match Masks(Range(c))
      case None => Code(false, LeadBits(c, Range(c)), i + 1)
      case Some(masks) => Tails(s, masks, Code(true, LeadBits(c, Range(c)), i + 1))
  }

  // ---------- The grammar

  predicate Within(c: byte, low: byte, high: byte) {
    low <= c <= high
  }

  predicate IsTail(c: byte) {
    Within(c, 0x80, 0xBF)
  }

  /** Section 4 of RFC 3629, by the number of bytes. */
  predicate Char(b: seq<byte>) {
    || (|b| == 1 && b[0] <= 0x7F)
    || (|b| == 2 && Within(b[0], 0xC2, 0xDF) && IsTail(b[1]))
    || (|b| == 3 && IsTail(b[2]) && Char3(b[0], b[1]))
    || (|b| == 4 && IsTail(b[2]) && IsTail(b[3]) && Char4(b[0], b[1]))
  }

  predicate Char3(x: byte, y: byte) {
    || (x == 0xE0 && Within(y, 0xA0, 0xBF))
    || (Within(x, 0xE1, 0xEC) && IsTail(y))
    || (x == 0xED && Within(y, 0x80, 0x9F))
    || (Within(x, 0xEE, 0xEF) && IsTail(y))
  }

  predicate Char4(x: byte, y: byte) {
    || (x == 0xF0 && Within(y, 0x90, 0xBF))
    || (Within(x, 0xF1, 0xF3) && IsTail(y))
    || (x == 0xF4 && Within(y, 0x80, 0x8F))
  }

  /** The text from `i` starts with a character of `n` bytes. */
  predicate CharAt(s: seq<byte>, i: nat, n: nat) {
    i + n <= |s| && Char(s[i..i + n])
  }

  /** From `i` on the text is a sequence of characters. */
  predicate WellFormed(s: seq<byte>, i: nat)
    decreases |s| - i
  {
    i == |s| || exists n :: 1 <= n <= 4 && CharAt(s, i, n) && WellFormed(s, i + n)
  }

  /** From `i` on there are characters up to a place not before `n`. */
  predicate Reaches(s: seq<byte>, n: nat, i: nat)
    decreases |s| - i
  {
    i >= n || exists k :: 1 <= k <= 4 && CharAt(s, i, k) && Reaches(s, n, i + k)
  }

  /** The code points that UTF-8 encodes: all but the surrogates. */
  predicate Scalar(c: nat) {
    c <= 0x10FFFF && !(0xD800 <= c <= 0xDFFF)
  }

  // ---------- The decoder follows the grammar

  lemma MasksHit(c: byte)
    ensures Hits(Range(c), 0x70) <==> IsTail(c)
    ensures Hits(Range(c), 0x50) <==> Within(c, 0x80, 0x9F)
    ensures Hits(Range(c), 0x10) <==> Within(c, 0x80, 0x8F)
    ensures Hits(Range(c), 0x20) <==> Within(c, 0xA0, 0xBF)
    ensures Hits(Range(c), 0x60) <==> Within(c, 0x90, 0xBF)
  {
  }

  lemma {:induction false} Tails1(s: seq<byte>, m: nat, d: Code)
    ensures var x := Peek(s, d.next);
            Tails(s, [m], d) == Code(d.ok && Hits(Range(x), m), d.value * 0x40 + x % 0x40, d.next + 1)
  {
    hide Hits, Range;
    assert [m][1..] == [];
  }

  lemma {:induction false} Tails2(s: seq<byte>, m: nat, d: Code)
    ensures var x, y := Peek(s, d.next), Peek(s, d.next + 1);
            Tails(s, [m, 0x70], d)
            == Code(d.ok && Hits(Range(x), m) && IsTail(y), (d.value * 0x40 + x % 0x40) * 0x40 + y % 0x40, d.next + 2)
  {
    hide Hits, Range;
    assert [m, 0x70][1..] == [0x70];
    var x := Peek(s, d.next);
    Tails1(s, 0x70, Code(d.ok && Hits(Range(x), m), d.value * 0x40 + x % 0x40, d.next + 1));
    MasksHit(Peek(s, d.next + 1));
  }

  lemma {:induction false} Tails3(s: seq<byte>, m: nat, d: Code)
    ensures var x, y, z := Peek(s, d.next), Peek(s, d.next + 1), Peek(s, d.next + 2);
            Tails(s, [m, 0x70, 0x70], d)
            == Code(d.ok && Hits(Range(x), m) && IsTail(y) && IsTail(z),
                    ((d.value * 0x40 + x % 0x40) * 0x40 + y % 0x40) * 0x40 + z % 0x40, d.next + 3)
  {
    hide Hits, Range;
    assert [m, 0x70, 0x70][1..] == [0x70, 0x70];
    var x := Peek(s, d.next);
    Tails2(s, 0x70, Code(d.ok && Hits(Range(x), m), d.value * 0x40 + x % 0x40, d.next + 1));
    MasksHit(Peek(s, d.next + 1));
  }

  /** What the decoder finds at a place, by the leading byte. */
  lemma {:induction false} DecodeParts(s: seq<byte>, i: nat)
    ensures var d, a, x, y, z := Decode(s, i), Peek(s, i), Peek(s, i + 1), Peek(s, i + 2), Peek(s, i + 3);
            && (a < 0x80 ==> d == Code(true, a, i + 1))
            && (Within(a, 0xC2, 0xDF) ==> d == Code(IsTail(x), Join2(a - 0xC0, x), i + 2))
            && (Within(a, 0xE0, 0xEF) ==> d == Code(Char3(a, x) && IsTail(y), Join3(a - 0xE0, x, y), i + 3))
            && (Within(a, 0xF0, 0xF4) ==>
                  d == Code(Char4(a, x) && IsTail(y) && IsTail(z), Join4(a - 0xF0, x, y, z), i + 4))
            && (d.ok ==> a < 0x80 || Within(a, 0xC2, 0xF4))
  {
    hide Hits, Tails, LeadBits;
    var a, x := Peek(s, i), Peek(s, i + 1);
    LeadBitsAre(a);
    MasksHit(x);
    var d := Code(true, LeadBits(a, Range(a)), i + 1);
    Tails1(s, 0x70, d);
    Tails2(s, 0x70, d);
    Tails2(s, 0x50, d);
    Tails2(s, 0x20, d);
    Tails3(s, 0x70, d);
    Tails3(s, 0x10, d);
    Tails3(s, 0x60, d);
  }

  function Join2(v: nat, x: byte): nat {
    v * 0x40 + x % 0x40
  }

  function Join3(v: nat, x: byte, y: byte): nat {
    Join2(Join2(v, x), y)
  }

  function Join4(v: nat, x: byte, y: byte, z: byte): nat {
    Join2(Join3(v, x, y), z)
  }

  lemma {:induction false} LeadBitsAre(a: byte)
    ensures Within(a, 0xC2, 0xDF) ==> LeadBits(a, Range(a)) == a - 0xC0
    ensures Within(a, 0xE0, 0xEF) ==> LeadBits(a, Range(a)) == a - 0xE0
    ensures Within(a, 0xF0, 0xF4) ==> LeadBits(a, Range(a)) == a - 0xF0
  {
    hide Pow2;
    SmallPowers();
  }

  lemma {:induction false} SmallPowers()
    ensures Pow2(2) == 4 && Pow2(3) == 8 && Pow2(4) == 16 && Pow2(5) == 32 && Pow2(6) == 64
  {
  }

  // ---------- Encoding undoes decoding

  lemma JoinParts(v: nat, x: byte)
    requires IsTail(x)
    ensures Join2(v, x) / 0x40 == v && 0x80 + Join2(v, x) % 0x40 == x
  {
  }

  lemma DivideTwice(c: nat)
    ensures c / 0x1000 == c / 0x40 / 0x40 && c / 0x4_0000 == c / 0x40 / 0x40 / 0x40
  {
  }

  lemma Encode2(v: nat, x: byte)
    requires 2 <= v <= 0x1F && IsTail(x)
    ensures var c := Join2(v, x); Scalar(c) && Utf8(c) == [0xC0 + v, x]
  {
    JoinParts(v, x);
  }

  lemma Encode3(v: nat, x: byte, y: byte)
    requires v <= 0xF && IsTail(x) && IsTail(y) && Char3(0xE0 + v, x)
    ensures var c := Join3(v, x, y); Scalar(c) && Utf8(c) == [0xE0 + v, x, y]
  {
    var b := Join2(v, x);
    var c := Join2(b, y);
    assert 0x20 <= b < 0x400 && !(0x360 <= b < 0x380);
    assert 0x40 * b <= c < 0x40 * b + 0x40;
    hide Join2, Char3;
    JoinParts(v, x);
    JoinParts(b, y);
    DivideTwice(c);
  }

  lemma Encode4(v: nat, x: byte, y: byte, z: byte)
    requires v <= 4 && IsTail(x) && IsTail(y) && IsTail(z) && Char4(0xF0 + v, x)
    ensures var c := Join4(v, x, y, z); Scalar(c) && Utf8(c) == [0xF0 + v, x, y, z]
  {
    var a := Join2(v, x);
    var b := Join2(a, y);
    var c := Join2(b, z);
    assert 0x10 <= a < 0x110;
    assert 0x40 * a <= b < 0x40 * a + 0x40;
    assert 0x40 * b <= c < 0x40 * b + 0x40;
    hide Join2, Char4;
    JoinParts(v, x);
    JoinParts(a, y);
    JoinParts(b, z);
    DivideTwice(c);
  }

  lemma {:induction false} CharAtBytes(s: seq<byte>, i: nat, n: nat)
    ensures var a, x, y, z := Peek(s, i), Peek(s, i + 1), Peek(s, i + 2), Peek(s, i + 3);
            CharAt(s, i, n) <==>
            && i < |s|
            && (|| (n == 1 && a < 0x80)
                || (n == 2 && Within(a, 0xC2, 0xDF) && IsTail(x))
                || (n == 3 && Char3(a, x) && IsTail(y))
                || (n == 4 && Char4(a, x) && IsTail(y) && IsTail(z)))
  {
    hide Char3, Char4;
    if i + n <= |s| {
      var b := s[i..i + n];
      assert forall k :: 0 <= k < n ==> b[k] == s[i + k];
    }
    NoLeadIsZero(Peek(s, i), Peek(s, i + 1));
  }

  lemma NoLeadIsZero(a: byte, x: byte)
    ensures Char3(a, x) ==> a > 0 && x > 0
    ensures Char4(a, x) ==> a > 0 && x > 0
  {
  }

  /** The decoder accepts exactly the characters of the grammar, takes just their bytes,
      and gives the code point of which they are the encoding. */
  lemma {:induction false} DecodeFollowsGrammar(s: seq<byte>, i: nat)
    requires i < |s|
    ensures var d := Decode(s, i);
            && (d.ok ==> d.next > i && CharAt(s, i, d.next - i) && Scalar(d.value) && Utf8(d.value) == s[i..d.next])
            && (forall n :: CharAt(s, i, n) ==> d.ok && d.next == i + n)
  {
    hide Decode, CharAt, Char3, Char4, Join2, Join3, Join4;
    var d, a := Decode(s, i), Peek(s, i);
    DecodeParts(s, i);
    forall n
      ensures CharAt(s, i, n) ==> d.ok && d.next == i + n
    {
      if n >= 0 {
        CharAtBytes(s, i, n);
        LeadsDiffer(a, Peek(s, i + 1));
      }
    }
    if d.ok {
      CharAtBytes(s, i, d.next - i);
      LeadsDiffer(a, Peek(s, i + 1));
      DecodedBytes(s, i);
    }
  }

  // ---------- Characters up to a place that need not be the end of one

  /** The first place not before `n` that decoding from `i` on comes to. */
  function Reached(s: seq<byte>, n: nat, i: nat): (r: Option<nat>)
    requires i <= |s| && n <= |s|
    ensures r.Some? ==> i <= r.value <= |s| && n <= r.value
    decreases |s| - i
  {
    if i >= n then Some(i)
    else
      DecodeFollowsGrammar(s, i);
      var d := Decode(s, i);
      if d.ok then Reached(s, n, d.next) else None
  }

  lemma {:induction false} DecodeIsChar(s: seq<byte>, i: nat)
    requires i < |s|
    ensures var d := Decode(s, i);
            && (d.ok ==> i < d.next <= i + 4 && d.next <= |s| && CharAt(s, i, d.next - i))
            && (forall n: nat :: CharAt(s, i, n) ==> d.ok && d.next == i + n)
  {
    hide Decode;
    DecodeFollowsGrammar(s, i);
    var d := Decode(s, i);
    if d.ok {
      CharAtBytes(s, i, d.next - i);
    }
  }

  lemma {:induction false} ReachedIffReaches(s: seq<byte>, n: nat, i: nat)
    requires i <= |s| && n <= |s|
    ensures Reached(s, n, i).Some? <==> Reaches(s, n, i)
    decreases |s| - i
  {
    hide CharAt, Decode;
    if i < n {
      DecodeIsChar(s, i);
      var d := Decode(s, i);
      if d.ok {
        ReachedIffReaches(s, n, d.next);
        var k := d.next - i;
        assert Reaches(s, n, i) <==> Reaches(s, n, i + k);
      }
    }
  }

  lemma CharBelow(s: seq<byte>, n: nat, i: nat, k: nat)
    requires n <= |s|
    ensures CharAt(s[..n], i, k) <==> i + k <= n && CharAt(s, i, k)
  {
    hide Char;
    if i + k <= n {
      assert s[..n][i..i + k] == s[i..i + k];
    }
  }

  /** The place reached is `n` exactly if what lies before it is made of characters, and
      otherwise at most three bytes behind. */
  lemma {:induction false} ReachedStops(s: seq<byte>, n: nat, i: nat)
    requires i <= n <= |s|
    ensures WellFormed(s[..n], i) <==> Reached(s, n, i) == Some(n)
    ensures Reached(s, n, i).Some? ==> Reached(s, n, i).value <= n + 3
    decreases |s| - i
  {
    hide CharAt, Decode;
    if i < n {
      DecodeIsChar(s, i);
      forall k: nat
        ensures CharAt(s[..n], i, k) <==> i + k <= n && CharAt(s, i, k)
      {
        CharBelow(s, n, i, k);
      }
      var d := Decode(s, i);
      if d.ok && d.next <= n {
        ReachedStops(s, n, d.next);
        var k := d.next - i;
        assert WellFormed(s[..n], i) <==> WellFormed(s[..n], i + k);
      }
    }
  }

  /** A text that is made of characters as a whole has characters up to any place in it. */
  lemma {:induction false} WellFormedReaches(s: seq<byte>, n: nat, i: nat)
    requires i <= |s| && n <= |s| && WellFormed(s, i)
    ensures Reaches(s, n, i)
    decreases |s| - i
  {
    hide CharAt;
    if i < n {
      var k :| 1 <= k <= 4 && CharAt(s, i, k) && WellFormed(s, i + k);
      assert i + k <= |s| by { CharAtBytes(s, i, k); }
      WellFormedReaches(s, n, i + k);
    }
  }

  lemma LeadsDiffer(a: byte, x: byte)
    ensures Char3(a, x) ==> Within(a, 0xE0, 0xEF) && IsTail(x)
    ensures Char4(a, x) ==> Within(a, 0xF0, 0xF4) && IsTail(x)
  {
  }

  lemma {:induction false} DecodedBytes(s: seq<byte>, i: nat)
    requires i < |s| && Decode(s, i).ok && i < Decode(s, i).next <= |s|
    ensures var d := Decode(s, i); Scalar(d.value) && Utf8(d.value) == s[i..d.next]
  {
    hide Decode, Char3, Char4, Join2, Join3, Join4, Utf8;
    DecodeParts(s, i);
    var a, x, y, z := Peek(s, i), Peek(s, i + 1), Peek(s, i + 2), Peek(s, i + 3);
    LeadsDiffer(a, x);
    if a < 0x80 {
      assert Utf8(a) == [a] by { Encode1(a); }
    } else if a < 0xE0 {
      Encode2(a - 0xC0, x);
    } else if a < 0xF0 {
      Encode3(a - 0xE0, x, y);
    } else {
      Encode4(a - 0xF0, x, y, z);
    }
  }

  lemma Encode1(c: byte)
    requires c < 0x80
    ensures Utf8(c) == [c]
  {
  }

  /** Every code point but the surrogates is encoded as a character of the grammar, and
      the decoder gives it back wherever its encoding occurs. */
  lemma {:induction false} DecodeUndoesEncode(s: seq<byte>, i: nat, c: nat)
    requires Scalar(c) && Occurs(s, i, Utf8(c))
    ensures Char(Utf8(c)) && Decode(s, i) == Code(true, c, i + |Utf8(c)|)
  {
    hide Decode, Char, Utf8, Decode;
    var b := Utf8(c);
    EncodeIsChar(c);
    assert s[i..i + |b|] == b;
    assert CharAt(s, i, |b|);
    DecodeFollowsGrammar(s, i);
    EncodeInjective(c, Decode(s, i).value);
  }

  lemma EncodeIsChar(c: nat)
    requires Scalar(c)
    ensures Char(Utf8(c))
  {
  }

  /** The code point of an encoding. */
  function PointOf(b: seq<byte>): int
    requires 1 <= |b| <= 4
  {
    if |b| == 1 then b[0]
    else if |b| == 2 then JoinInt((b[0] as int) - 0xC0, b[1])
    else if |b| == 3 then JoinInt(JoinInt((b[0] as int) - 0xE0, b[1]), b[2])
    else JoinInt(JoinInt(JoinInt((b[0] as int) - 0xF0, b[1]), b[2]), b[3])
  }

  function JoinInt(v: int, x: byte): int {
    v * 0x40 + x - 0x80
  }

  lemma JoinBack(c: nat)
    ensures JoinInt(c / 0x40, 0x80 + c % 0x40) == c
  {
  }

  lemma PointOfEncode(c: nat)
    requires c <= 0x10FFFF
    ensures PointOf(Utf8(c)) == c
  {
    hide JoinInt;
    JoinBack(c);
    JoinBack(c / 0x40);
    JoinBack(c / 0x40 / 0x40);
    DivideTwice(c);
  }

  lemma EncodeInjective(c: nat, d: nat)
    requires c <= 0x10FFFF && d <= 0x10FFFF && Utf8(c) == Utf8(d)
    ensures c == d
  {
    hide Utf8, PointOf;
    PointOfEncode(c);
    PointOfEncode(d);
  }
}
