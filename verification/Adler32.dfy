/** The Adler-32 checksum of section 2.2 of RFC 1950 with the reduction put off for
    5552 bytes, in 32-bit arithmetic. */
module Adler32 {
  import opened Words

  const BASE := 65521
  const NMAX := 5552

  datatype Sums = Sums(s1: nat, s2: nat)

  /** The definition: both sums reduced after every byte. */
  function Checksum(s: Sums, buf: seq<byte>): Sums {
    if buf == [] then s else
      var p := Checksum(s, buf[..|buf| - 1]);
      var s1 := (p.s1 + buf[|buf| - 1]) % BASE;
      Sums(s1, (p.s2 + s1) % BASE)
  }

  /** The same sums without any reduction. */
  function Totals(s: Sums, buf: seq<byte>): Sums {
    if buf == [] then s else
      var p := Totals(s, buf[..|buf| - 1]);
      var s1 := p.s1 + buf[|buf| - 1];
      Sums(s1, p.s2 + s1)
  }

  /** A 32-bit word as two 16-bit sums, and back. */
  function Unpack(adler: nat): Sums {
    Sums(adler % 0x1_0000, adler / 0x1_0000 % 0x1_0000)
  }

  function Pack(s: Sums): nat {
    s.s2 * 0x1_0000 + s.s1
  }

  /** The checksum of a buffer, continuing from a checksum. */
  function Adler(adler: nat, buf: seq<byte>): nat {
    Pack(Checksum(Unpack(adler), buf))
  }

  predicate SixteenBit(s: Sums) {
    s.s1 < 0x1_0000 && s.s2 < 0x1_0000
  }

  lemma {:induction false} ChecksumSixteenBit(s: Sums, buf: seq<byte>)
    requires SixteenBit(s)
    ensures SixteenBit(Checksum(s, buf))
    ensures buf != [] ==> Checksum(s, buf).s1 < BASE && Checksum(s, buf).s2 < BASE
  {
    if buf != [] {
      ChecksumSixteenBit(s, buf[..|buf| - 1]);
    }
  }

  lemma {:induction false} ChecksumSplit(s: Sums, a: seq<byte>, b: seq<byte>)
    ensures Checksum(s, a + b) == Checksum(Checksum(s, a), b)
    decreases |b|
  {
    if b == [] {
      assert a + b == a;
    } else {
      assert (a + b)[..|a + b| - 1] == a + b[..|b| - 1];
      ChecksumSplit(s, a, b[..|b| - 1]);
    }
  }

  /** Chaining the checksum over a split buffer is one pass over the whole. */
  lemma Chaining(adler: nat, a: seq<byte>, b: seq<byte>)
    requires adler < TWO_32
    ensures Adler(Adler(adler, a), b) == Adler(adler, a + b)
  {
    hide Checksum;
    var s := Unpack(adler);
    ChecksumSixteenBit(s, a);
    assert Unpack(Pack(Checksum(s, a))) == Checksum(s, a);
    ChecksumSplit(s, a, b);
  }

  /** Reducing at the end gives what reducing at every byte gives. */
  lemma {:induction false} LateReduction(s: Sums, buf: seq<byte>)
    ensures Totals(s, buf).s1 % BASE == Checksum(s, buf).s1 % BASE
    ensures Totals(s, buf).s2 % BASE == Checksum(s, buf).s2 % BASE
  {
    if buf != [] {
      var init, b := buf[..|buf| - 1], buf[|buf| - 1];
      LateReduction(s, init);
      ReduceLater(Totals(s, init), Checksum(s, init), b);
    }
  }

  lemma ReduceLater(p: Sums, q: Sums, b: byte)
    requires p.s1 % BASE == q.s1 % BASE && p.s2 % BASE == q.s2 % BASE
    ensures (p.s1 + b) % BASE == (q.s1 + b) % BASE % BASE
    ensures (p.s2 + (p.s1 + b)) % BASE == (q.s2 + (q.s1 + b) % BASE) % BASE % BASE
  {
    SameRemainder(p.s1, q.s1, b, b);
    SameRemainder(p.s2, q.s2, p.s1 + b, (q.s1 + b) % BASE);
  }

  lemma SameRemainder(a: nat, b: nat, c: nat, d: nat)
    requires a % BASE == b % BASE && c % BASE == d % BASE
    ensures (a + c) % BASE == (b + d) % BASE
  {
    var k := a / BASE - b / BASE + (c / BASE - d / BASE);
    Multiple(a + c, b + d, k);
  }

  lemma Multiple(x: nat, y: nat, k: int)
    requires x == y + BASE * k
    ensures x % BASE == y % BASE
  {
  }

  /** The sum of the bytes. */
  function Sum(buf: seq<byte>): nat {
    if buf == [] then 0 else buf[0] + Sum(buf[1..])
  }

  /** The sum of the bytes, each times the number of bytes from it to the end. */
  function Weighted(buf: seq<byte>): nat {
    if buf == [] then 0 else |buf| * buf[0] + Weighted(buf[1..])
  }

  lemma {:induction false} SumLast(buf: seq<byte>, b: byte)
    ensures Sum(buf + [b]) == Sum(buf) + b
    ensures Weighted(buf + [b]) == Weighted(buf) + Sum(buf) + b
    decreases |buf|
  {
    if buf == [] {
      assert [b][1..] == [] && buf + [b] == [b];
      assert Weighted([b]) == 1 * b + Weighted([]);
    } else {
      assert (buf + [b])[1..] == buf[1..] + [b];
      SumLast(buf[1..], b);
      assert (|buf| + 1) * buf[0] == |buf| * buf[0] + buf[0];
    }
  }

  lemma {:induction false} TotalsAreSums(s: Sums, buf: seq<byte>)
    ensures Totals(s, buf) == Sums(s.s1 + Sum(buf), s.s2 + |buf| * s.s1 + Weighted(buf))
    decreases |buf|
  {
    if buf != [] {
      var n := |buf| - 1;
      TotalsAreSums(s, buf[..n]);
      SumLast(buf[..n], buf[n]);
      assert buf[..n] + [buf[n]] == buf;
      assert |buf| * s.s1 == n * s.s1 + s.s1;
    }
  }

  /** The checksum of a buffer from its start, as RFC 1950 has it: one and the sum of the bytes
      in the low half, the sum of these sums in the high half, both modulo 65521. */
  lemma {:induction false} ClosedForm(buf: seq<byte>)
    ensures Adler(1, buf) == (|buf| + Weighted(buf)) % 65521 * 0x1_0000 + (1 + Sum(buf)) % 65521
  {
    hide Checksum, Totals, Sum, Weighted;
    var s := Sums(1, 0);
    TotalsAreSums(s, buf);
    LateReduction(s, buf);
    if buf == [] {
      NothingSummed(s);
    } else {
      ChecksumSixteenBit(s, buf);
    }
  }

  lemma {:induction false} NothingSummed(s: Sums)
    ensures Checksum(s, []) == s
    ensures Sum([]) == 0 && Weighted([]) == 0
  {
  }

  /** The sums after `n` bytes stay below these limits. */
  lemma {:induction false} TotalsBound(s: Sums, buf: seq<byte>)
    requires SixteenBit(s)
    ensures Totals(s, buf).s1 <= 65535 + 255 * |buf|
    ensures Totals(s, buf).s2 <= Limit(|buf|)
  {
    if buf != [] {
      TotalsBound(s, buf[..|buf| - 1]);
    }
  }

  function Limit(n: nat): nat {
    if n == 0 then 65535 else Limit(n - 1) + 65535 + 255 * n
  }

  lemma {:induction false} LimitClosed(n: nat)
    ensures 2 * Limit(n) == 2 * 65535 * (n + 1) + 255 * n * (n + 1)
  {
    if n > 0 {
      LimitClosed(n - 1);
    }
  }

  lemma {:induction false} LimitMonotone(m: nat, n: nat)
    requires m <= n
    ensures Limit(m) <= Limit(n)
    decreases n - m
  {
    if m < n {
      LimitMonotone(m + 1, n);
    }
  }

  /** No sum over a chunk leaves 32 bits. */
  lemma {:induction false} NoOverflow(s: Sums, buf: seq<byte>)
    requires SixteenBit(s) && |buf| <= NMAX
    ensures Totals(s, buf).s1 < TWO_32 && Totals(s, buf).s2 < TWO_32
  {
    hide Totals, Limit;
    TotalsBound(s, buf);
    LimitMonotone(|buf|, NMAX);
    LimitClosed(NMAX);
  }

  /** One byte into both sums, in 32-bit arithmetic. */
  method AddByte(s: Sums, b: byte, ghost start: Sums, ghost chunk: seq<byte>) returns (s': Sums)
    requires s == Totals(start, chunk) && SixteenBit(start) && |chunk| < NMAX
    ensures s' == Totals(start, chunk + [b])
  {
    NoOverflow(start, chunk + [b]);
    assert (chunk + [b])[..|chunk|] == chunk;
    var s1 := (s.s1 + b) % TWO_32;
    s' := Sums(s1, (s.s2 + s1) % TWO_32);
  }

  /** The sums over a chunk of at most 5552 bytes: sixteen bytes at a time, then
      single bytes. */
  method AddChunk(start: Sums, chunk: seq<byte>) returns (s: Sums)
    requires SixteenBit(start) && |chunk| <= NMAX
    ensures s == Totals(start, chunk)
  {
    hide Totals;
    s := start;
    var i := 0;
    assert Totals(start, chunk[..0]) == start by { NoTotals(start); }
    while |chunk| - i >= 16
      invariant 0 <= i <= |chunk| && s == Totals(start, chunk[..i])
    {
      var j := 0;
      while j < 16
        invariant 0 <= j <= 16 && i + j <= |chunk| && s == Totals(start, chunk[..i + j])
      {
        s := AddByte(s, chunk[i + j], start, chunk[..i + j]);
        assert chunk[..i + j] + [chunk[i + j]] == chunk[..i + j + 1];
        j := j + 1;
      }
      i := i + 16;
    }
    while i < |chunk|
      invariant 0 <= i <= |chunk| && s == Totals(start, chunk[..i])
    {
      s := AddByte(s, chunk[i], start, chunk[..i]);
      assert chunk[..i] + [chunk[i]] == chunk[..i + 1];
      i := i + 1;
    }
    assert chunk[..|chunk|] == chunk;
  }

  lemma {:induction false} NoTotals(s: Sums)
    ensures Totals(s, []) == s
  {
  }

  /** A chunk into reduced sums, and the reduction after it. */
  method AddReduced(s0: Sums, chunk: seq<byte>, ghost start: Sums, ghost done: seq<byte>) returns (s: Sums)
    requires s0 == Checksum(start, done) && SixteenBit(s0) && 1 <= |chunk| <= NMAX
    ensures s == Checksum(start, done + chunk) && SixteenBit(s)
  {
    hide Checksum, Totals;
    s := AddChunk(s0, chunk);
    LateReduction(s0, chunk);
    ChecksumSixteenBit(s0, chunk);
    ChecksumSplit(start, done, chunk);
    s := Sums(s.s1 % BASE, s.s2 % BASE);
  }

  datatype Buffer = Null | Bytes(data: seq<byte>)

  /** `lzo_adler32`. */
  method LzoAdler32(adler: nat, buffer: Buffer) returns (r: nat)
    requires adler < TWO_32
    ensures buffer.Null? ==> r == 1
    ensures buffer.Bytes? ==> r == Adler(adler, buffer.data) && r < TWO_32
  {
    if buffer.Null? {
      return 1;
    }
    hide Checksum, Totals, Or;
    var buf := buffer.data;
    var s, i := Unpack(adler), 0;
    ghost var start := s;
    assert Checksum(start, buf[..0]) == start by { NoChecksum(start); }
    while i < |buf|
      invariant 0 <= i <= |buf| && s == Checksum(start, buf[..i]) && SixteenBit(s)
    {
      var k := if |buf| - i < NMAX then |buf| - i else NMAX;
      s := AddReduced(s, buf[i..i + k], start, buf[..i]);
      assert buf[..i] + buf[i..i + k] == buf[..i + k];
      i := i + k;
    }
    assert buf[..|buf|] == buf;
    PackIsOr(s);
    return Or(s.s2 * 0x1_0000, s.s1);
  }

  lemma {:induction false} NoChecksum(s: Sums)
    ensures Checksum(s, []) == s
  {
  }

  lemma PackIsOr(s: Sums)
    requires SixteenBit(s)
    ensures Or(s.s2 * 0x1_0000, s.s1) == Pack(s) < TWO_32
  {
    hide Or;
    assert Pow2(16) == 0x1_0000 by {
      assert Pow2(4) == 16;
      assert Pow2(8) == 16 * Pow2(4);
      assert Pow2(12) == 16 * Pow2(8);
      assert Pow2(16) == 16 * Pow2(12);
    }
    OrDisjoint(s.s2, s.s1, 16);
  }
}
