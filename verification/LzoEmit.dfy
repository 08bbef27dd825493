/** Writing instructions into the output buffer of the compressor. */
module LzoEmit {
  import opened Words
  import opened LzoFormat
  import opened LzoCopy

  /** The size of a length in bytes. */
  lemma {:induction false} LengthBytesSize(n: nat)
    requires n >= 1
    ensures |LengthBytes(n)| == 1 + (n - 1) / 255
    decreases n
  {
    if n > 255 {
      LengthBytesSize(n - 255);
    }
  }

  method Put(dst: array<byte>, op: nat, b: byte) returns (op': nat)
    requires op < dst.Length
    modifies dst
    ensures op' == op + 1 && dst[..op'] == old(dst[..op]) + [b]
  {
    dst[op] := b;
    op' := op + 1;
    assert dst[..op] == old(dst[..op]);
  }

  /** The loop that writes a length: zero bytes while it is above 255, then the rest. */
  method PutLength(dst: array<byte>, op0: nat, n: nat) returns (op: nat)
    requires n >= 1 && op0 + |LengthBytes(n)| <= dst.Length
    modifies dst
    ensures op == op0 + |LengthBytes(n)| && dst[..op] == old(dst[..op0]) + LengthBytes(n)
  {
    op := op0;
    var tt := n;
    ghost var start := dst[..op0];
    ghost var goal := start + LengthBytes(n);
    assert dst[..op] + LengthBytes(tt) == goal;
    while tt > 255
      invariant tt >= 1 && op + |LengthBytes(tt)| == op0 + |LengthBytes(n)|
      invariant op <= dst.Length && dst[..op] + LengthBytes(tt) == goal
    {
      assert LengthBytes(tt) == [0] + LengthBytes(tt - 255);
      ghost var was := dst[..op];
      op := Put(dst, op, 0);
      tt := tt - 255;
      assert was + ([0] + LengthBytes(tt)) == dst[..op] + LengthBytes(tt);
    }
    op := Put(dst, op, Low8(tt));
  }

  method PutHead(dst: array<byte>, op0: nat, marker: byte, max: nat, len: nat) returns (op: nat)
    requires 3 <= len && 3 <= max && marker + max < 256
    requires len <= max ==> Or(marker, len - 2) == marker + (len - 2)
    requires op0 + |Head(marker, max, len)| <= dst.Length
    modifies dst
    ensures op == op0 + |Head(marker, max, len)| && dst[..op] == old(dst[..op0]) + Head(marker, max, len)
  {
    hide Or, LengthBytes;
    if len <= max {
      op := Put(dst, op0, Low8(Or(marker, len - 2)));
    } else {
      op := Put(dst, op0, marker);
      op := PutLength(dst, op, len - max);
    }
  }

  method PutOffset(dst: array<byte>, op0: nat, o: nat) returns (op: nat)
    requires op0 + 2 <= dst.Length
    modifies dst
    ensures op == op0 + 2 && dst[..op] == old(dst[..op0]) + OffsetBytes(o)
  {
    op := Put(dst, op0, Low8(o * 4));
    op := Put(dst, op, Low8(o / 64));
    assert o * 4 % 256 == o % 64 * 4;
  }

  method PutNear(dst: array<byte>, op0: nat, o: nat, len: nat) returns (op: nat)
    requires 3 <= len <= M2_MAX_LEN && o < M2_MAX_OFFSET && op0 + 2 <= dst.Length
    modifies dst
    ensures op == op0 + 2 && dst[..op] == old(dst[..op0]) + [(len - 1) * 32 + o % 8 * 4, o / 8]
  {
    hide Or;
    OrNear(len, o % 8 * 4);
    op := Put(dst, op0, Low8(Or((len - 1) * 32, o % 8 * 4)));
    op := Put(dst, op, Low8(o / 8));
  }

  lemma OrNear(len: nat, b: nat)
    requires 1 <= len && b < 32
    ensures Or((len - 1) * 32, b) == (len - 1) * 32 + b
  {
    assert Pow2(5) == 32 by { assert Pow2(3) == 8; }
    OrDisjoint(len - 1, b, 5);
  }

  lemma OrM4(q: nat, b: nat)
    requires b < 8 && q <= 1
    ensures Or(16, q * 8) == 16 + q * 8
    ensures Or(16 + q * 8, b) == 16 + q * 8 + b
  {
    assert Pow2(3) == 8 && Pow2(4) == 16 by { assert Pow2(2) == 4; }
    OrDisjoint(1, q * 8, 4);
    OrDisjoint(2 + q, b, 3);
  }

  /** The instruction of a back reference. */
  method PutMatch(dst: array<byte>, op0: nat, off: nat, len: nat) returns (op: nat)
    requires len >= 3 && 1 <= off <= M4_MAX_OFFSET
    requires op0 + |MatchBytes(off, len)| <= dst.Length
    modifies dst
    ensures op == op0 + |MatchBytes(off, len)| && dst[..op] == old(dst[..op0]) + MatchBytes(off, len)
  {
    hide Head, OffsetBytes, Or, Pow2;
    if len <= M2_MAX_LEN && off <= M2_MAX_OFFSET {
      op := PutNear(dst, op0, off - 1, len);
    } else if off <= M3_MAX_OFFSET {
      if len <= M3_MAX_LEN {
        OrNear(2, len - 2);
      }
      op := PutHead(dst, op0, 32, M3_MAX_LEN, len);
      op := PutOffset(dst, op, off - 1);
    } else {
      var o := off - 0x4000;
      var high := o / 0x800 / 8 % 2;
      OrM4(high, if len <= M4_MAX_LEN then len - 2 else 0);
      op := PutHead(dst, op0, Low8(Or(16, high * 8)), M4_MAX_LEN, len);
      op := PutOffset(dst, op, o);
    }
  }

  /** Stores the count of up to three literals in the last reference. */
  method PatchCount(dst: array<byte>, op: nat, t: nat)
    requires 2 <= op <= dst.Length && dst[op - 2] % 4 == 0 && t <= 3
    modifies dst
    ensures dst[..op] == Patch(old(dst[..op]), t)
  {
    hide Or;
    OrPatch(dst[op - 2], t);
    dst[op - 2] := Low8(Or(dst[op - 2], t));
  }

  lemma {:induction false} OrPatch(b: byte, t: nat)
    requires b % 4 == 0 && t <= 3
    ensures Or(b, t) == b + t
  {
    hide Or;
    assert Pow2(2) == 4;
    OrDisjoint(b / 4, t, 2);
  }

  /** The header of a run of at least four literals. */
  method PutRunHeader(dst: array<byte>, op0: nat, t: nat) returns (op: nat)
    requires t >= 4 && op0 + |RunHeader(t)| <= dst.Length
    modifies dst
    ensures op == op0 + |RunHeader(t)| && dst[..op] == old(dst[..op0]) + RunHeader(t)
  {
    hide LengthBytes;
    if t <= 18 {
      op := Put(dst, op0, Low8(t - 3));
    } else {
      op := Put(dst, op0, 0);
      op := PutLength(dst, op, t - 18);
    }
  }

  /** The literals before a reference, copied by words: up to three with four bytes
      at once, up to sixteen with sixteen at once, more by sixteens and then bytes. The
      bytes stored beyond the last literal are overwritten by what is put next. */
  method PutLiteralsWide(x: seq<byte>, from: nat, t: nat, dst: array<byte>, op0: nat) returns (op: nat)
    requires op0 <= dst.Length && Open(dst[..op0]) && (op0 == 0 ==> t >= 4)
    requires from + t <= |x| && from + 16 <= |x|
    requires |PutLiterals(dst[..op0], x[from..from + t])| + 16 <= dst.Length
    modifies dst
    ensures op <= dst.Length && dst[..op] == PutLiterals(old(dst[..op0]), x[from..from + t])
  {
    op := op0;
    if t == 0 {
    } else if t <= 3 {
      PatchCount(dst, op0, t);
      op := PutBlock(x, from, t, 4, dst, op0);
    } else {
      op := PutRunHeader(dst, op0, t);
      if t <= 16 {
        op := PutBlock(x, from, t, 16, dst, op);
      } else {
        op := PutSixteens(x, from, t, dst, op);
      }
    }
  }

  /** Literals by blocks of sixteen, and the rest byte by byte. */
  method PutSixteens(x: seq<byte>, from: nat, n: nat, dst: array<byte>, op0: nat) returns (op: nat)
    requires from + n <= |x| && op0 + n <= dst.Length
    modifies dst
    ensures op == op0 + n && dst[..op] == old(dst[..op0]) + x[from..from + n]
  {
    op := op0;
    var ii: nat, t: nat := from, n;
    ghost var start := dst[..op0];
    while t > 0
      invariant ii + t == from + n && op + t == op0 + n && from <= ii
      invariant dst[..op] == start + x[from..ii]
    {
      var w := if t >= 16 then 16 else 1;
      StoreBlock(dst, op, x[ii..ii + w]);
      assert x[from..ii + w] == x[from..ii] + x[ii..ii + w];
      op, ii, t := op + w, ii + w, t - w;
    }
  }

  /** Stores `w` bytes of which the first `t` are meant. */
  method PutBlock(x: seq<byte>, from: nat, t: nat, w: nat, dst: array<byte>, op0: nat) returns (op: nat)
    requires t <= w && from + w <= |x| && op0 + w <= dst.Length
    modifies dst
    ensures op == op0 + t && dst[..op] == old(dst[..op0]) + x[from..from + t]
  {
    StoreBlock(dst, op0, x[from..from + w]);
    op := op0 + t;
    assert dst[..op] == dst[..op0 + w][..op];
    assert x[from..from + w][..t] == x[from..from + t];
  }
}
