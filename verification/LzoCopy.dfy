/** The copy loops of the codec: eight bytes, four bytes and single bytes at a time. */
module LzoCopy {
  import opened Words
  import opened LzoFormat
  import opened LzoMatch

  // ---------- Overlapping copies

  /** A copy may be done in two parts. */
  lemma {:induction false} CopyBackSplit(out: seq<byte>, off: nat, m: nat, n: nat)
    requires 1 <= off <= |out|
    ensures CopyBack(out, off, m + n) == CopyBack(CopyBack(out, off, m), off, n)
    decreases m
  {
    if m > 0 {
      CopyBackSplit(out + [out[|out| - off]], off, m - 1, n);
    }
  }

  /** As long as it does not reach its own output, the copy is a plain block copy. */
  lemma {:induction false} CopyBackBlock(out: seq<byte>, off: nat, n: nat)
    requires 1 <= off <= |out| && n <= off
    ensures CopyBack(out, off, n) == out + out[|out| - off..|out| - off + n]
    decreases n
  {
    if n > 0 {
      CopyBackBlock(out, off, n - 1);
      CopyBackSplit(out, off, n - 1, 1);
      var p := CopyBack(out, off, n - 1);
      assert p[|p| - off] == out[|out| - off + n - 1];
      assert CopyBack(p, off, 1) == CopyBack(p + [p[|p| - off]], off, 0);
      assert out[|out| - off..|out| - off + n] == out[|out| - off..|out| - off + n - 1] + [out[|out| - off + n - 1]];
    }
  }

  /** Copying inside a text from where it repeats gives a longer prefix of the text. */
  lemma {:induction false} CopyBackRepeats(x: seq<byte>, p: nat, off: nat, n: nat)
    requires 1 <= off <= p && p + n <= |x|
    requires Repeats(x, off, p, p + n)
    ensures CopyBack(x[..p], off, n) == x[..p + n]
    decreases n
  {
    if n > 0 {
      assert x[..p + 1] == x[..p] + [x[p]];
      assert x[p] == x[p - off];
      CopyBackRepeats(x, p + 1, off, n - 1);
    }
  }

  // ---------- Copies into a buffer

  /** Stores a block that has been loaded as a whole, as an unaligned word copy does. */
  method StoreBlock(dst: array<byte>, op: nat, block: seq<byte>)
    requires op + |block| <= dst.Length
    modifies dst
    ensures dst[..op + |block|] == old(dst[..op]) + block
    ensures forall i :: op + |block| <= i < dst.Length ==> dst[i] == old(dst[i])
  {
    forall i | 0 <= i < |block| {
      dst[op + i] := block[i];
    }
  }

  /** Copies `n` bytes of the input by words of eight and four and then bytes. */
  method CopyInput(z: seq<byte>, ip0: nat, dst: array<byte>, op0: nat, n: nat)
    requires ip0 + n <= |z| && op0 + n <= dst.Length
    modifies dst
    ensures dst[..op0 + n] == old(dst[..op0]) + z[ip0..ip0 + n]
    ensures forall i :: op0 + n <= i < dst.Length ==> dst[i] == old(dst[i])
  {
    var ip: nat, op: nat, t: nat := ip0, op0, n;
    ghost var before := dst[..];
    while t > 0
      invariant ip + t == ip0 + n && op + t == op0 + n && op >= op0 && ip >= ip0
      invariant dst[..op] == before[..op0] + z[ip0..ip]
      invariant forall i :: op <= i < dst.Length ==> dst[i] == old(dst[i])
    {
      var w := if t >= 8 then 8 else if t >= 4 then 4 else 1;
      StoreBlock(dst, op, z[ip..ip + w]);
      assert z[ip0..ip + w] == z[ip0..ip] + z[ip..ip + w];
      ip, op, t := ip + w, op + w, t - w;
    }
  }

  /** The byte loop of `copy_match`. */
  method CopyMatchBytes(dst: array<byte>, op0: nat, mPos0: nat, n: nat)
    requires mPos0 < op0 && op0 + n <= dst.Length
    modifies dst
    ensures dst[..op0 + n] == CopyBack(old(dst[..op0]), op0 - mPos0, n)
    ensures forall i :: op0 + n <= i < dst.Length ==> dst[i] == old(dst[i])
  {
    var op: nat, mPos: nat, t: nat := op0, mPos0, n;
    ghost var before := dst[..];
    while t > 0
      invariant op + t == op0 + n && mPos + t == mPos0 + n && op >= op0
      invariant CopyBack(dst[..op], op0 - mPos0, t) == CopyBack(before[..op0], op0 - mPos0, n)
      invariant forall i :: op <= i < dst.Length ==> dst[i] == old(dst[i])
    {
      ghost var d := dst[..];
      dst[op] := dst[mPos];
      assert dst[..op + 1] == d[..op] + [d[..op][op - (op0 - mPos0)]];
      op, mPos, t := op + 1, mPos + 1, t - 1;
    }
  }

  /** Copies one word of `w` bytes that lies wholly in what has been written. */
  method CopyWord(dst: array<byte>, op: nat, mPos: nat, w: nat)
    requires mPos + w <= op && mPos < op && op + w <= dst.Length
    modifies dst
    ensures dst[..op + w] == CopyBack(old(dst[..op]), op - mPos, w)
    ensures forall i :: op + w <= i < dst.Length ==> dst[i] == old(dst[i])
  {
    hide CopyBack;
    var block := dst[mPos..mPos + w];
    assert block == dst[..op][mPos..mPos + w];
    CopyBackBlock(dst[..op], op - mPos, w);
    StoreBlock(dst, op, block);
  }

  /** The word loop: eight bytes at a time, then four, then single bytes. */
  method CopyMatchWords(dst: array<byte>, op0: nat, mPos0: nat, n: nat)
    requires mPos0 + 8 <= op0 && op0 + n <= dst.Length
    modifies dst
    ensures dst[..op0 + n] == CopyBack(old(dst[..op0]), op0 - mPos0, n)
    ensures forall i :: op0 + n <= i < dst.Length ==> dst[i] == old(dst[i])
  {
    hide CopyBack;
    ghost var off, text := op0 - mPos0, dst[..op0];
    CopyBackBlock(text, off, 0);
    var op: nat, mPos: nat, t: nat := op0, mPos0, n;
    while t > 0
      invariant op + t == op0 + n && op - mPos == off
      invariant dst[..op] == CopyBack(text, off, n - t)
      invariant forall i :: op <= i < dst.Length ==> dst[i] == old(dst[i])
    {
      var w := if t >= 8 then 8 else if t >= 4 then 4 else 1;
      CopyBackSplit(text, off, n - t, w);
      CopyWord(dst, op, mPos, w);
      op, mPos, t := op + w, mPos + w, t - w;
    }
  }

  /** The match copy of the decompressor: by words when the distance is at least
      eight, by bytes when the copy may repeat its own output sooner. */
  method CopyMatch(dst: array<byte>, op0: nat, mPos0: nat, n: nat)
    requires mPos0 < op0 && op0 + n <= dst.Length
    modifies dst
    ensures dst[..op0 + n] == CopyBack(old(dst[..op0]), op0 - mPos0, n)
    ensures forall i :: op0 + n <= i < dst.Length ==> dst[i] == old(dst[i])
  {
    if op0 - mPos0 >= 8 {
      CopyMatchWords(dst, op0, mPos0, n);
    } else {
      CopyMatchBytes(dst, op0, mPos0, n);
    }
  }
}
