/** The LZO1X-1 compressor as it runs: a hash dictionary of 16-bit positions for each
    block, literals and references written to a fixed output buffer. */
module LzoCompress {
  import opened Words
  import opened LzoFormat
  import opened LzoMatch
  import opened LzoCopy
  import opened LzoEmit
  import opened LzoDecode
  import opened LzoRoundTrip
  import opened LzoRuns
  import LzoStream

  type uint16 = n: int | 0 <= n < 0x1_0000

  const MAX_BLOCK := 49152

  /** The output size that is enough for every input of `n` bytes. */
  function Bound(n: nat): nat {
    n + n / 16 + 64 + 3
  }

  // ---------- Sizes

  /** The bytes of a literal run besides the literals. */
  lemma LiteralsSize(b: seq<byte>, lits: seq<byte>)
    requires Open(b) && (b == [] ==> |lits| >= 4)
    ensures |b| + |lits| <= |PutLiterals(b, lits)|
    ensures 16 * |PutLiterals(b, lits)| <= 16 * |b| + 17 * |lits| + 17
  {
    if |lits| > 18 {
      LengthBytesSize(|lits| - 18);
    }
  }

  lemma MatchSize(off: nat, len: nat)
    requires len >= 4 && 1 <= off <= M4_MAX_OFFSET
    ensures |MatchBytes(off, len)| < len
  {
    if len > M3_MAX_LEN {
      LengthBytesSize(len - M3_MAX_LEN);
    }
    if len > M4_MAX_LEN {
      LengthBytesSize(len - M4_MAX_LEN);
    }
  }

  /** An item never takes more than a sixteenth more than it stands for. */
  lemma ItemSize(b: seq<byte>, lits: seq<byte>, off: nat, len: nat)
    requires Open(b) && (b == [] ==> |lits| >= 4) && len >= 4 && 1 <= off <= M4_MAX_OFFSET
    ensures 16 * |PutLiterals(b, lits) + MatchBytes(off, len)| <= 16 * |b| + 17 * (|lits| + len)
  {
    hide MatchBytes;
    MatchSize(off, len);
    if |lits| > 18 {
      LengthBytesSize(|lits| - 18);
    }
  }

  /** The bytes of a long reference are few beside what it stands for. */
  lemma LongItemSize(b: seq<byte>, lits: seq<byte>, off: nat, len: nat)
    requires Open(b) && (b == [] ==> |lits| >= 4) && len >= 4 && 1 <= off <= M4_MAX_OFFSET
    ensures 16 * 255 * |PutLiterals(b, lits) + MatchBytes(off, len)|
            <= 16 * 255 * |b| + LITERAL * |lits| + 16 * len + REFERENCE
  {
    hide MatchBytes, PutLiterals;
    LiteralsSize(b, lits);
    LongMatchSize(off, len);
  }

  lemma LongMatchSize(off: nat, len: nat)
    requires len >= 4 && 1 <= off <= M4_MAX_OFFSET
    ensures 255 * |MatchBytes(off, len)| <= 255 * 4 + len
  {
    if len > M3_MAX_LEN {
      LengthBytesSize(len - M3_MAX_LEN);
    }
    if len > M4_MAX_LEN {
      LengthBytesSize(len - M4_MAX_LEN);
    }
  }

  // ---------- The state of the compressor

  /** The first `op` bytes of the buffer are the code of the first `done` bytes. */
  ghost predicate Coded(x: seq<byte>, done: nat, dst: array<byte>, op: nat, items: seq<Item>)
    reads dst
  {
    && ValidItems(items) && op <= dst.Length && dst[..op] == Encode(items)
    && done <= |x| && Expand(items) == x[..done]
    && 16 * op <= 17 * done
  }

  lemma EqualWordsRepeat(x: seq<byte>, ip: nat, mPos: nat)
    requires mPos <= ip && ip + 4 <= |x| && Load32(x, ip) == Load32(x, mPos)
    ensures Repeats(x, ip - mPos, ip, ip + 4)
  {
    LittleEndianInjective(x[ip..ip + 4], x[mPos..mPos + 4]);
    forall i, j | ip <= i < ip + 4 && j == i - (ip - mPos)
      ensures x[i] == x[j]
    {
      assert x[i] == x[ip..ip + 4][i - ip];
      assert x[j] == x[mPos..mPos + 4][j - mPos];
    }
  }

  lemma RepeatsJoin(x: seq<byte>, off: nat, a: nat, b: nat, c: nat)
    requires off <= a <= b <= c <= |x| && Repeats(x, off, a, b) && Repeats(x, off, b, c)
    ensures Repeats(x, off, a, c)
  {
  }

  /** Literals and a reference are the item that carries the text on. */
  lemma {:induction false} ItemCarriesOn(x: seq<byte>, from: nat, ip: nat, off: nat, len: nat, items: seq<Item>)
    requires ValidItems(items) && from <= ip && ip + len <= |x| && Expand(items) == x[..from]
    requires len >= 4 && 1 <= off <= ip && off <= M4_MAX_OFFSET && Repeats(x, off, ip, ip + len)
    requires items == [] ==> ip - from >= 4
    ensures var it := Item(x[from..ip], off, len);
            && ValidItems(items + [it])
            && Expand(items + [it]) == x[..ip + len]
            && Encode(items + [it]) == PutLiterals(Encode(items), x[from..ip]) + MatchBytes(off, len)
  {
    hide MatchBytes, CopyBack, Repeats, PutLiterals;
    var it := Item(x[from..ip], off, len);
    ItemsAppend(items, it);
    assert x[..from] + x[from..ip] == x[..ip];
    CopyBackRepeats(x, ip, off, len);
  }

  /** Codes the literals before a match, extends the match and codes it. */
  method CodeMatch(x: seq<byte>, from: nat, ip0: nat, mPos: nat, ipEnd: nat, dst: array<byte>, op0: nat,
                   ghost items0: seq<Item>)
    returns (op: nat, ip: nat, ghost items: seq<Item>)
    requires Bound(|x|) <= dst.Length
    requires Coded(x, from, dst, op0, items0) && (items0 == [] ==> ip0 - from >= 4)
    requires from <= ip0 < ipEnd && ipEnd + 20 <= |x|
    requires mPos < ip0 && ip0 - mPos <= M4_MAX_OFFSET && Load32(x, ip0) == Load32(x, mPos)
    modifies dst
    ensures Coded(x, ip, dst, op, items) && items != [] && ip0 + 4 <= ip < ipEnd + 12
    ensures ip == MatchEnd(x, ip0 - mPos, ip0 + 4, ipEnd) && ItemCost(from, ip0, ip, op0, op)
  {
    hide MatchBytes, PutLiterals, MatchEnd, Repeats, Encode, Expand, ValidItems, Load32;
    ghost var b, lits := dst[..op0], x[from..ip0];
    LiteralsSize(b, lits);
    op := PutLiteralsWide(x, from, ip0 - from, dst, op0);
    var m := ExtendByWords(x, ip0, mPos, ipEnd);
    EqualWordsRepeat(x, ip0, mPos);
    RepeatsJoin(x, ip0 - mPos, ip0, ip0 + 4, ip0 + m);
    ItemCarriesOn(x, from, ip0, ip0 - mPos, m, items0);
    ItemSize(b, lits, ip0 - mPos, m);
    LongItemSize(b, lits, ip0 - mPos, m);
    op := PutMatch(dst, op, ip0 - mPos, m);
    ip := ip0 + m;
    items := items0 + [Item(lits, ip0 - mPos, m)];
  }

  // ---------- A block

  /** Every dictionary entry is a position of the block before `ip`. */
  ghost predicate PositionsBefore(dict: array<uint16>, start: nat, ip: nat)
    reads dict
  {
    dict.Length == DICT_SIZE && forall k :: 0 <= k < dict.Length ==> start + dict[k] < ip
  }

  /** Looks up the word at `ip`, whose position replaces the one it finds; no other changes. */
  method Probe(x: seq<byte>, start: nat, ip: nat, dict: array<uint16>) returns (mPos: nat, hit: bool)
    requires start <= ip < start + MAX_BLOCK && ip + 4 <= |x| && PositionsBefore(dict, start, ip)
    modifies dict
    ensures PositionsBefore(dict, start, ip + 1)
    ensures start <= mPos < ip && (hit <==> Load32(x, ip) == Load32(x, mPos))
    ensures mPos == start + old(dict[..])[Slot(x, ip)]
    ensures dict[..] == old(dict[..])[Slot(x, ip) := ip - start]
  {
    hide Load32, DictIndex;
    var dv := Load32(x, ip);
    var dindex := DictIndex(dv);
    mPos := start + dict[dindex];
    dict[dindex] := ip - start;
    hit := dv == Load32(x, mPos);
  }

  /** What has been gained on all runs of a block that lie in it whole. */
  ghost predicate AllGained(x: seq<byte>, start: nat, end: nat, c: nat, op: nat) {
    forall a: nat, e: nat | RunAt(x, start, end, a, e) :: Gained(a, e, a - start, c, op)
  }

  ghost predicate AllProgress(x: seq<byte>, start: nat, end: nat, dict: seq<nat>, w: Place) {
    && |dict| == DICT_SIZE && ValidPlace(start, w)
    && forall a: nat, e: nat | RunAt(x, start, end, a, e) :: Progress(x, start, a, e, dict, w)
  }

  lemma AllBegin(x: seq<byte>, start: nat, end: nat, dict: seq<nat>, ti: nat, op: nat)
    requires |dict| == DICT_SIZE && ti <= start && 16 * op <= 17 * (start - ti)
    ensures AllProgress(x, start, end, dict, Place(start + (if ti < 4 then 4 - ti else 0), start, start - ti, op, true))
  {
    hide Fresh;
    forall a: nat, e: nat | RunAt(x, start, end, a, e)
      ensures var w := Place(start + (if ti < 4 then 4 - ti else 0), start, start - ti, op, true);
              ValidPlace(start, w) && Progress(x, start, a, e, dict, w)
    {
      Begins(start, a, e, ti, op);
    }
  }

  lemma AllStopped(x: seq<byte>, start: nat, end: nat, dict: seq<nat>, w: Place)
    requires AllProgress(x, start, end, dict, w) && NextProbe(w) + 20 >= end
    ensures AllGained(x, start, end, w.c, w.op)
  {
    hide Progress, Gained;
    forall a: nat, e: nat | RunAt(x, start, end, a, e)
      ensures Gained(a, e, a - start, w.c, w.op)
    {
      Stopped(x, start, end, a, e, dict, w);
    }
  }

  lemma AllMissed(x: seq<byte>, start: nat, end: nat, dict: seq<nat>, w: Place)
    requires AllProgress(x, start, end, dict, w) && NextProbe(w) + 20 < end <= |x|
    requires start + dict[Slot(x, NextProbe(w))] < NextProbe(w)
    requires Load32(x, NextProbe(w)) != Load32(x, start + dict[Slot(x, NextProbe(w))])
    ensures var q := NextProbe(w);
            AllProgress(x, start, end, dict[Slot(x, q) := q - start], Place(q, w.ii, w.c, w.op, true))
  {
    hide Progress, Slot, Load32;
    var q := NextProbe(w);
    forall a: nat, e: nat | RunAt(x, start, end, a, e)
      ensures Progress(x, start, a, e, dict[Slot(x, q) := q - start], Place(q, w.ii, w.c, w.op, true))
    {
      ProbeMisses(x, start, end, a, e, dict, w);
    }
  }

  lemma {:induction false} AllHit(x: seq<byte>, start: nat, end: nat, dict: seq<nat>, w: Place, c: nat, op: nat)
    requires AllProgress(x, start, end, dict, w) && NextProbe(w) + 20 < end <= |x|
    requires start + dict[Slot(x, NextProbe(w))] < NextProbe(w)
    requires var q := NextProbe(w);
             c == MatchEnd(x, q - (start + dict[Slot(x, q)]), q + 4, end - 20) && ItemCost(w.c, q, c, w.op, op)
    ensures var q := NextProbe(w); AllProgress(x, start, end, dict[Slot(x, q) := q - start], Place(c, c, c, op, false))
  {
    hide Progress, Slot, Load32, MatchEnd, ItemCost;
    var q := NextProbe(w);
    QIsLater(w, q, c, op);
    forall a: nat, e: nat | RunAt(x, start, end, a, e)
      ensures Progress(x, start, a, e, dict[Slot(x, q) := q - start], Place(c, c, c, op, false))
    {
      ProbeHits(x, start, end, a, e, dict, w, c, op);
    }
  }

  /** The state of a block between two probes: what is coded, since `c0` and `op0` at no more
      than 17 bytes for 16, the dictionary, and the progress made with every run. */
  ghost predicate Working(x: seq<byte>, start: nat, inEnd: nat, dict: array<uint16>, dst: array<byte>, w: Place,
                          items: seq<Item>, c0: nat, op0: nat)
    reads dict, dst
  {
    && Coded(x, w.c, dst, w.op, items)
    && AllProgress(x, start, inEnd, dict[..], w)
    && PositionsBefore(dict, start, if w.missed then w.ip + 1 else w.ip)
    && w.ii <= inEnd && (items == [] ==> w.ip - w.c >= 4)
    && c0 <= w.c && 16 * w.op <= 16 * op0 + 17 * (w.c - c0)
  }

  /** One probe, and the reference that it may lead to. */
  method ProbeAndCode(x: seq<byte>, start: nat, inEnd: nat, ip0: nat, c: nat, dict: array<uint16>, dst: array<byte>,
                      op0: nat, ghost w: Place, ghost items0: seq<Item>, ghost base: nat, ghost opBase: nat)
    returns (hit: bool, ip: nat, op: nat, ghost items: seq<Item>)
    requires Bound(|x|) <= dst.Length && inEnd <= |x| && inEnd <= start + MAX_BLOCK && start + 20 < inEnd
    requires dict as object != dst as object && Working(x, start, inEnd, dict, dst, w, items0, base, opBase)
    requires ValidPlace(start, w) && ip0 == NextProbe(w) && ip0 + 20 < inEnd && c == w.c && op0 == w.op
    modifies dst, dict
    ensures hit ==> ip + 8 <= inEnd
                    && ValidPlace(start, Place(ip, ip, ip, op, false))
                    && Working(x, start, inEnd, dict, dst, Place(ip, ip, ip, op, false), items, base, opBase)
    ensures !hit ==> ip == ip0 && op == op0
                     && ValidPlace(start, Place(ip, w.ii, c, op, true))
                     && Working(x, start, inEnd, dict, dst, Place(ip, w.ii, c, op, true), items, base, opBase)
    ensures hit ==> ip > ip0
  {
    hide ValidItems, Encode, Expand, Load32, Slot, AllProgress, ItemCost, MatchEnd;
    ghost var probed := dict[..];
    op, ip, items := op0, ip0, items0;
    var mPos;
    mPos, hit := Probe(x, start, ip, dict);
    assert dst[..op] == old(dst[..op0]);
    if hit {
      op, ip, items := CodeMatch(x, c, ip, mPos, inEnd - 20, dst, op, items);
      AllHit(x, start, inEnd, probed, w, ip, op);
      ItemGrows(w, ip0, ip, op);
    } else {
      AllMissed(x, start, inEnd, probed, w);
    }
  }

  /** Codes one block of the input, `ti` literals being left from the blocks before,
      and returns how many literals are left after it. Every run of equal bytes in the block
      is coded by references. */
  method CompressBlock(x: seq<byte>, start: nat, len: nat, ti0: nat, dict: array<uint16>, dst: array<byte>, op0: nat,
                       ghost items0: seq<Item>)
    returns (op: nat, t: nat, ghost items: seq<Item>)
    requires Bound(|x|) <= dst.Length
    requires 20 < len <= MAX_BLOCK && start + len <= |x|
    requires ti0 <= start && Coded(x, start - ti0, dst, op0, items0)
    requires dict.Length == DICT_SIZE && forall k :: 0 <= k < dict.Length ==> dict[k] == 0
    requires dict as object != dst as object
    modifies dst, dict
    ensures t <= start + len && Coded(x, start + len - t, dst, op, items)
    ensures start - ti0 <= start + len - t && 16 * op <= 16 * op0 + 17 * (start + len - t - (start - ti0))
    ensures AllGained(x, start, start + len, start + len - t, op)
  {
    hide ValidItems, Encode, Expand, AllProgress, Working, Coded, AllGained;
    var inEnd, ipEnd := start + len, start + len - 20;
    op, items := op0, items0;
    var ip, ii, ti := start, start, ti0;
    ip := ip + if ti < 4 then 4 - ti else 0;
    var toLiteral := true;
    BlockBegins(x, start, inEnd, ti, dict, dst, op, items);
    while true
      invariant start <= ii <= ip && ii <= inEnd && 0 <= ti <= ii && (ti != 0 ==> ii == start)
      invariant ValidPlace(start, Place(ip, ii, ii - ti, op, toLiteral))
      invariant Working(x, start, inEnd, dict, dst, Place(ip, ii, ii - ti, op, toLiteral), items, start - ti0, op0)
      decreases ipEnd - ip, if toLiteral then 0 else 1
    {
      ghost var w := Place(ip, ii, ii - ti, op, toLiteral);
      if toLiteral {
        ip := ip + 1 + (ip - ii) / 32;
      }
      if ip >= ipEnd {
        BlockEnds(x, start, inEnd, dict, dst, w, items, start - ti0, op0);
        break;
      }
      var hit;
      hit, ip, op, items := ProbeAndCode(x, start, inEnd, ip, ii - ti, dict, dst, op, w, items, start - ti0, op0);
      toLiteral := !hit;
      if hit {
        ii, ti := ip, 0;
      }
    }
    t := inEnd - (ii - ti);
  }

  lemma BlockBegins(x: seq<byte>, start: nat, inEnd: nat, ti: nat, dict: array<uint16>, dst: array<byte>, op: nat,
                    items: seq<Item>)
    requires ti <= start <= inEnd && Coded(x, start - ti, dst, op, items)
    requires dict.Length == DICT_SIZE && forall k :: 0 <= k < dict.Length ==> dict[k] == 0
    ensures var w := Place(start + (if ti < 4 then 4 - ti else 0), start, start - ti, op, true);
            ValidPlace(start, w) && Working(x, start, inEnd, dict, dst, w, items, start - ti, op)
  {
    hide ValidItems, Encode, Expand, AllProgress;
    AllBegin(x, start, inEnd, dict[..], ti, op);
  }

  lemma BlockEnds(x: seq<byte>, start: nat, inEnd: nat, dict: array<uint16>, dst: array<byte>, w: Place,
                  items: seq<Item>, c0: nat, op0: nat)
    requires Working(x, start, inEnd, dict, dst, w, items, c0, op0) && ValidPlace(start, w)
    requires NextProbe(w) + 20 >= inEnd
    ensures Coded(x, w.c, dst, w.op, items) && AllGained(x, start, inEnd, w.c, w.op)
    ensures c0 <= w.c && 16 * w.op <= 16 * op0 + 17 * (w.c - c0)
  {
    hide Coded, AllGained;
    AllStopped(x, start, inEnd, dict[..], w);
  }

  lemma ItemGrows(w: Place, q: nat, c: nat, op: nat)
    requires ItemCost(w.c, q, c, w.op, op)
    ensures w.c < c && 16 * op <= 16 * w.op + 17 * (c - w.c)
  {
  }

  // ---------- The whole input

  /** The literals left after the last reference. */
  method PutTail(x: seq<byte>, t: nat, dst: array<byte>, op0: nat) returns (op: nat)
    requires op0 + t + t / 16 + 20 <= dst.Length && 1 <= t <= |x| && Open(dst[..op0]) && (op0 == 0 ==> t > 238)
    modifies dst
    ensures op <= dst.Length && dst[..op] == PutLiterals(old(dst[..op0]), x[|x| - t..])
    ensures 16 * op <= 16 * op0 + 17 * t + 17
  {
    hide RunHeader;
    ghost var b := dst[..op0];
    var ii := |x| - t;
    LiteralsSize(b, x[ii..]);
    op := op0;
    if t <= 3 {
      PatchCount(dst, op, t);
    } else {
      op := PutRunHeader(dst, op, t);
    }
    CopyInput(x, ii, dst, op, t);
    op := op + t;
    assert x[ii..ii + t] == x[ii..];
  }

  /** An input without a reference, of at most 238 bytes. */
  method PutShort(x: seq<byte>, dst: array<byte>) returns (op: nat)
    requires 1 <= |x| <= 238 && |x| + 1 <= dst.Length
    modifies dst
    ensures op == |x| + 1 && dst[..op] == [17 + |x|] + x
  {
    op := Put(dst, 0, Low8(17 + |x|));
    CopyInput(x, 0, dst, op, |x|);
    op := op + |x|;
    assert x[0..|x|] == x;
  }

  /** The literals left at the end, and the end marker. */
  method Finish(x: seq<byte>, t: nat, dst: array<byte>, op0: nat, ghost items: seq<Item>) returns (op: nat)
    requires Bound(|x|) <= dst.Length && t <= |x| && Coded(x, |x| - t, dst, op0, items)
    modifies dst
    ensures op <= Bound(|x|) && op <= dst.Length && dst[..op] == Stream(items, x[|x| - t..])
    ensures 16 * op <= 16 * op0 + 17 * t + 65
  {
    hide ValidItems, Encode, LengthBytes, RunHeader, PutLiterals;
    op := op0;
    ghost var tail := x[|x| - t..];
    if t > 0 {
      if op0 == 0 && t <= 238 {
        assert items == [] && |Expand(items)| == 0 && tail == x;
        op := PutShort(x, dst);
      } else {
        op := PutTail(x, t, dst, op0);
      }
    }
    ghost var body := dst[..op];
    StoreBlock(dst, op, EOF_BYTES);
    op := op + 3;
    assert dst[..op] == body + EOF_BYTES;
    if op0 != 0 {
      NoLiterals(Encode(items));
    }
  }

  lemma NoLiterals(b: seq<byte>)
    requires Open(b) && b != []
    ensures PutLiterals(b, []) == b
  {
  }

  /** Equal bytes from `a` to `e`, all in one block of the input. */
  predicate RunInBlock(x: seq<byte>, a: nat, e: nat) {
    a < e <= |x| && a / MAX_BLOCK == (e - 1) / MAX_BLOCK && forall k :: a <= k < e ==> x[k] == x[a]
  }

  /** How small the output is for `n` bytes with a run of `r`, `lead` bytes from the start of its
      block: the run adds little but its length over 255. */
  function RunBound(n: nat, r: nat, lead: nat): nat
    requires r <= n
  {
    n - r + (n - r) / 16 + r / 255 + lead / 14 + 60
  }

  /** No pointer past the input wraps around. */
  predicate LowEnough(x: seq<byte>, address: nat) {
    address + |x| + |x| / 32 < TWO_64
  }

  ghost predicate GainedBefore(x: seq<byte>, ip: nat, c: nat, op: nat) {
    forall a: nat, e: nat | RunInBlock(x, a, e) && e <= ip :: Gained(a, e, a % MAX_BLOCK, c, op)
  }

  /** One more block. */
  lemma GainedMore(x: seq<byte>, ip: nat, ll: nat, c: nat, op: nat, c': nat, op': nat)
    requires GainedBefore(x, ip, c, op) && AllGained(x, ip, ip + ll, c', op') && ip + ll <= |x| && ll <= MAX_BLOCK
    requires ip % MAX_BLOCK == 0 && c <= c' && 16 * op' <= 16 * op + 17 * (c' - c)
    ensures GainedBefore(x, ip + ll, c', op')
  {
    hide Gained;
    forall a: nat, e: nat | RunInBlock(x, a, e) && e <= ip + ll
      ensures Gained(a, e, a % MAX_BLOCK, c', op')
    {
      if e <= ip {
        GainStays(a, e, a % MAX_BLOCK, c, op, c', op');
      } else {
        InLastBlock(ip, ll, a, e);
        assert RunAt(x, ip, ip + ll, a, e);
      }
    }
  }

  lemma InLastBlock(ip: nat, ll: nat, a: nat, e: nat)
    requires ip % MAX_BLOCK == 0 && ll <= MAX_BLOCK && a < e && ip < e <= ip + ll
    requires a / MAX_BLOCK == (e - 1) / MAX_BLOCK
    ensures a >= ip && a % MAX_BLOCK == a - ip
  {
  }

  /** The runs that no block had are short. */
  lemma GainedAll(x: seq<byte>, ip: nat, c: nat, op: nat)
    requires GainedBefore(x, ip, c, op) && 16 * op <= 17 * c && |x| <= ip + 31 && (ip % MAX_BLOCK == 0 || ip == |x|)
    ensures GainedBefore(x, |x|, c, op)
  {
    forall a: nat, e: nat | RunInBlock(x, a, e)
      ensures Gained(a, e, a % MAX_BLOCK, c, op)
    {
      if e > ip {
        InLastBlock(ip, |x| - ip, a, e);
      }
    }
  }

  lemma GainBounds(x: seq<byte>, a: nat, e: nat, t: nat, op: nat, op': nat)
    requires a < e <= |x| && t <= |x| && Gained(a, e, a % MAX_BLOCK, |x| - t, op) && 16 * op' <= 16 * op + 17 * t + 65
    ensures op' <= RunBound(|x|, e - a, a % MAX_BLOCK)
  {
    var g := a % MAX_BLOCK;
    assert 32 * First(g) <= 164 + g;
    assert 32 * Second(g) <= 32 * First(g) + 32 + g + First(g);
  }

  /** The compressor. `address` is where the input lies in memory, since the source
      refuses a block when a pointer past it would wrap around. The output fits the
      documented bound, and much less where the input repeats a byte; and the decompressor
      gives the input back from it, whatever room beyond the input's length it is given. */
  method Compress(x: seq<byte>, address: nat, dst: array<byte>, dict: array<uint16>)
    returns (op: nat, ghost items: seq<Item>, ghost tail: seq<byte>)
    requires address + |x| < TWO_64 && Bound(|x|) <= dst.Length < TWO_64
    requires dict.Length == DICT_SIZE && dict as object != dst as object
    modifies dst, dict
    ensures op <= Bound(|x|) && op <= dst.Length
    ensures ValidItems(items) && Expand(items) + tail == x && dst[..op] == Stream(items, tail)
    ensures forall cap: nat :: cap >= |x| ==> Decompressed(dst[..op], cap) == Outcome(OK, x)
    ensures LzoStream.StandsFor(dst[..op], x)
    ensures LowEnough(x, address) ==>
              forall a: nat, e: nat | RunInBlock(x, a, e) :: op <= RunBound(|x|, e - a, a % MAX_BLOCK)
  {
    hide ValidItems, Encode, Expand, Stream, Decompressed, GainedBefore, LzoStream.StandsFor, RunBound, Coded;
    var t;
    op, t, items := CompressBlocks(x, address, dst, dict);
    CodedFacts(x, |x| - t, dst, op, items);
    tail := x[|x| - t..];
    ghost var op1 := op;
    op := Finish(x, t, dst, op, items);
    if LowEnough(x, address) {
      AllBounded(x, t, op1, op);
    }
    assert Expand(items) + tail == x;
    forall cap: nat | cap >= |x|
      ensures Decompressed(dst[..op], cap) == Outcome(OK, x)
    {
      StreamReadsBack(items, tail, cap);
    }
    LzoStream.AcceptsExactly(dst[..op], x, |x|);
  }

  /** All blocks, and how many literals are left at the end. */
  method CompressBlocks(x: seq<byte>, address: nat, dst: array<byte>, dict: array<uint16>)
    returns (op: nat, t: nat, ghost items: seq<Item>)
    requires address + |x| < TWO_64 && Bound(|x|) <= dst.Length < TWO_64
    requires dict.Length == DICT_SIZE && dict as object != dst as object
    modifies dst, dict
    ensures t <= |x| && Coded(x, |x| - t, dst, op, items)
    ensures LowEnough(x, address) ==> GainedBefore(x, |x|, |x| - t, op)
  {
    hide ValidItems, Encode, Expand, GainedBefore, AllGained, Coded;
    op, items := 0, [];
    var ip, l := 0, |x|;
    t := 0;
    NothingCoded(x, dst);
    NothingGained(x);
    while l > 20
      invariant 0 <= t <= ip && ip + l == |x| && (ip % MAX_BLOCK == 0 || l == 0)
      invariant Coded(x, ip - t, dst, op, items)
      invariant GainedBefore(x, ip, ip - t, op)
      decreases l
    {
      var ll := if l <= MAX_BLOCK then l else MAX_BLOCK;
      var llEnd := address + ip + ll;
      if Wrap64(llEnd + (t + ll) / 32) <= llEnd {
        break;
      }
      forall k | 0 <= k < dict.Length {
        dict[k] := 0;
      }
      ghost var op0, c := op, ip - t;
      op, t, items := CompressBlock(x, ip, ll, t, dict, dst, op, items);
      GainedMore(x, ip, ll, c, op0, ip + ll - t, op);
      ip := ip + ll;
      l := l - ll;
    }
    CodedFacts(x, ip - t, dst, op, items);
    if LowEnough(x, address) {
      GainedAll(x, ip, ip - t, op);
    }
    t := t + l;
  }

  lemma {:induction false} CodedFacts(x: seq<byte>, done: nat, dst: array<byte>, op: nat, items: seq<Item>)
    requires Coded(x, done, dst, op, items)
    ensures ValidItems(items) && done <= |x| && Expand(items) == x[..done] && 16 * op <= 17 * done
  {
  }

  lemma NothingGained(x: seq<byte>)
    ensures GainedBefore(x, 0, 0, 0)
  {
  }

  lemma AllBounded(x: seq<byte>, t: nat, op: nat, op': nat)
    requires t <= |x| && GainedBefore(x, |x|, |x| - t, op) && 16 * op' <= 16 * op + 17 * t + 65
    ensures forall a: nat, e: nat | RunInBlock(x, a, e) :: op' <= RunBound(|x|, e - a, a % MAX_BLOCK)
  {
    hide Gained, RunBound;
    forall a: nat, e: nat | RunInBlock(x, a, e)
      ensures op' <= RunBound(|x|, e - a, a % MAX_BLOCK)
    {
      GainBounds(x, a, e, t, op, op');
    }
  }

  lemma NothingCoded(x: seq<byte>, dst: array<byte>)
    ensures Coded(x, 0, dst, 0, [])
  {
  }
}
