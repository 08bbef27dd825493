/** Decoding undoes encoding: the stream of any valid items and tail decodes to
    what they stand for. */
module LzoRoundTrip {
  import opened Words
  import opened LzoFormat
  import opened LzoDecode

  /** Length bytes read back as the length. */
  lemma {:induction false} LengthReadsBack(z: seq<byte>, ip: nat, n: nat, t: nat)
    requires n >= 1 && Occurs(z, ip, LengthBytes(n))
    requires t + (n - 1) / 255 * 255 <= LENGTH_LIMIT
    ensures ReadLength(z, ip, t) == Length(ip + |LengthBytes(n)|, t + n)
    decreases n
  {
    if n <= 255 {
      assert z[ip] == LengthBytes(n)[0];
    } else {
      OccursSplit(z, ip, [0], LengthBytes(n - 255));
      assert z[ip] == [0][0];
      LengthReadsBack(z, ip + 1, n - 255, t + 255);
    }
  }

  /** A patched offset pair reads back as the offset and the count. */
  lemma OffsetReadsBack(z: seq<byte>, p: nat, o: nat, k: nat)
    requires k <= 3 && Occurs(z, p, Patch(OffsetBytes(o), k))
    ensures Offset14(z, p) == o % 0x4000
    ensures z[p] % 4 == k
  {
    var b := Patch(OffsetBytes(o), k);
    assert z[p] == b[0] && z[p + 1] == b[1];
    OffsetParts(o, k);
  }

  lemma OffsetParts(o: nat, k: nat)
    requires k <= 3
    ensures (o % 64 * 4 + k) / 4 == o % 64 && (o % 64 * 4 + k) % 4 == k
    ensures o % 0x4000 == o / 64 % 256 * 64 + o % 64
  {
  }

  lemma PatchAppend(a: seq<byte>, b: seq<byte>, k: nat)
    requires |b| >= 2 && b[|b| - 2] % 4 == 0 && k <= 3
    ensures (a + b)[|a + b| - 2] % 4 == 0
    ensures Patch(a + b, k) == a + Patch(b, k)
  {
    assert (a + b)[|a + b| - 2] == b[|b| - 2];
  }

  /** The head of a distant reference reads back as its length. */
  lemma HeadReadsBack(z: seq<byte>, i: nat, marker: byte, max: nat, len: nat)
    requires 3 <= len && LegibleBeyond(max, len) && 3 <= max && 0 < marker && marker + max < 256
    requires Occurs(z, i, Head(marker, max, len)) && i + |Head(marker, max, len)| + 2 <= |z|
    ensures z[i] == if len <= max then marker + (len - 2) else marker
    ensures MatchLength(z, i + 1, z[i] - marker, max - 2) == Length(i + |Head(marker, max, len)|, len - 2)
  {
    if len <= max {
      assert z[i] == [marker + (len - 2)][0];
    } else {
      OccursSplit(z, i, [marker], LengthBytes(len - max));
      assert z[i] == [marker][0];
      LengthReadsBack(z, i + 1, len - max, 0);
    }
  }

  /** What it means for the bytes at `i` to be the instruction of a reference: it is
      recognised, decodes to the reference, and carries the count `k`. */
  predicate ReadsAs(z: seq<byte>, i: nat, off: nat, len: nat, e: nat, k: nat) {
    && i + 3 <= |z| && i + 2 <= e <= |z|
    && z[i] >= 16
    && Instruction(z, z[i], i + 1) == Copy(off, len, e)
    && z[e - 2] % 4 == k
  }

  lemma NearMatchReadsBack(z: seq<byte>, i: nat, off: nat, len: nat, k: nat)
    requires 3 <= len <= M2_MAX_LEN && 1 <= off <= M2_MAX_OFFSET && k <= 3
    requires Occurs(z, i, Patch(MatchBytes(off, len), k)) && i + |MatchBytes(off, len)| + 1 <= |z|
    ensures ReadsAs(z, i, off, len, i + |MatchBytes(off, len)|, k)
  {
    var b := Patch(MatchBytes(off, len), k);
    assert z[i] == b[0] && z[i + 1] == b[1];
    assert b[0] == (len - 1) * 32 + (off - 1) % 8 * 4 + k;
    assert b[0] / 32 == len - 1;
    assert b[0] / 4 % 8 == (off - 1) % 8;
  }

  /** The head and the patched offset bytes of a distant reference, read back. */
  lemma FarPartsReadBack(z: seq<byte>, i: nat, marker: byte, max: nat, len: nat, o: nat, k: nat)
    requires 3 <= len && LegibleBeyond(max, len) && k <= 3 && 3 <= max && 0 < marker && marker + max < 256
    requires Occurs(z, i, Patch(Head(marker, max, len) + OffsetBytes(o), k))
    ensures var p := i + |Head(marker, max, len)|;
            && p + 2 <= |z|
            && z[i] == (if len <= max then marker + (len - 2) else marker)
            && MatchLength(z, i + 1, z[i] - marker, max - 2) == Length(p, len - 2)
            && Offset14(z, p) == o % 0x4000
            && z[p] % 4 == k
  {
    var head := Head(marker, max, len);
    PatchAppend(head, OffsetBytes(o), k);
    OccursSplit(z, i, head, Patch(OffsetBytes(o), k));
    HeadReadsBack(z, i, marker, max, len);
    OffsetReadsBack(z, i + |head|, o, k);
  }

  lemma M3ReadsBack(z: seq<byte>, i: nat, off: nat, len: nat, k: nat)
    requires 3 <= len && LegibleBeyond(M3_MAX_LEN, len) && 1 <= off <= M3_MAX_OFFSET && k <= 3
    requires Occurs(z, i, Patch(Head(32, M3_MAX_LEN, len) + OffsetBytes(off - 1), k))
    ensures ReadsAs(z, i, off, len, i + |Head(32, M3_MAX_LEN, len)| + 2, k)
  {
    hide Head, LengthBytes, MatchLength, Offset14, Patch, OffsetBytes, Occurs;
    FarPartsReadBack(z, i, 32, M3_MAX_LEN, len, off - 1, k);
    assert z[i] % 32 == z[i] - 32;
  }

  lemma M4ReadsBack(z: seq<byte>, i: nat, o: nat, len: nat, k: nat)
    requires 3 <= len && LegibleBeyond(M4_MAX_LEN, len) && 1 <= o < 0x8000 && k <= 3
    requires Occurs(z, i, Patch(Head(16 + o / 0x4000 * 8, M4_MAX_LEN, len) + OffsetBytes(o), k))
    ensures ReadsAs(z, i, o + 0x4000, len, i + |Head(16 + o / 0x4000 * 8, M4_MAX_LEN, len)| + 2, k)
  {
    hide Head, LengthBytes, MatchLength, Offset14, Patch, OffsetBytes, Occurs;
    var marker := 16 + o / 0x4000 * 8;
    FarPartsReadBack(z, i, marker, M4_MAX_LEN, len, o, k);
    assert z[i] % 8 == z[i] - marker;
    assert z[i] / 8 % 2 == o / 0x4000;
    assert o == o / 0x4000 * 0x4000 + o % 0x4000;
  }

  /** The instruction of a reference decodes to that reference, whatever count is
      stored in its free bits, and that count is found two bytes before its end. */
  lemma MatchReadsBack(z: seq<byte>, i: nat, off: nat, len: nat, k: nat)
    requires 3 <= len <= LENGTH_LIMIT && 1 <= off <= M4_MAX_OFFSET && k <= 3
    requires Occurs(z, i, Patch(MatchBytes(off, len), k))
    requires i + |MatchBytes(off, len)| + 1 <= |z|
    ensures ReadsAs(z, i, off, len, i + |MatchBytes(off, len)|, k)
  {
    hide ReadsAs, Occurs, Head, OffsetBytes, Patch;
    if len <= M2_MAX_LEN && off <= M2_MAX_OFFSET {
      NearMatchReadsBack(z, i, off, len, k);
    } else {
      if off <= M3_MAX_OFFSET {
        M3ReadsBack(z, i, off, len, k);
      } else {
        M4ReadsBack(z, i, off - 0x4000, len, k);
      }
    }
  }

  /** The header of a literal run reads back as the run's length less three. */
  lemma HeaderReadsBack(z: seq<byte>, i: nat, n: nat)
    requires 4 <= n && LegibleBeyond(18, n) && Occurs(z, i, RunHeader(n)) && i + |RunHeader(n)| < |z|
    ensures z[i] < 16 && RunLength(z, z[i], i + 1) == Length(i + |RunHeader(n)|, n - 3)
  {
    var h := RunHeader(n);
    if n <= 18 {
      assert z[i] == h[0];
    } else {
      OccursSplit(z, i, [0], LengthBytes(n - 18));
      assert z[i] == [0][0];
      LengthReadsBack(z, i + 1, n - 18, 0);
    }
  }

  // ---------- Runs of the decompressor

  /** From `s` the decompressor comes to the same outcome as from `s'`. */
  ghost predicate Leads(z: seq<byte>, cap: nat, s: State, s': State) {
    Ready(z, cap, s) && Ready(z, cap, s') && Decode(z, cap, s) == Decode(z, cap, s')
  }

  lemma LeadsStep(z: seq<byte>, cap: nat, s: State, s': State)
    requires s.At? && Ready(z, cap, s) && s' == Step(z, cap, s)
    ensures Leads(z, cap, s, s')
  {
  }

  // ---------- What the decompressor does with each part of a stream

  /** Where literals may come: at the start of the input, or after a reference. */
  function Gap(ip: nat, out: seq<byte>): State {
    At(if ip == 0 then Top else MatchDone, 0, ip, out)
  }

  lemma RunIsTaken(z: seq<byte>, cap: nat, i: nat, lits: seq<byte>, e: nat, out: seq<byte>)
    requires 4 <= |lits| && LegibleBeyond(18, |lits|) && |out| + |lits| <= cap
    requires Occurs(z, i, RunHeader(|lits|)) && Occurs(z, i + |RunHeader(|lits|)|, lits)
    requires e == i + |RunHeader(|lits|)| + |lits| && e + 3 <= |z|
    ensures StepTop(z, cap, i, out) == At(FirstRun, 0, e, out + lits)
  {
    hide RunHeader, RunLength;
    HeaderReadsBack(z, i, |lits|);
  }

  /** A literal run of at least four decodes to its bytes, up to the instruction
      byte after it. */
  lemma RunReadsBack(z: seq<byte>, cap: nat, i: nat, lits: seq<byte>, e: nat, out: seq<byte>)
    requires 4 <= |lits| <= LENGTH_LIMIT && |out| + |lits| <= cap
    requires Occurs(z, i, RunHeader(|lits|)) && Occurs(z, i + |RunHeader(|lits|)|, lits)
    requires e == i + |RunHeader(|lits|)| + |lits| && e + 3 <= |z| && z[e] >= 16
    ensures Leads(z, cap, At(Top, 0, i, out), At(Match, z[e], e + 1, out + lits))
  {
    hide Decode, RunHeader, Occurs, StepTop;
    RunIsTaken(z, cap, i, lits, e, out);
    LeadsStep(z, cap, At(Top, 0, i, out), At(FirstRun, 0, e, out + lits));
    LeadsStep(z, cap, At(FirstRun, 0, e, out + lits), At(Match, z[e], e + 1, out + lits));
  }

  /** The byte two before the end of `b` in the input tells what follows it. */
  lemma GapCount(z: seq<byte>, cap: nat, b: seq<byte>, k: nat, out: seq<byte>)
    requires |b| >= 2 && b[|b| - 2] % 4 == k && Occurs(z, 0, b) && |out| <= cap
    ensures Leads(z, cap, Gap(|b|, out), if k == 0 then At(Top, 0, |b|, out) else At(MatchNext, k, |b|, out))
  {
    hide Decode;
    assert z[|b| - 2] == z[0..|b|][|b| - 2];
    LeadsStep(z, cap, Gap(|b|, out), if k == 0 then At(Top, 0, |b|, out) else At(MatchNext, k, |b|, out));
  }

  lemma NoLiteralsReadBack(z: seq<byte>, cap: nat, b: seq<byte>, out: seq<byte>)
    requires Open(b) && b != [] && |out| <= cap && Occurs(z, 0, b)
    requires |b| + 3 <= |z| && z[|b|] >= 16
    ensures Leads(z, cap, Gap(|b|, out), At(Match, z[|b|], |b| + 1, out))
  {
    hide Decode;
    var e := |b|;
    GapCount(z, cap, b, 0, out);
    LeadsStep(z, cap, At(Top, 0, e, out), At(Match, z[e], e + 1, out));
  }

  lemma CountReadsBack(z: seq<byte>, cap: nat, i: nat, lits: seq<byte>, e: nat, out: seq<byte>)
    requires 1 <= |lits| <= 3 && |out| + |lits| <= cap && Occurs(z, i, lits)
    requires e == i + |lits| && e + 3 <= |z|
    ensures Leads(z, cap, At(MatchNext, |lits|, i, out), At(Match, z[e], e + 1, out + lits))
  {
    hide Decode;
    assert StepMatchNext(z, cap, |lits|, i, out) == At(Match, z[e], e + 1, out + lits);
    LeadsStep(z, cap, At(MatchNext, |lits|, i, out), At(Match, z[e], e + 1, out + lits));
  }

  /** A count of up to three literals stored in the reference before them. */
  lemma FewLiteralsReadBack(z: seq<byte>, cap: nat, b: seq<byte>, lits: seq<byte>, e: nat, out: seq<byte>)
    requires Open(b) && b != [] && 1 <= |lits| <= 3 && |out| + |lits| <= cap
    requires Occurs(z, 0, Patch(b, |lits|) + lits) && e == |b| + |lits| && e + 3 <= |z|
    ensures Leads(z, cap, Gap(|b|, out), At(Match, z[e], e + 1, out + lits))
  {
    hide Decode;
    OccursSplit(z, 0, Patch(b, |lits|), lits);
    GapCount(z, cap, Patch(b, |lits|), |lits|, out);
    CountReadsBack(z, cap, |b|, lits, e, out);
  }

  /** Four literals or more, with a header. */
  lemma ManyLiteralsReadBack(z: seq<byte>, cap: nat, b: seq<byte>, lits: seq<byte>, e: nat, out: seq<byte>)
    requires Open(b) && 4 <= |lits| <= LENGTH_LIMIT && |out| + |lits| <= cap
    requires Occurs(z, 0, b + RunHeader(|lits|) + lits)
    requires e == |b + RunHeader(|lits|) + lits| && e + 3 <= |z| && z[e] >= 16
    ensures Leads(z, cap, Gap(|b|, out), At(Match, z[e], e + 1, out + lits))
  {
    hide Decode;
    var h := RunHeader(|lits|);
    OccursSplit(z, 0, b + h, lits);
    OccursSplit(z, 0, b, h);
    RunReadsBack(z, cap, |b|, lits, e, out);
    if b != [] {
      GapCount(z, cap, b, 0, out);
    }
  }

  /** Literals laid out by `PutLiterals`, followed by an instruction byte. */
  lemma GapReadsBack(z: seq<byte>, cap: nat, b: seq<byte>, lits: seq<byte>, e: nat, out: seq<byte>)
    requires Open(b) && (b == [] ==> |lits| >= 4)
    requires |lits| <= LENGTH_LIMIT && |out| + |lits| <= cap
    requires Occurs(z, 0, PutLiterals(b, lits))
    requires e == |PutLiterals(b, lits)| && e + 3 <= |z| && z[e] >= 16
    ensures Leads(z, cap, Gap(|b|, out), At(Match, z[e], e + 1, out + lits))
  {
    hide Decode;
    if |lits| == 0 {
      assert out + lits == out;
      NoLiteralsReadBack(z, cap, b, out);
    } else if |lits| <= 3 {
      FewLiteralsReadBack(z, cap, b, lits, e, out);
    } else {
      ManyLiteralsReadBack(z, cap, b, lits, e, out);
    }
  }

  /** A reference, once its instruction byte is read, decodes to its copy. */
  lemma {:induction false} CopyReadsBack(z: seq<byte>, cap: nat, i: nat, off: nat, len: nat, e: nat, k: nat,
                                         out: seq<byte>)
    requires ReadsAs(z, i, off, len, e, k)
    requires 1 <= off <= |out| && |out| + len <= cap
    ensures Leads(z, cap, At(Match, z[i], i + 1, out), Gap(e, CopyBack(out, off, len)))
  {
    hide Decode;
    LeadsStep(z, cap, At(Match, z[i], i + 1, out), Gap(e, CopyBack(out, off, len)));
  }

  /** The bytes of some items with count `k` stored at their end. */
  function Patched(items: seq<Item>, k: nat): (b: seq<byte>)
    requires ValidItems(items) && k <= 3
    ensures |b| == |Encode(items)|
  {
    if items == [] then [] else Patch(Encode(items), k)
  }

  lemma {:induction false} RestIsValid(rest: seq<Item>, it: Item)
    requires ValidItems(rest + [it])
    ensures ValidItems(rest)
  {
    hide Expand;
    assert (rest + [it])[..|rest|] == rest;
  }

  lemma {:induction false} EncodeIsOpen(items: seq<Item>)
    requires ValidItems(items)
    ensures Open(Encode(items)) && (Encode(items) == [] <==> items == [])
  {
    hide Expand, MatchBytes, PutLiterals;
  }

  /** A count is patched into the last reference. */
  lemma {:induction false} PatchedLast(rest: seq<Item>, it: Item, k: nat)
    requires ValidItems(rest + [it]) && ValidItems(rest) && k <= 3 && it.len >= 3 && 1 <= it.off <= M4_MAX_OFFSET
    requires rest == [] ==> |it.lits| >= 4
    requires Encode(rest + [it]) == PutLiterals(Encode(rest), it.lits) + MatchBytes(it.off, it.len)
    ensures Patched(rest + [it], k) == PutLiterals(Encode(rest), it.lits) + Patch(MatchBytes(it.off, it.len), k)
  {
    hide MatchBytes, PutLiterals, Encode, ValidItems, Patch;
    EncodeIsOpen(rest);
    EncodeIsOpen(rest + [it]);
    PatchAppend(PutLiterals(Encode(rest), it.lits), MatchBytes(it.off, it.len), k);
  }

  /** The bytes of items, patched with any count, split before the last reference. */
  lemma {:induction false} PatchedSplit(z: seq<byte>, rest: seq<Item>, it: Item, k: nat)
    requires ValidItems(rest + [it]) && k <= 3 && Occurs(z, 0, Patched(rest + [it], k))
    ensures ValidItems(rest) && (rest == [] ==> |it.lits| >= 4) && it.len >= 3 && 1 <= it.off <= M4_MAX_OFFSET
    ensures var p := PutLiterals(Encode(rest), it.lits);
            var m := MatchBytes(it.off, it.len);
            && Occurs(z, 0, p) && Occurs(z, |p|, Patch(m, k))
            && |Encode(rest + [it])| == |p| + |m|
  {
    hide MatchBytes, PutLiterals, Occurs, Encode, Expand, ValidItems, CopyBack, Patched, Patch;
    RestIsValid(rest, it);
    ItemsAppend(rest, it);
    PatchedLast(rest, it, k);
    OccursSplit(z, 0, PutLiterals(Encode(rest), it.lits), Patch(MatchBytes(it.off, it.len), k));
  }

  /** A reference laid out at `p` is recognised and copied. */
  lemma {:induction false} ReferenceReadsBack(z: seq<byte>, cap: nat, off: nat, len: nat, k: nat, p: nat, e: nat,
                                              out: seq<byte>)
    requires 3 <= len <= LENGTH_LIMIT && 1 <= off <= M4_MAX_OFFSET && k <= 3
    requires off <= |out| && |out| + len <= cap
    requires Occurs(z, p, Patch(MatchBytes(off, len), k)) && e == p + |MatchBytes(off, len)| && e + 1 <= |z|
    ensures p + 3 <= |z| && z[p] >= 16
    ensures Leads(z, cap, At(Match, z[p], p + 1, out), Gap(e, CopyBack(out, off, len)))
  {
    hide Decode, MatchBytes, Instruction, Step;
    MatchReadsBack(z, p, off, len, k);
    CopyReadsBack(z, cap, p, off, len, e, k, out);
  }

  /** The last reference of some items is recognised and copied. */
  lemma {:induction false} LastReference(z: seq<byte>, cap: nat, rest: seq<Item>, it: Item, k: nat, p: nat,
                                         out: seq<byte>)
    requires ValidItems(rest + [it]) && k <= 3 && Occurs(z, 0, Patched(rest + [it], k))
    requires |Encode(rest + [it])| + 1 <= |z|
    requires it.off <= |out| && |out| + it.len <= cap && it.len <= LENGTH_LIMIT
    requires ValidItems(rest) && (rest == [] ==> |it.lits| >= 4) && p == |PutLiterals(Encode(rest), it.lits)|
    ensures it.off >= 1
    ensures Occurs(z, 0, PutLiterals(Encode(rest), it.lits))
    ensures p + 3 <= |z| && z[p] >= 16
    ensures Leads(z, cap, At(Match, z[p], p + 1, out), Gap(|Encode(rest + [it])|, CopyBack(out, it.off, it.len)))
  {
    hide Decode, MatchBytes, Step;
    PatchedSplit(z, rest, it, k);
    ReferenceReadsBack(z, cap, it.off, it.len, k, p, |Encode(rest + [it])|, out);
  }

  /** The count that `PutLiterals` stores in the reference before the literals. */
  function StoredCount(lits: seq<byte>): nat {
    if |lits| <= 3 then |lits| else 0
  }

  lemma HeaderStarts(z: seq<byte>, n: nat)
    requires n >= 4 && Occurs(z, 0, [] + RunHeader(n))
    ensures |z| >= 1 && z[0] <= 17 && Occurs(z, 0, [])
  {
    var h := RunHeader(n);
    assert [] + h == h;
    assert z[0] == z[0..|h|][0] == h[0];
  }

  lemma {:induction false} PutLiteralsStart(z: seq<byte>, rest: seq<Item>, lits: seq<byte>)
    requires ValidItems(rest) && (rest == [] ==> |lits| >= 4)
    requires Occurs(z, 0, PutLiterals(Encode(rest), lits))
    ensures StoredCount(lits) <= 3 && Occurs(z, 0, Patched(rest, StoredCount(lits)))
    ensures rest == [] ==> |z| >= 1 && z[0] <= 17
  {
    hide Encode, Expand, ValidItems, RunHeader, Occurs;
    EncodeIsOpen(rest);
    var b := Encode(rest);
    if |lits| == 0 {
      assert Patch(b, 0) == b;
    } else if |lits| <= 3 {
      OccursSplit(z, 0, Patch(b, |lits|), lits);
    } else {
      var h := RunHeader(|lits|);
      OccursSplit(z, 0, b + h, lits);
      OccursSplit(z, 0, b, h);
      if rest == [] {
        HeaderStarts(z, |lits|);
      } else {
        assert Patch(b, 0) == b;
      }
    }
  }

  lemma StartAtTop(z: seq<byte>, cap: nat)
    requires |z| >= 1 && z[0] <= 17
    ensures Leads(z, cap, Start(z, cap), Gap(0, []))
  {
  }

  /** From the end of some items to the end of one more. */
  lemma {:induction false} NextItemReadsBack(z: seq<byte>, cap: nat, rest: seq<Item>, it: Item, k: nat)
    requires ValidItems(rest) && ValidItems(rest + [it]) && k <= 3 && Occurs(z, 0, Patched(rest + [it], k))
    requires |Encode(rest + [it])| + 1 <= |z|
    requires |Expand(rest + [it])| <= cap && |Expand(rest + [it])| <= LENGTH_LIMIT
    ensures rest == [] ==> |it.lits| >= 4
    ensures Occurs(z, 0, PutLiterals(Encode(rest), it.lits))
    ensures |Expand(rest)| <= |Expand(rest + [it])| && |Encode(rest)| <= |Encode(rest + [it])|
    ensures Leads(z, cap, Gap(|Encode(rest)|, Expand(rest)), Gap(|Encode(rest + [it])|, Expand(rest + [it])))
  {
    ItemsAppend(rest, it);
    PutLiteralsGrows(Encode(rest), it.lits);
    hide Decode, MatchBytes, Step, CopyBack, PutLiterals, Encode, Expand, ValidItems, Occurs, Patched;
    var out := Expand(rest);
    var p := |PutLiterals(Encode(rest), it.lits)|;
    LastReference(z, cap, rest, it, k, p, out + it.lits);
    GapReadsBack(z, cap, Encode(rest), it.lits, p, out);
  }

  /** After the bytes of some items, patched with any count, the decompressor stands
      behind the last reference and has written what the items stand for. */
  lemma {:induction false} ItemsReadBack(z: seq<byte>, cap: nat, items: seq<Item>, k: nat, start: State)
    requires ValidItems(items) && |Expand(items)| <= cap && |Expand(items)| <= LENGTH_LIMIT && k <= 3
    requires Occurs(z, 0, Patched(items, k))
    requires |Encode(items)| + 1 <= |z| && (items == [] ==> z[0] <= 17)
    requires z[0] <= 17 ==> Leads(z, cap, start, Gap(0, []))
    ensures Leads(z, cap, start, Gap(|Encode(items)|, Expand(items)))
    decreases |items|
  {
    hide MatchBytes, Occurs, Decode, PutLiterals;
    if items != [] {
      var rest, it := items[..|items| - 1], items[|items| - 1];
      assert items == rest + [it];
      NextItemReadsBack(z, cap, rest, it, k);
      RestReadsBack(z, cap, rest, it.lits, start);
    }
  }

  /** The items before some literals, read back. */
  lemma {:induction false} RestReadsBack(z: seq<byte>, cap: nat, rest: seq<Item>, lits: seq<byte>, start: State)
    requires ValidItems(rest) && |Expand(rest)| <= cap && |Expand(rest)| <= LENGTH_LIMIT
    requires (rest == [] ==> |lits| >= 4) && Occurs(z, 0, PutLiterals(Encode(rest), lits))
    requires |Encode(rest)| + 1 <= |z|
    requires |z| >= 1 && z[0] <= 17 ==> Leads(z, cap, start, Gap(0, []))
    ensures Leads(z, cap, start, Gap(|Encode(rest)|, Expand(rest)))
    decreases |rest| + 1, 0
  {
    hide Decode, MatchBytes, PutLiterals;
    PutLiteralsStart(z, rest, lits);
    ItemsReadBack(z, cap, rest, StoredCount(lits), start);
  }

  /** The end marker as the last instruction ends the run successfully. */
  lemma EofReadsBack(z: seq<byte>, cap: nat, i: nat, out: seq<byte>)
    requires Occurs(z, i, EOF_BYTES) && i + 3 == |z| && |out| <= cap
    ensures z[i] == 17 && Leads(z, cap, At(Match, z[i], i + 1, out), Done(Outcome(OK, out)))
  {
    hide Decode;
    assert z[i] == EOF_BYTES[0] && z[i + 1] == EOF_BYTES[1] && z[i + 2] == EOF_BYTES[2];
    assert Instruction(z, 17, i + 1) == Eof(i + 3);
    LeadsStep(z, cap, At(Match, z[i], i + 1, out), Done(Outcome(OK, out)));
  }

  /** A stream of literals alone, announced by its first byte. */
  lemma ShortStreamReadsBack(z: seq<byte>, tail: seq<byte>, cap: nat)
    requires 1 <= |tail| <= 238 && |tail| <= cap
    requires z == [17 + |tail|] + tail + EOF_BYTES
    ensures Leads(z, cap, Start(z, cap), Done(Outcome(OK, tail)))
  {
    hide Decode;
    var e := 1 + |tail|;
    assert z[1..e] == tail && z[e..e + 3] == EOF_BYTES;
    EofReadsBack(z, cap, e, tail);
    assert [] + tail == tail;
    if |tail| <= 3 {
      CountReadsBack(z, cap, 1, tail, e, []);
    } else {
      assert Start(z, cap) == At(FirstRun, 0, e, tail);
      LeadsStep(z, cap, At(FirstRun, 0, e, tail), At(Match, z[e], e + 1, tail));
    }
  }

  lemma EmptyStreamReadsBack(z: seq<byte>, cap: nat)
    requires z == EOF_BYTES
    ensures Leads(z, cap, Start(z, cap), Done(Outcome(OK, [])))
  {
    hide Decode;
    EofReadsBack(z, cap, 0, []);
    LeadsStep(z, cap, At(Top, 0, 0, []), At(Match, z[0], 1, []));
  }

  lemma {:induction false} LongStreamReadsBack(z: seq<byte>, items: seq<Item>, tail: seq<byte>, cap: nat, start: State)
    requires ValidItems(items) && (items == [] ==> |tail| >= 4)
    requires |Expand(items)| + |tail| <= cap && |Expand(items)| + |tail| <= LENGTH_LIMIT
    requires z == PutLiterals(Encode(items), tail) + EOF_BYTES
    requires z[0] <= 17 ==> Leads(z, cap, start, Gap(0, []))
    ensures Leads(z, cap, start, Done(Outcome(OK, Expand(items) + tail)))
  {
    hide MatchBytes, Decode, Occurs, PutLiterals, Encode, Expand, Ready;
    var p := PutLiterals(Encode(items), tail);
    assert |p| >= |Encode(items)| by { PutLiteralsGrows(Encode(items), tail); }
    OccursParts(p, EOF_BYTES);
    EofReadsBack(z, cap, |p|, Expand(items) + tail);
    GapReadsBack(z, cap, Encode(items), tail, |p|, Expand(items));
    RestReadsBack(z, cap, items, tail, start);
  }

  lemma PutLiteralsGrows(b: seq<byte>, lits: seq<byte>)
    requires Open(b) && (b == [] ==> |lits| >= 4)
    ensures |PutLiterals(b, lits)| >= |b| + |lits|
  {
  }

  /** Decoding undoes encoding, for every valid sequence of items and every tail. */
  lemma {:induction false} StreamReadsBack(items: seq<Item>, tail: seq<byte>, cap: nat)
    requires ValidItems(items)
    requires |Expand(items)| + |tail| <= cap && |Expand(items)| + |tail| <= LENGTH_LIMIT
    ensures Decompressed(Stream(items, tail), cap) == Outcome(OK, Expand(items) + tail)
  {
    var z := Stream(items, tail);
    if items == [] && 1 <= |tail| <= 238 {
      ShortStreamReadsBack(z, tail, cap);
      assert [] + tail == tail;
    } else if items == [] && tail == [] {
      EmptyStreamReadsBack(z, cap);
    } else {
      if z[0] <= 17 {
        StartAtTop(z, cap);
      }
      LongStreamReadsBack(z, items, tail, cap, Start(z, cap));
    }
  }
}
