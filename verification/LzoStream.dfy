/** The language of LZO1X streams, read from front to back: an opening, references with the
    literals after each, and an end marker. The decompressor accepts exactly these, also the
    layouts that the compressor never uses. */
module LzoStream {
  import opened Words
  import opened LzoFormat
  import opened LzoDecode
  import opened LzoRoundTrip

  // ---------- The language

  /** A reference and the literals after it. */
  datatype Part = Part(form: Form, off: nat, len: nat, lits: seq<byte>)

  /** Literals after a reference: up to three are counted in it, more have a header. */
  function GapBytes(lits: seq<byte>): seq<byte> {
    if |lits| <= 3 then lits else RunHeader(|lits|) + lits
  }

  predicate LegibleRun(n: nat) {
    LegibleBeyond(18, n)
  }

  predicate LegibleRef(form: Form, len: nat) {
    && (form == Middle ==> LegibleBeyond(M3_MAX_LEN, len))
    && (form == Far ==> LegibleBeyond(M4_MAX_LEN, len))
  }

  /** A reference of two bytes is told from a run of literals by the one to three literals before
      it, and one of three bytes far back by the run before it. */
  predicate Placeable(form: Form, n: nat) {
    && (form == Pair ==> 1 <= n <= 3)
    && (form == Triple ==> n >= 4)
  }

  /** References that reach into what has been written, `done` bytes of which the last `n` are
      literals. */
  predicate ValidParts(done: nat, n: nat, parts: seq<Part>)
    decreases |parts|
  {
    parts == [] ||
    (var p := parts[0];
     && Fits(p.form, p.off, p.len) && Placeable(p.form, n) && p.off <= done
     && LegibleRef(p.form, p.len) && LegibleRun(|p.lits|)
     && ValidParts(done + p.len + |p.lits|, |p.lits|, parts[1..]))
  }

  function PartBytes(p: Part): seq<byte>
    requires Fits(p.form, p.off, p.len)
  {
    Patch(RefBytes(p.form, p.off, p.len), StoredCount(p.lits)) + GapBytes(p.lits)
  }

  function PartsBytes(done: nat, n: nat, parts: seq<Part>): seq<byte>
    requires ValidParts(done, n, parts)
    decreases |parts|
  {
    if parts == [] then []
    else
      var p := parts[0];
      PartBytes(p) + PartsBytes(done + p.len + |p.lits|, |p.lits|, parts[1..])
  }

  /** What the parts write after `out`. */
  function Meaning(out: seq<byte>, n: nat, parts: seq<Part>): (text: seq<byte>)
    requires ValidParts(|out|, n, parts)
    ensures out <= text
    decreases |parts|
  {
    if parts == [] then out
    else
      var p := parts[0];
      Meaning(CopyBack(out, p.off, p.len) + p.lits, |p.lits|, parts[1..])
  }

  /** How the literals before the first reference are announced. */
  datatype Opening = Usual | Special

  predicate Opens(o: Opening, n: nat) {
    if o.Special? then 1 <= n <= 238 else n == 0 || n >= 4
  }

  function OpeningBytes(o: Opening, lits: seq<byte>): seq<byte>
    requires Opens(o, |lits|)
  {
    if o.Special? then [17 + |lits|] + lits else GapBytes(lits)
  }

  /** The end marker is a distant reference with offset zero, of any length and count. */
  function MarkBytes(len: nat, k: nat): (b: seq<byte>)
    requires len >= 3 && k <= 3
    ensures |b| >= 3
  {
    Head(16, M4_MAX_LEN, len) + [k, 0]
  }

  datatype Stream = Stream(opening: Opening, lits: seq<byte>, parts: seq<Part>, markLen: nat, markCount: nat)

  /** The first byte of a stream without literals must not look like an opening. */
  predicate ValidStream(s: Stream) {
    && Opens(s.opening, |s.lits|) && LegibleRun(|s.lits|) && ValidParts(|s.lits|, |s.lits|, s.parts)
    && s.markLen >= 3 && LegibleBeyond(M4_MAX_LEN, s.markLen) && s.markCount <= 3
    && (s.lits == [] ==> s.markLen == 3 || s.markLen > M4_MAX_LEN)
  }

  function Bytes(s: Stream): seq<byte>
    requires ValidStream(s)
  {
    OpeningBytes(s.opening, s.lits)
    + (PartsBytes(|s.lits|, |s.lits|, s.parts) + MarkBytes(s.markLen, s.markCount))
  }

  function Text(s: Stream): seq<byte>
    requires ValidStream(s)
  {
    Meaning(s.lits, |s.lits|, s.parts)
  }

  /** The bytes are a stream that stands for the text. */
  ghost predicate StandsFor(z: seq<byte>, text: seq<byte>) {
    exists s :: ValidStream(s) && Bytes(s) == z && Text(s) == text
  }

  // ---------- Reading a stream

  /** The decompressor after `n` literals, where an instruction is due. */
  function Due(z: seq<byte>, e: nat, n: nat, out: seq<byte>): State
    requires e < |z|
  {
    if n >= 4 then At(FirstRun, 0, e, out) else At(Match, z[e], e + 1, out)
  }

  /** After no literals it has to be an instruction that cannot be taken for a run. */
  predicate DueReady(z: seq<byte>, cap: nat, e: nat, n: nat, out: seq<byte>) {
    e + 3 <= |z| && |out| <= cap && (n == 0 ==> z[e] >= 16)
  }

  lemma ShortRefReads(z: seq<byte>, i: nat, form: Form, off: nat, len: nat, k: nat)
    requires (form.Pair? || form.Triple?) && Fits(form, off, len) && k <= 3
    requires Occurs(z, i, Patch(RefBytes(form, off, len), k))
    ensures i + 2 <= |z| && z[i] < 16 && z[i] % 4 == k
    ensures off == 1 + z[i] / 4 + (z[i + 1] as int) * 4 + if form.Triple? then M2_MAX_OFFSET else 0
  {
    var b := Patch(RefBytes(form, off, len), k);
    assert z[i] == z[i..i + 2][0] == b[0] && z[i + 1] == z[i..i + 2][1] == b[1];
    var o := if form.Triple? then off - 1 - M2_MAX_OFFSET else off - 1;
    assert b[0] == o % 4 * 4 + k && b[1] == o / 4;
    CountOut(o % 4, k);
  }

  lemma CountOut(q: nat, k: nat)
    requires k <= 3
    ensures (q * 4 + k) / 4 == q && (q * 4 + k) % 4 == k
  {
  }

  lemma LongRefReads(z: seq<byte>, i: nat, form: Form, off: nat, len: nat, k: nat)
    requires (form.Near? || form.Middle? || form.Far?) && Fits(form, off, len) && k <= 3 && LegibleRef(form, len)
    requires Occurs(z, i, Patch(RefBytes(form, off, len), k)) && i + |RefBytes(form, off, len)| + 1 <= |z|
    ensures ReadsAs(z, i, off, len, i + |RefBytes(form, off, len)|, k)
  {
    hide ReadsAs, Head, OffsetBytes, Patch, Occurs;
    match form
    case Near => NearMatchReadsBack(z, i, off, len, k);
    case Middle => M3ReadsBack(z, i, off, len, k);
    case Far => M4ReadsBack(z, i, off - 0x4000, len, k);
  }

  /** A reference that is due is copied, and its count lies two bytes before its end. */
  lemma {:induction false} RefReads(z: seq<byte>, cap: nat, e: nat, n: nat, out: seq<byte>, form: Form, off: nat,
                                    len: nat, k: nat)
    requires Fits(form, off, len) && Placeable(form, n) && LegibleRef(form, len) && k <= 3
    requires off <= |out| && |out| + len <= cap
    requires Occurs(z, e, Patch(RefBytes(form, off, len), k)) && e + |RefBytes(form, off, len)| + 1 <= |z|
    ensures var e' := e + |RefBytes(form, off, len)|;
            && DueReady(z, cap, e, n, out) && e + 2 <= e' && z[e' - 2] % 4 == k
            && Leads(z, cap, Due(z, e, n, out), Gap(e', CopyBack(out, off, len)))
  {
    hide Decode, RefBytes, CopyBack, Patch, Occurs, Step, Instruction;
    if form.Pair? || form.Triple? {
      ShortRefIsCopied(z, cap, e, n, out, form, off, len, k);
    } else {
      LongRefReads(z, e, form, off, len, k);
      CopyReadsBack(z, cap, e, off, len, e + |RefBytes(form, off, len)|, k, out);
      InstructionIsDue(z, cap, e, n, out);
    }
  }

  lemma InstructionIsDue(z: seq<byte>, cap: nat, e: nat, n: nat, out: seq<byte>)
    requires e + 3 <= |z| && |out| <= cap && z[e] >= 16
    ensures DueReady(z, cap, e, n, out) && Leads(z, cap, Due(z, e, n, out), At(Match, z[e], e + 1, out))
  {
    hide Decode;
    if n >= 4 {
      LeadsStep(z, cap, Due(z, e, n, out), At(Match, z[e], e + 1, out));
    }
  }

  lemma {:induction false} ShortRefIsCopied(z: seq<byte>, cap: nat, e: nat, n: nat, out: seq<byte>, form: Form,
                                            off: nat, len: nat,
                         k: nat)
    requires (form.Pair? || form.Triple?) && Fits(form, off, len) && Placeable(form, n) && k <= 3
    requires off <= |out| && |out| + len <= cap && e + 3 <= |z|
    requires Occurs(z, e, Patch(RefBytes(form, off, len), k))
    ensures |RefBytes(form, off, len)| == 2 && z[e] % 4 == k
    ensures DueReady(z, cap, e, n, out)
    ensures Leads(z, cap, Due(z, e, n, out), Gap(e + 2, CopyBack(out, off, len)))
  {
    hide Decode, RefBytes, CopyBack, Patch, Occurs;
    ShortRefSize(form, off, len);
    ShortRefReads(z, e, form, off, len, k);
    LeadsStep(z, cap, Due(z, e, n, out), Gap(e + 2, CopyBack(out, off, len)));
  }

  lemma ShortRefSize(form: Form, off: nat, len: nat)
    requires (form.Pair? || form.Triple?) && Fits(form, off, len)
    ensures |RefBytes(form, off, len)| == 2
  {
  }

  /** Literals after a reference are taken, and the next instruction is due. */
  lemma GapReads(z: seq<byte>, cap: nat, p: nat, lits: seq<byte>, out: seq<byte>)
    requires 2 <= p && Occurs(z, p, GapBytes(lits)) && z[p - 2] % 4 == StoredCount(lits) && LegibleRun(|lits|)
    requires DueReady(z, cap, p + |GapBytes(lits)|, |lits|, out + lits)
    ensures Leads(z, cap, Gap(p, out), Due(z, p + |GapBytes(lits)|, |lits|, out + lits))
  {
    hide Decode, RunHeader, TakeLiterals;
    var e, k := p + |GapBytes(lits)|, StoredCount(lits);
    LeadsStep(z, cap, Gap(p, out), if k == 0 then At(Top, 0, p, out) else At(MatchNext, k, p, out));
    if |lits| == 0 {
      assert out + lits == out;
      LeadsStep(z, cap, At(Top, 0, p, out), Due(z, e, 0, out));
    } else if |lits| <= 3 {
      CountReadsBack(z, cap, p, lits, e, out);
    } else {
      OccursSplit(z, p, RunHeader(|lits|), lits);
      RunIsTaken(z, cap, p, lits, e, out);
      LeadsStep(z, cap, At(Top, 0, p, out), Due(z, e, |lits|, out + lits));
    }
  }

  /** The end marker that is due ends the decoding, with OK if nothing follows. */
  lemma MarkReads(z: seq<byte>, cap: nat, e: nat, n: nat, out: seq<byte>, len: nat, k: nat)
    requires len >= 3 && LegibleBeyond(M4_MAX_LEN, len) && k <= 3 && |out| <= cap
    requires Occurs(z, e, MarkBytes(len, k))
    ensures var code := if e + |MarkBytes(len, k)| == |z| then OK else InputNotConsumed;
            DueReady(z, cap, e, n, out) && Leads(z, cap, Due(z, e, n, out), Done(Outcome(code, out)))
  {
    hide Decode, MarkBytes, Instruction;
    MarkIsEof(z, e, len, k);
    var code := if e + |MarkBytes(len, k)| == |z| then OK else InputNotConsumed;
    LeadsStep(z, cap, At(Match, z[e], e + 1, out), Done(Outcome(code, out)));
    InstructionIsDue(z, cap, e, n, out);
  }

  lemma MarkIsEof(z: seq<byte>, e: nat, len: nat, k: nat)
    requires len >= 3 && LegibleBeyond(M4_MAX_LEN, len) && k <= 3 && Occurs(z, e, MarkBytes(len, k))
    ensures e + 3 <= |z| && z[e] >= 16 && Instruction(z, z[e], e + 1) == Eof(e + |MarkBytes(len, k)|)
  {
    hide Head, MatchLength;
    var head := Head(16, M4_MAX_LEN, len);
    OccursSplit(z, e, head, [k, 0]);
    HeadReadsBack(z, e, 16, M4_MAX_LEN, len);
    var p := e + |head|;
    assert z[p] == z[p..p + 2][0] && z[p + 1] == z[p..p + 2][1];
    CountOut(0, k);
  }

  /** How many literals come before what follows the parts. */
  function Last(n: nat, parts: seq<Part>): nat {
    if parts == [] then n else |parts[|parts| - 1].lits|
  }

  /** The parts of a stream are read to what they stand for, and something is due. */
  lemma {:induction false} PartsLead(z: seq<byte>, cap: nat, e: nat, n: nat, out: seq<byte>, parts: seq<Part>)
    requires ValidParts(|out|, n, parts) && Occurs(z, e, PartsBytes(|out|, n, parts))
    requires DueReady(z, cap, e + |PartsBytes(|out|, n, parts)|, Last(n, parts), Meaning(out, n, parts))
    ensures var end := e + |PartsBytes(|out|, n, parts)|;
            && DueReady(z, cap, e, n, out)
            && Leads(z, cap, Due(z, e, n, out), Due(z, end, Last(n, parts), Meaning(out, n, parts)))
    decreases |parts|
  {
    hide Decode, RefBytes, GapBytes, Occurs, CopyBack, Patch, Placeable, LegibleRef, LegibleRun, StoredCount;
    if parts != [] {
      var p, rest := parts[0], parts[1..];
      var out' := CopyBack(out, p.off, p.len) + p.lits;
      var ref, gap := Patch(RefBytes(p.form, p.off, p.len), StoredCount(p.lits)), GapBytes(p.lits);
      var after := PartsBytes(|out'|, |p.lits|, rest);
      assert PartsBytes(|out|, n, parts) == ref + (gap + after);
      OccursSplit(z, e, ref, gap + after);
      OccursSplit(z, e + |ref|, gap, after);
      PartsLead(z, cap, e + |ref| + |gap|, |p.lits|, out', rest);
      RefReads(z, cap, e, n, out, p.form, p.off, p.len, StoredCount(p.lits));
      GapReads(z, cap, e + |ref|, p.lits, CopyBack(out, p.off, p.len));
    }
  }

  /** The literals of the opening are taken. */
  lemma OpeningReads(z: seq<byte>, cap: nat, o: Opening, lits: seq<byte>)
    requires Opens(o, |lits|) && LegibleRun(|lits|) && Occurs(z, 0, OpeningBytes(o, lits))
    requires DueReady(z, cap, |OpeningBytes(o, lits)|, |lits|, lits)
    requires lits == [] ==> z[0] <= 17
    ensures Leads(z, cap, Start(z, cap), Due(z, |OpeningBytes(o, lits)|, |lits|, lits))
  {
    hide Decode, Due, GapBytes;
    if o.Special? {
      SpecialReads(z, cap, lits);
    } else {
      UsualReads(z, cap, lits);
    }
  }

  lemma SpecialReads(z: seq<byte>, cap: nat, lits: seq<byte>)
    requires Opens(Special, |lits|) && Occurs(z, 0, [17 + |lits|] + lits)
    requires DueReady(z, cap, 1 + |lits|, |lits|, lits)
    ensures Leads(z, cap, Start(z, cap), Due(z, 1 + |lits|, |lits|, lits))
  {
    hide Decode, Occurs, Step;
    var e := 1 + |lits|;
    assert [] + lits == lits;
    OccursSplit(z, 0, [17 + |lits|], lits);
    ByteAt(z, 0, 17 + |lits|);
    TextAt(z, 1, lits);
    if |lits| <= 3 {
      CountReadsBack(z, cap, 1, lits, e, []);
    }
  }

  lemma ByteAt(z: seq<byte>, i: nat, b: byte)
    requires Occurs(z, i, [b])
    ensures i < |z| && z[i] == b
  {
    assert z[i..i + 1][0] == b;
  }

  lemma TextAt(z: seq<byte>, i: nat, t: seq<byte>)
    requires Occurs(z, i, t)
    ensures i + |t| <= |z| && z[i..i + |t|] == t
  {
  }

  lemma UsualReads(z: seq<byte>, cap: nat, lits: seq<byte>)
    requires Opens(Usual, |lits|) && LegibleRun(|lits|) && Occurs(z, 0, GapBytes(lits))
    requires DueReady(z, cap, |GapBytes(lits)|, |lits|, lits)
    requires lits == [] ==> z[0] <= 17
    ensures Leads(z, cap, Start(z, cap), Due(z, |GapBytes(lits)|, |lits|, lits))
  {
    hide Decode, RunHeader, Occurs, TakeLiterals;
    var e := |GapBytes(lits)|;
    if lits == [] {
      LeadsStep(z, cap, Start(z, cap), Due(z, e, 0, lits));
    } else {
      OccursSplit(z, 0, RunHeader(|lits|), lits);
      HeaderReadsBack(z, 0, |lits|);
      RunIsTaken(z, cap, 0, lits, e, []);
      assert [] + lits == lits;
      LeadsStep(z, cap, At(Top, 0, 0, []), Due(z, e, |lits|, lits));
    }
  }

  /** Without literals nothing can be referred to. */
  lemma {:induction false} NoParts(parts: seq<Part>)
    requires ValidParts(0, 0, parts)
    ensures parts == []
  {
  }

  /** Every stream, and what comes behind it, is read to what it stands for. */
  lemma {:induction false} StreamReads(s: Stream, behind: seq<byte>, cap: nat)
    requires ValidStream(s) && |Text(s)| <= cap
    ensures Decompressed(Bytes(s) + behind, cap)
            == Outcome(if behind == [] then OK else InputNotConsumed, Text(s))
  {
    hide Decode, MarkBytes, OpeningBytes, PartsBytes, Meaning, Occurs, Start;
    var z := Bytes(s) + behind;
    var n := |s.lits|;
    var opening, mark := OpeningBytes(s.opening, s.lits), MarkBytes(s.markLen, s.markCount);
    var rest := PartsBytes(n, n, s.parts) + mark;
    OccursParts(opening, rest + behind);
    assert z == opening + (rest + behind);
    OccursSplit(z, |opening|, rest, behind) by {
      assert Occurs(z, |opening|, rest + behind);
    }
    var parts := PartsBytes(n, n, s.parts);
    OccursSplit(z, |opening|, parts, mark);
    MarkReads(z, cap, |opening| + |parts|, Last(n, s.parts), Text(s), s.markLen, s.markCount);
    PartsLead(z, cap, |opening|, n, s.lits, s.parts);
    if s.lits == [] {
      NoLiteralsStart(z, s);
    }
    OpeningReads(z, cap, s.opening, s.lits);
    Returned(z, cap, Outcome(if behind == [] then OK else InputNotConsumed, Text(s)));
  }

  lemma {:induction false} Returned(z: seq<byte>, cap: nat, r: Outcome)
    requires |r.out| <= cap
    ensures Decode(z, cap, Done(r)) == r
  {
  }

  lemma NoLiteralsStart(z: seq<byte>, s: Stream)
    requires ValidStream(s) && s.lits == [] && Bytes(s) <= z
    ensures |z| > 0 && z[0] <= 17
  {
    NoParts(s.parts);
    var mark := MarkBytes(s.markLen, s.markCount);
    assert Bytes(s) == mark;
    assert z[0] == mark[0];
  }

  // ---------- What is read is a stream

  lemma {:induction false} LengthSpelled(z: seq<byte>, ip: nat, t: nat) returns (n: nat)
    requires ip < |z| && t <= LENGTH_LIMIT && ReadLength(z, ip, t).Length?
    ensures n >= 1 && ReadLength(z, ip, t) == Length(ip + |LengthBytes(n)|, t + n) && Occurs(z, ip, LengthBytes(n))
    ensures t + (n - 1) / 255 * 255 <= LENGTH_LIMIT
    decreases |z| - ip
  {
    hide Occurs;
    OccursByte(z, ip);
    if z[ip] != 0 {
      n := z[ip];
    } else {
      var rest := LengthSpelled(z, ip + 1, t + 255);
      n := rest + 255;
      OccursJoin(z, ip, [z[ip]], LengthBytes(rest));
    }
  }

  lemma {:induction false} HeadSpelled(z: seq<byte>, i: nat, marker: byte, max: nat) returns (len: nat)
    requires i + 3 <= |z| && 3 <= max && marker + max < 256 && marker <= z[i] <= marker + (max - 2)
    requires MatchLength(z, i + 1, z[i] - marker, max - 2).Length?
    ensures len >= 3 && LegibleBeyond(max, len) && Occurs(z, i, Head(marker, max, len))
    ensures MatchLength(z, i + 1, z[i] - marker, max - 2) == Length(i + |Head(marker, max, len)|, len - 2)
  {
    hide Occurs, LengthBytes;
    OccursByte(z, i);
    if z[i] == marker {
      var n := LengthSpelled(z, i + 1, 0);
      len := n + max;
      OccursJoin(z, i, [z[i]], LengthBytes(n));
    } else {
      len := z[i] - marker + 2;
    }
  }

  lemma OffsetSpelled(z: seq<byte>, p: nat, o: nat)
    requires p + 2 <= |z| && o % 0x4000 == Offset14(z, p)
    ensures Occurs(z, p, Patch(OffsetBytes(o), z[p] % 4))
  {
    OccursTwo(z, p);
    OffsetParts(o, 0);
    OffsetTaken(z[p], z[p + 1], o % 64, o / 64 % 256);
  }

  lemma OffsetTaken(a: byte, b: byte, low: nat, high: nat)
    requires low < 64 && a / 4 + (b as int) * 64 == high * 64 + low
    ensures a / 4 == low && b == high && low * 4 + a % 4 == a
  {
  }

  /** The parts of a distant reference. */
  lemma {:induction false} DistantSpelled(z: seq<byte>, i: nat, marker: byte, max: nat, o: nat, len: nat)
    requires len >= 3 && 3 <= max && marker + max < 256 && Occurs(z, i, Head(marker, max, len))
    requires var p := i + |Head(marker, max, len)|; p + 2 <= |z| && o % 0x4000 == Offset14(z, p)
    ensures var p := i + |Head(marker, max, len)|;
            Occurs(z, i, Patch(Head(marker, max, len) + OffsetBytes(o), z[p] % 4))
  {
    hide Head, OffsetBytes, Patch, Occurs;
    var head := Head(marker, max, len);
    var p := i + |head|;
    OffsetSpelled(z, p, o);
    PatchAppend(head, OffsetBytes(o), z[p] % 4);
    OccursJoin(z, i, head, Patch(OffsetBytes(o), z[p] % 4));
  }

  /** An instruction that is a copy is the layout of a reference. */
  lemma {:induction false} CopySpelled(z: seq<byte>, e: nat) returns (form: Form)
    requires e + 3 <= |z| && z[e] >= 16 && Instruction(z, z[e], e + 1).Copy?
    ensures var r := Instruction(z, z[e], e + 1);
            && Fits(form, r.off, r.len) && LegibleRef(form, r.len) && !form.Pair? && !form.Triple?
            && r.ip == e + |RefBytes(form, r.off, r.len)| && e + 2 <= r.ip <= |z|
            && Occurs(z, e, Patch(RefBytes(form, r.off, r.len), z[r.ip - 2] % 4))
  {
    hide MatchLength, Head, LengthBytes;
    var t, r := z[e], Instruction(z, z[e], e + 1);
    if t >= 64 {
      form := Near;
      NearSpelled(z, e);
    } else if t >= 32 {
      form := Middle;
      MiddleSpelled(z, e);
    } else {
      form := Far;
      FarSpelled(z, e);
    }
  }

  lemma {:induction false} MiddleSpelled(z: seq<byte>, e: nat)
    requires e + 3 <= |z| && 32 <= z[e] < 64 && Instruction(z, z[e], e + 1).Copy?
    ensures var r := Instruction(z, z[e], e + 1);
            && Fits(Middle, r.off, r.len) && LegibleRef(Middle, r.len)
            && r.ip == e + |RefBytes(Middle, r.off, r.len)| && e + 2 <= r.ip <= |z|
            && Occurs(z, e, Patch(RefBytes(Middle, r.off, r.len), z[r.ip - 2] % 4))
  {
    hide MatchLength, Head, LengthBytes, OffsetBytes, Patch, Occurs;
    var t := z[e];
    assert t % 32 == t - 32;
    var len := HeadSpelled(z, e, 32, M3_MAX_LEN);
    var p := e + |Head(32, M3_MAX_LEN, len)|;
    assert Instruction(z, z[e], e + 1) == Copy(1 + Offset14(z, p), len, p + 2);
    Offset14Fits(z, p);
    DistantSpelled(z, e, 32, M3_MAX_LEN, Offset14(z, p), len);
  }

  lemma Offset14Fits(z: seq<byte>, p: nat)
    requires p + 2 <= |z|
    ensures Offset14(z, p) < 0x4000
  {
  }

  lemma {:induction false} FarSpelled(z: seq<byte>, e: nat)
    requires e + 3 <= |z| && 16 <= z[e] < 32 && Instruction(z, z[e], e + 1).Copy?
    ensures var r := Instruction(z, z[e], e + 1);
            && Fits(Far, r.off, r.len) && LegibleRef(Far, r.len)
            && r.ip == e + |RefBytes(Far, r.off, r.len)| && e + 2 <= r.ip <= |z|
            && Occurs(z, e, Patch(RefBytes(Far, r.off, r.len), z[r.ip - 2] % 4))
  {
    hide MatchLength, Head, LengthBytes, OffsetBytes, Patch, Occurs, Offset14;
    var t := z[e];
    var high := t / 8 % 2;
    assert t % 8 == t - (16 + high * 8);
    var marker := 16 + high * 8;
    var len := HeadSpelled(z, e, marker, M4_MAX_LEN);
    var p := e + |Head(marker, M4_MAX_LEN, len)|;
    Offset14Fits(z, p);
    var o := high * 0x4000 + Offset14(z, p);
    HighBit(high, Offset14(z, p));
    assert Instruction(z, z[e], e + 1) == Copy(o + 0x4000, len, p + 2);
    DistantSpelled(z, e, marker, M4_MAX_LEN, o, len);
  }

  lemma HighBit(high: nat, low: nat)
    requires high <= 1 && low < 0x4000
    ensures (high * 0x4000 + low) / 0x4000 == high && (high * 0x4000 + low) % 0x4000 == low
  {
  }

  lemma NearSpelled(z: seq<byte>, e: nat)
    requires e + 3 <= |z| && z[e] >= 64
    ensures var r := Instruction(z, z[e], e + 1);
            r.Copy? && Fits(Near, r.off, r.len) && r.ip == e + 2
            && Occurs(z, e, Patch(RefBytes(Near, r.off, r.len), z[e] % 4))
  {
    var t, r := z[e], Instruction(z, z[e], e + 1);
    assert (r.off - 1) % 8 == t / 4 % 8 && (r.off - 1) / 8 == z[e + 1];
    assert (r.len - 1) * 32 + t / 4 % 8 * 4 + t % 4 == t;
    OccursTwo(z, e);
  }

  /** An instruction that ends the stream is an end marker. */
  lemma {:induction false} EofSpelled(z: seq<byte>, e: nat) returns (len: nat, k: nat)
    requires e + 3 <= |z| && z[e] >= 16 && Instruction(z, z[e], e + 1).Eof?
    ensures len >= 3 && k <= 3 && LegibleBeyond(M4_MAX_LEN, len) && Occurs(z, e, MarkBytes(len, k))
    ensures Instruction(z, z[e], e + 1).ip == e + |MarkBytes(len, k)|
  {
    hide MatchLength, Head, LengthBytes;
    var t := z[e];
    assert t / 8 % 2 == 0;
    assert t % 8 == t - 16;
    len := HeadSpelled(z, e, 16, M4_MAX_LEN);
    var p := e + |Head(16, M4_MAX_LEN, len)|;
    k := z[p];
    OccursTwo(z, p);
    OccursJoin(z, e, Head(16, M4_MAX_LEN, len), [z[p], z[p + 1]]);
  }

  lemma ShortSpelled(z: seq<byte>, e: nat, form: Form)
    requires e + 2 <= |z| && z[e] < 16 && (form.Pair? || form.Triple?)
    ensures var o := z[e] / 4 + (z[e + 1] as int) * 4;
            var off, len := if form.Pair? then 1 + o else 1 + M2_MAX_OFFSET + o, if form.Pair? then 2 else 3;
            Fits(form, off, len) && Occurs(z, e, Patch(RefBytes(form, off, len), z[e] % 4))
  {
    var o := z[e] / 4 + (z[e + 1] as int) * 4;
    assert o % 4 == z[e] / 4 && o / 4 == z[e + 1];
    OccursTwo(z, e);
  }

  datatype Next = Ref(form: Form, off: nat, len: nat) | End(len: nat, k: nat)

  /** What is due where the decoding ends well: a reference that is copied, or the end. */
  lemma {:induction false} DueSpelled(z: seq<byte>, cap: nat, e: nat, n: nat, out: seq<byte>) returns (r: Next)
    requires DueReady(z, cap, e, n, out) && Decode(z, cap, Due(z, e, n, out)).code == OK
    ensures r.Ref? ==>
              && Fits(r.form, r.off, r.len) && Placeable(r.form, n) && LegibleRef(r.form, r.len) && 1 <= r.off <= |out|
              && |out| + r.len <= cap
              && var e' := e + |RefBytes(r.form, r.off, r.len)|;
                 && e + 2 <= e' <= |z| && Occurs(z, e, Patch(RefBytes(r.form, r.off, r.len), z[e' - 2] % 4))
                 && Leads(z, cap, Due(z, e, n, out), Gap(e', CopyBack(out, r.off, r.len)))
    ensures r.End? ==>
              && r.len >= 3 && r.k <= 3 && LegibleBeyond(M4_MAX_LEN, r.len)
              && Occurs(z, e, MarkBytes(r.len, r.k)) && e + |MarkBytes(r.len, r.k)| == |z|
              && Decode(z, cap, Due(z, e, n, out)) == Outcome(OK, out)
  {
    hide Decode, RefBytes, CopyBack, Patch, MarkBytes, Occurs, Instruction;
    var due := Due(z, e, n, out);
    if z[e] < 16 {
      r := ShortDue(z, cap, e, n, out);
    } else {
      if n >= 4 {
        LeadsStep(z, cap, due, At(Match, z[e], e + 1, out));
      }
      var at := At(Match, z[e], e + 1, out);
      LeadsStep(z, cap, at, Step(z, cap, at));
      EndIsResult(z, cap, at);
      var order := Instruction(z, z[e], e + 1);
      BadIsNoEnd(z, z[e], e + 1);
      if order.Copy? {
        var form := CopySpelled(z, e);
        r := Ref(form, order.off, order.len);
      } else {
        var len, k := EofSpelled(z, e);
        r := End(len, k);
      }
    }
  }

  lemma {:induction false} BadIsNoEnd(z: seq<byte>, t: byte, ip: nat)
    requires ip + 2 <= |z|
    ensures Instruction(z, t, ip).Bad? ==> Instruction(z, t, ip).code != OK
  {
    hide MatchLength;
  }

  lemma {:induction false} EndIsResult(z: seq<byte>, cap: nat, s: State)
    requires s.At? && Ready(z, cap, s)
    ensures Step(z, cap, s).Done? ==> Decode(z, cap, s) == Step(z, cap, s).result
  {
    hide Step;
  }

  /** A first byte below 16 that is due is a short reference. */
  lemma {:induction false} ShortDue(z: seq<byte>, cap: nat, e: nat, n: nat, out: seq<byte>) returns (r: Next)
    requires DueReady(z, cap, e, n, out) && Decode(z, cap, Due(z, e, n, out)).code == OK && z[e] < 16
    ensures r.Ref? && Fits(r.form, r.off, r.len) && Placeable(r.form, n) && LegibleRef(r.form, r.len)
    ensures r.off <= |out| && |out| + r.len <= cap && |RefBytes(r.form, r.off, r.len)| == 2
    ensures Occurs(z, e, Patch(RefBytes(r.form, r.off, r.len), z[e] % 4))
    ensures Leads(z, cap, Due(z, e, n, out), Gap(e + 2, CopyBack(out, r.off, r.len)))
  {
    hide Decode, RefBytes, CopyBack, Patch, Occurs;
    var form := if n >= 4 then Triple else Pair;
    var o := z[e] / 4 + (z[e + 1] as int) * 4;
    ShortSpelled(z, e, form);
    r := if form.Pair? then Ref(Pair, 1 + o, 2) else Ref(Triple, 1 + M2_MAX_OFFSET + o, 3);
    ShortRefSize(r.form, r.off, r.len);
    var due := Due(z, e, n, out);
    EndIsResult(z, cap, due);
    LeadsStep(z, cap, due, Step(z, cap, due));
  }

  /** What follows a reference where the decoding ends well: literals, and something due. */
  lemma {:induction false} GapSpelled(z: seq<byte>, cap: nat, p: nat, out: seq<byte>) returns (lits: seq<byte>)
    requires 2 <= p <= |z| && |out| <= cap && Decode(z, cap, Gap(p, out)).code == OK
    ensures LegibleRun(|lits|) && z[p - 2] % 4 == StoredCount(lits) && Occurs(z, p, GapBytes(lits))
    ensures DueReady(z, cap, p + |GapBytes(lits)|, |lits|, out + lits)
    ensures Leads(z, cap, Gap(p, out), Due(z, p + |GapBytes(lits)|, |lits|, out + lits))
  {
    hide Decode, GapBytes, Step, Due;
    var k := z[p - 2] % 4;
    var s := if k == 0 then At(Top, 0, p, out) else At(MatchNext, k, p, out);
    AfterDone(z, cap, p, out);
    if k > 0 {
      lits := CountSpelled(z, cap, p, k, out);
    } else {
      lits := TopSpelled(z, cap, p, out);
    }
  }

  lemma AfterDone(z: seq<byte>, cap: nat, p: nat, out: seq<byte>)
    requires 2 <= p <= |z| && |out| <= cap
    ensures var k := z[p - 2] % 4;
            Leads(z, cap, Gap(p, out), if k == 0 then At(Top, 0, p, out) else At(MatchNext, k, p, out))
  {
    hide Decode, StepTop, StepMatch, StepFirstRun, StepMatchNext;
    var k := z[p - 2] % 4;
    LeadsStep(z, cap, Gap(p, out), if k == 0 then At(Top, 0, p, out) else At(MatchNext, k, p, out));
  }

  lemma {:induction false} CountSpelled(z: seq<byte>, cap: nat, p: nat, k: nat, out: seq<byte>)
    returns (lits: seq<byte>)
    requires p <= |z| && |out| <= cap && 1 <= k <= 3 && Decode(z, cap, At(MatchNext, k, p, out)).code == OK
    ensures |lits| == k && LegibleRun(k) && StoredCount(lits) == k && Occurs(z, p, GapBytes(lits))
    ensures DueReady(z, cap, p + |GapBytes(lits)|, k, out + lits)
    ensures Leads(z, cap, At(MatchNext, k, p, out), Due(z, p + |GapBytes(lits)|, k, out + lits))
  {
    hide Decode, StepTop, StepMatch, StepFirstRun;
    var s := At(MatchNext, k, p, out);
    EndIsResult(z, cap, s);
    LeadsStep(z, cap, s, Step(z, cap, s));
    lits := z[p..p + k];
  }

  lemma {:induction false} TopSpelled(z: seq<byte>, cap: nat, p: nat, out: seq<byte>) returns (lits: seq<byte>)
    requires p <= |z| && |out| <= cap && Decode(z, cap, At(Top, 0, p, out)).code == OK
    ensures LegibleRun(|lits|) && StoredCount(lits) == 0 && Occurs(z, p, GapBytes(lits))
    ensures DueReady(z, cap, p + |GapBytes(lits)|, |lits|, out + lits)
    ensures Leads(z, cap, At(Top, 0, p, out), Due(z, p + |GapBytes(lits)|, |lits|, out + lits))
  {
    hide Decode, RunHeader, RunLength, StepMatch, StepFirstRun, StepMatchNext;
    var s := At(Top, 0, p, out);
    EndIsResult(z, cap, s);
    LeadsStep(z, cap, s, Step(z, cap, s));
    if z[p] >= 16 {
      lits := [];
      assert out + lits == out;
    } else {
      lits := RunSpelled(z, cap, p, out);
    }
  }

  lemma {:induction false} HeaderSpelled(z: seq<byte>, p: nat) returns (n: nat)
    requires p + 1 < |z| && z[p] < 16 && RunLength(z, z[p], p + 1).Length?
    ensures n >= 4 && LegibleRun(n) && Occurs(z, p, RunHeader(n))
    ensures RunLength(z, z[p], p + 1) == Length(p + |RunHeader(n)|, n - 3)
  {
    hide LengthBytes, ReadLength, Occurs;
    OccursByte(z, p);
    if z[p] == 0 {
      var m := LengthSpelled(z, p + 1, 0);
      n := m + 18;
      OccursJoin(z, p, [z[p]], LengthBytes(m));
    } else {
      n := z[p] + 3;
    }
  }

  lemma {:induction false} RunSpelled(z: seq<byte>, cap: nat, p: nat, out: seq<byte>) returns (lits: seq<byte>)
    requires p + 3 <= |z| && z[p] < 16 && |out| <= cap && StepTop(z, cap, p, out).At?
    ensures |lits| >= 4 && LegibleRun(|lits|) && Occurs(z, p, RunHeader(|lits|) + lits)
    ensures var e := p + |RunHeader(|lits|) + lits|;
            e + 3 <= |z| && |out + lits| <= cap && StepTop(z, cap, p, out) == At(FirstRun, 0, e, out + lits)
  {
    hide RunHeader, RunLength;
    var n := HeaderSpelled(z, p);
    var q := p + |RunHeader(n)|;
    lits := z[q..q + n];
    OccursJoin(z, p, RunHeader(n), lits);
  }

  /** What is due and all that follows is the rest of a stream. */
  lemma {:induction false} PartsSpelled(z: seq<byte>, cap: nat, e: nat, n: nat, out: seq<byte>)
    returns (parts: seq<Part>, len: nat, k: nat)
    requires DueReady(z, cap, e, n, out) && Decode(z, cap, Due(z, e, n, out)).code == OK
    ensures ValidParts(|out|, n, parts) && len >= 3 && k <= 3 && LegibleBeyond(M4_MAX_LEN, len)
    ensures z[e..] == PartsBytes(|out|, n, parts) + MarkBytes(len, k)
    ensures Decode(z, cap, Due(z, e, n, out)) == Outcome(OK, Meaning(out, n, parts))
    decreases |z| - e
  {
    hide Decode, RefBytes, CopyBack, Patch, MarkBytes, GapBytes, Fits, Placeable, LegibleRef, LegibleRun;
    var r := DueSpelled(z, cap, e, n, out);
    if r.End? {
      parts, len, k := [], r.len, r.k;
      assert z[e..] == [] + MarkBytes(len, k);
    } else {
      var e1, out1 := e + |RefBytes(r.form, r.off, r.len)|, CopyBack(out, r.off, r.len);
      var lits := GapSpelled(z, cap, e1, out1);
      var e2 := e1 + |GapBytes(lits)|;
      var rest;
      rest, len, k := PartsSpelled(z, cap, e2, |lits|, out1 + lits);
      var p := Part(r.form, r.off, r.len, lits);
      parts := [p] + rest;
      assert parts[0] == p && parts[1..] == rest;
      assert z[e..] == z[e..e1] + z[e1..e2] + z[e2..];
    }
  }

  /** What the decompressor accepts is a stream, which it reads to what that stands for. */
  lemma {:induction false} StreamSpelled(z: seq<byte>, cap: nat) returns (s: Stream)
    requires Decompressed(z, cap).code == OK
    ensures ValidStream(s) && Bytes(s) == z && Text(s) == Decompressed(z, cap).out
  {
    hide Decode, PartsBytes, MarkBytes, Meaning, ValidParts;
    var o, lits := OpeningSpelled(z, cap);
    var e := |OpeningBytes(o, lits)|;
    var parts, len, k := PartsSpelled(z, cap, e, |lits|, lits);
    s := Stream(o, lits, parts, len, k);
    if lits == [] {
      EmptyOpening(z, parts, len, k);
    }
    assert z == z[..e] + z[e..];
  }

  lemma {:induction false} EmptyOpening(z: seq<byte>, parts: seq<Part>, len: nat, k: nat)
    requires ValidParts(0, 0, parts) && len >= 3 && k <= 3 && |z| > 0 && z[0] <= 17
    requires z[0..] == PartsBytes(0, 0, parts) + MarkBytes(len, k)
    ensures len == 3 || len > M4_MAX_LEN
  {
    NoParts(parts);
    assert z[0..] == MarkBytes(len, k);
    assert z[0] == z[0..][0] == MarkBytes(len, k)[0];
  }

  lemma {:induction false} OpeningSpelled(z: seq<byte>, cap: nat) returns (o: Opening, lits: seq<byte>)
    requires Decompressed(z, cap).code == OK
    ensures Opens(o, |lits|) && LegibleRun(|lits|) && Occurs(z, 0, OpeningBytes(o, lits))
    ensures DueReady(z, cap, |OpeningBytes(o, lits)|, |lits|, lits)
    ensures Leads(z, cap, Start(z, cap), Due(z, |OpeningBytes(o, lits)|, |lits|, lits))
    ensures lits == [] ==> |z| > 0 && z[0] <= 17
  {
    hide Decode, Step, GapBytes, Due;
    var s := Start(z, cap);
    if s.Done? {
      Returned(z, cap, s.result);
    } else if z[0] > 17 {
      o := Special;
      lits := SpecialSpelled(z, cap);
    } else {
      o := Usual;
      lits := UsualSpelled(z, cap);
    }
  }

  lemma {:induction false} SpecialSpelled(z: seq<byte>, cap: nat) returns (lits: seq<byte>)
    requires Decompressed(z, cap).code == OK && Start(z, cap).At? && z[0] > 17
    ensures Opens(Special, |lits|) && LegibleRun(|lits|) && Occurs(z, 0, OpeningBytes(Special, lits))
    ensures DueReady(z, cap, 1 + |lits|, |lits|, lits)
    ensures Leads(z, cap, Start(z, cap), Due(z, 1 + |lits|, |lits|, lits))
  {
    hide Decode, Occurs;
    var s, n := Start(z, cap), z[0] - 17;
    if n < 4 {
      hide StepTop, StepFirstRun, StepMatch;
      LeadsStep(z, cap, s, Step(z, cap, s));
      EndIsResult(z, cap, s);
    }
    lits := z[1..1 + n];
    assert [] + lits == lits;
    OccursByte(z, 0);
    OccursHere(z, 1, n);
    OccursJoin(z, 0, [z[0]], lits);
  }

  lemma OccursHere(z: seq<byte>, i: nat, n: nat)
    requires i + n <= |z|
    ensures Occurs(z, i, z[i..i + n])
  {
  }

  lemma {:induction false} UsualSpelled(z: seq<byte>, cap: nat) returns (lits: seq<byte>)
    requires Decompressed(z, cap).code == OK && Start(z, cap).At? && z[0] <= 17
    ensures Opens(Usual, |lits|) && LegibleRun(|lits|) && Occurs(z, 0, GapBytes(lits))
    ensures DueReady(z, cap, |GapBytes(lits)|, |lits|, lits)
    ensures Leads(z, cap, Start(z, cap), Due(z, |GapBytes(lits)|, |lits|, lits))
  {
    hide Decode, RunHeader, RunLength;
    var s := Start(z, cap);
    LeadsStep(z, cap, s, Step(z, cap, s));
    EndIsResult(z, cap, s);
    if z[0] >= 16 {
      lits := [];
    } else {
      lits := RunSpelled(z, cap, 0, []);
      assert [] + lits == lits;
    }
  }

  /** The decompressor accepts a text exactly if the bytes are a stream that stands for it and
      there is room for it. */
  lemma {:induction false} AcceptsExactly(z: seq<byte>, text: seq<byte>, cap: nat)
    ensures Decompressed(z, cap) == Outcome(OK, text) <==> StandsFor(z, text) && |text| <= cap
  {
    hide Decompressed, ValidStream, Bytes, Text;
    if StandsFor(z, text) && |text| <= cap {
      var s :| ValidStream(s) && Bytes(s) == z && Text(s) == text;
      StreamReads(s, [], cap);
      assert z + [] == z;
    }
    if Decompressed(z, cap) == Outcome(OK, text) {
      var s := StreamSpelled(z, cap);
    }
  }

  // ---------- What is no stream

  /** A stream up to a reference that reaches back beyond what has been written is refused
      there, whatever room there is for it and whatever follows. */
  lemma {:induction false} TooFarBack(z: seq<byte>, o: Opening, lits: seq<byte>, parts: seq<Part>, form: Form, off: nat,
                                      len: nat, k: nat, behind: seq<byte>, cap: nat)
    requires Opens(o, |lits|) && lits != [] && LegibleRun(|lits|) && ValidParts(|lits|, |lits|, parts)
    requires Fits(form, off, len) && LegibleRef(form, len) && Placeable(form, Last(|lits|, parts)) && k <= 3
    requires |Meaning(lits, |lits|, parts)| < off && |Meaning(lits, |lits|, parts)| <= cap
    requires z == OpeningBytes(o, lits) + (PartsBytes(|lits|, |lits|, parts)
                                           + (Patch(RefBytes(form, off, len), k) + behind)) && behind != []
    ensures Decompressed(z, cap) == Outcome(LookbehindOverrun, Meaning(lits, |lits|, parts))
  {
    hide Decode, OpeningBytes, PartsBytes, Meaning, Occurs, Start, RefBytes, Patch;
    var opening, n, text := OpeningBytes(o, lits), |lits|, Meaning(lits, |lits|, parts);
    var body, ref := PartsBytes(n, n, parts), Patch(RefBytes(form, off, len), k);
    OccursParts(opening, body + (ref + behind));
    OccursSplit(z, |opening|, body, ref + behind);
    OccursSplit(z, |opening| + |body|, ref, behind);
    FarRefIsRefused(z, cap, |opening| + |body|, Last(n, parts), text, form, off, len, k);
    PartsLead(z, cap, |opening|, n, lits, parts);
    OpeningReads(z, cap, o, lits);
  }

  lemma {:induction false} FarRefIsRefused(z: seq<byte>, cap: nat, e: nat, n: nat, out: seq<byte>, form: Form,
                                           off: nat, len: nat, k: nat)
    requires Fits(form, off, len) && Placeable(form, n) && LegibleRef(form, len) && k <= 3
    requires |out| < off && |out| <= cap
    requires Occurs(z, e, Patch(RefBytes(form, off, len), k)) && e + |RefBytes(form, off, len)| + 1 <= |z|
    ensures DueReady(z, cap, e, n, out)
    ensures Decode(z, cap, Due(z, e, n, out)) == Outcome(LookbehindOverrun, out)
  {
    hide Decode, RefBytes, Patch, Occurs;
    if form.Pair? || form.Triple? {
      ShortRefReads(z, e, form, off, len, k);
      ShortRefSize(form, off, len);
      EndIsResult(z, cap, Due(z, e, n, out));
    } else {
      hide Instruction;
      LongRefReads(z, e, form, off, len, k);
      InstructionIsDue(z, cap, e, n, out);
      EndIsResult(z, cap, At(Match, z[e], e + 1, out));
    }
  }

  /** What has been written stays. */
  lemma {:induction false} OutGrows(z: seq<byte>, cap: nat, s: State)
    requires s.At? && Ready(z, cap, s)
    ensures s.out <= Decode(z, cap, s).out
    decreases |z| - s.ip + 1, if s.pc.MatchDone? then 1 else 0
  {
    hide Step;
    var s' := Step(z, cap, s);
    StepGrows(z, cap, s);
    if s'.At? {
      OutGrows(z, cap, s');
    } else {
      Returned(z, cap, s'.result);
    }
  }

  function OutOf(s: State): seq<byte> {
    if s.At? then s.out else s.result.out
  }

  lemma {:induction false} StepGrows(z: seq<byte>, cap: nat, s: State)
    requires s.At? && Ready(z, cap, s)
    ensures s.out <= OutOf(Step(z, cap, s))
    ensures Step(z, cap, s).Done? ==> Step(z, cap, s).result.out == s.out
  {
    hide Instruction, RunLength, CopyBack;
  }

  // ---------- A buffer that is too small

  /** With less room a step is the same, or there is not enough for it. */
  lemma {:induction false} StepWithLess(z: seq<byte>, cap: nat, less: nat, s: State)
    requires s.At? && Ready(z, cap, s) && |s.out| <= less <= cap && Step(z, cap, s).At?
    ensures Step(z, less, s) == if |Step(z, cap, s).out| <= less then Step(z, cap, s)
                                else Done(Outcome(OutputOverrun, s.out))
  {
    hide Instruction, RunLength, CopyBack;
  }

  lemma {:induction false} DecodeWithLess(z: seq<byte>, cap: nat, less: nat, s: State)
    requires s.At? && Ready(z, cap, s) && Decode(z, cap, s).code == OK
    requires |s.out| <= less < |Decode(z, cap, s).out|
    ensures Decode(z, less, s).code == OutputOverrun && Decode(z, less, s).out <= Decode(z, cap, s).out
    decreases |z| - s.ip + 1, if s.pc.MatchDone? then 1 else 0
  {
    hide Step;
    var s' := Step(z, cap, s);
    OutGrows(z, cap, s);
    StepGrows(z, cap, s);
    EndIsResult(z, cap, s);
    StepWithLess(z, cap, less, s);
    if |s'.out| <= less {
      DecodeWithLess(z, cap, less, s');
    } else {
      Returned(z, less, Outcome(OutputOverrun, s.out));
    }
  }

  /** A stream in a buffer that is too small for what it stands for: the beginning of that is
      written, and it is the output that is reported. */
  lemma {:induction false} TooSmall(z: seq<byte>, text: seq<byte>, cap: nat)
    requires StandsFor(z, text) && cap < |text|
    ensures Decompressed(z, cap).code == OutputOverrun && Decompressed(z, cap).out <= text
  {
    hide StandsFor, Decode;
    AcceptsExactly(z, text, |text|);
    var s := Start(z, |text|);
    if s.At? && |s.out| <= cap {
      DecodeWithLess(z, |text|, cap, s);
    } else if s.At? {
      OutGrows(z, |text|, s);
      Returned(z, cap, Outcome(OutputOverrun, []));
    } else {
      Returned(z, |text|, s.result);
    }
  }

  // ---------- A stream that is cut off

  lemma {:induction false} LengthCut(z: seq<byte>, n: nat, ip: nat, t: nat)
    requires ip < n <= |z| && t <= LENGTH_LIMIT && ReadLength(z, ip, t).Length?
    ensures ReadLength(z[..n], ip, t) == if ReadLength(z, ip, t).ip <= n then ReadLength(z, ip, t) else NoInput
    decreases n - ip
  {
    if z[ip] == 0 && ip + 1 < n {
      LengthCut(z, n, ip + 1, t + 255);
    }
  }

  lemma {:induction false} InstructionCut(z: seq<byte>, n: nat, t: byte, ip: nat)
    requires ip + 2 <= n <= |z| && !Instruction(z, t, ip).Bad?
    ensures Instruction(z[..n], t, ip) == if Instruction(z, t, ip).ip <= n then Instruction(z, t, ip)
                                          else Bad(InputOverrun)
  {
    hide ReadLength;
    if 16 <= t < 64 && (if t >= 32 then t % 32 == 0 else t % 8 == 0) {
      LengthCut(z, n, ip, 0);
    }
  }

  lemma {:induction false} RunCut(z: seq<byte>, n: nat, t: byte, ip: nat)
    requires ip < n <= |z| && RunLength(z, t, ip).Length?
    ensures RunLength(z[..n], t, ip) == if RunLength(z, t, ip).ip <= n then RunLength(z, t, ip) else NoInput
  {
    if t == 0 {
      LengthCut(z, n, ip, 0);
    }
  }

  /** Where the input is cut off a step is the same, or the input is missed. */
  lemma {:induction false} StepCut(z: seq<byte>, n: nat, cap: nat, s: State)
    requires n < |z| && s.At? && Ready(z[..n], cap, s)
    requires Step(z, cap, s).Done? ==> Step(z, cap, s).result.code == OK
    ensures Ready(z, cap, s)
    ensures Step(z[..n], cap, s) == Done(Outcome(InputOverrun, s.out))
            || (Step(z, cap, s).At? && Step(z[..n], cap, s) == Step(z, cap, s))
  {
    hide Instruction, RunLength, CopyBack;
    match s.pc
    case Top =>
      if s.ip + 3 <= n && z[s.ip] < 16 {
        TopCut(z, n, cap, s.ip, s.out);
      }
    case Match =>
      BadIsNoEnd(z, s.t, s.ip);
      InstructionCut(z, n, s.t, s.ip);
    case MatchNext =>
      assert s.ip + s.t <= n ==> z[..n][s.ip..s.ip + s.t] == z[s.ip..s.ip + s.t];
    case _ =>
  }

  lemma {:induction false} TopCut(z: seq<byte>, n: nat, cap: nat, ip: nat, out: seq<byte>)
    requires ip + 3 <= n < |z| && |out| <= cap && z[ip] < 16 && StepTop(z, cap, ip, out).At?
    ensures StepTop(z[..n], cap, ip, out) == Done(Outcome(InputOverrun, out))
            || StepTop(z[..n], cap, ip, out) == StepTop(z, cap, ip, out)
  {
    hide RunLength;
    var r := RunLength(z, z[ip], ip + 1);
    RunCut(z, n, z[ip], ip + 1);
    assert r.ip + r.t + 3 <= n ==> z[..n][r.ip..r.ip + (r.t + 3)] == z[r.ip..r.ip + (r.t + 3)];
  }

  lemma {:induction false} DecodeCut(z: seq<byte>, n: nat, cap: nat, s: State)
    requires n < |z| && s.At? && Ready(z[..n], cap, s) && Ready(z, cap, s) && Decode(z, cap, s).code == OK
    ensures Decode(z[..n], cap, s).code == InputOverrun && Decode(z[..n], cap, s).out <= Decode(z, cap, s).out
    decreases n - s.ip + 1, if s.pc.MatchDone? then 1 else 0
  {
    hide Step;
    var s' := Step(z, cap, s);
    if s'.Done? {
      Returned(z, cap, s'.result);
    }
    StepCut(z, n, cap, s);
    OutGrows(z, cap, s);
    if Step(z[..n], cap, s).Done? {
      Returned(z[..n], cap, Outcome(InputOverrun, s.out));
    } else {
      DecodeCut(z, n, cap, s');
    }
  }

  /** A stream that is cut off anywhere: the beginning of what it stands for is written, and it
      is the input that is reported. */
  lemma {:induction false} CutOff(z: seq<byte>, text: seq<byte>, n: nat, cap: nat)
    requires StandsFor(z, text) && |text| <= cap && n < |z|
    ensures Decompressed(z[..n], cap).code == InputOverrun && Decompressed(z[..n], cap).out <= text
  {
    hide StandsFor, Decode;
    AcceptsExactly(z, text, cap);
    var s := Start(z, cap);
    if s.Done? {
      Returned(z, cap, s.result);
    } else if Start(z[..n], cap).Done? {
      Returned(z[..n], cap, Outcome(InputOverrun, []));
    } else {
      assert s.pc.FirstRun? ==> z[..n][1..s.ip] == z[1..s.ip];
      DecodeCut(z, n, cap, s);
    }
  }
}
