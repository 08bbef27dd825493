/** The safe decompressor as it runs: cursors into the input and a fixed output
    buffer, 64-bit lengths, one method for each label that its jumps lead to. */
module LzoDecompress {
  import opened Words
  import opened LzoFormat
  import opened LzoDecode
  import opened LzoCopy
  import LzoStream

  /** Where control goes: to a label with its variables, or out with a code. */
  datatype Next =
    | Goto(pc: Label, t: nat, ip: nat, op: nat)
    | Return(code: Code, op: nat)
  {
    /** The state that this control point and the buffer stand for. */
    ghost function View(dst: array<byte>): State
      requires op <= dst.Length
      reads dst
    {
      match this
      case Goto(pc, t, ip, op) => At(pc, t, ip, dst[..op])
      case Return(code, op) => Done(Outcome(code, dst[..op]))
    }
  }

  /** The two decompressors share one text. `tests` tells the safe one, in which the
      tests for overruns are compiled in, from the fast one; the fast one may only be
      run where no test would fire, which is what `Sound` says of a step. */
  predicate Sound(s: State) {
    s.Done? ==> NoOverrun(s.result.code)
  }

  predicate NoOverrun(code: Code) {
    code == OK || code == InputNotConsumed
  }

  /** The loop over zero bytes, in 64-bit arithmetic. The code tells which of the
      two tests failed. */
  method ReadZeros(tests: bool, z: seq<byte>, ip0: nat) returns (r: Run)
    requires ip0 < |z| && (tests || ReadLength(z, ip0, 0).Length?)
    ensures r == ReadLength(z, ip0, 0)
  {
    var ip, t := ip0, 0;
    while z[ip] == 0
      invariant ip0 <= ip < |z| && 0 <= t <= LENGTH_LIMIT
      invariant ReadLength(z, ip, t) == ReadLength(z, ip0, 0)
      decreases |z| - ip
    {
      t := Wrap64(t + 255);
      ip := ip + 1;
      if tests && t > LENGTH_LIMIT {
        return TooLong;
      }
      if tests && |z| - ip < 1 {
        return NoInput;
      }
    }
    return Length(ip + 1, Wrap64(t + z[ip]));
  }

  /** The copy of a literal run behind the output test and the input test. */
  method Literals(tests: bool, z: seq<byte>, ip: nat, dst: array<byte>, op: nat, t: nat) returns (r: Option)
    requires ip <= |z| && op <= dst.Length
    requires |z| < TWO_64 && dst.Length < TWO_64
    requires t + 3 < TWO_64 && (tests || TakeLiterals(z, dst.Length, dst[..op], ip, t, 3).Took?)
    modifies dst
    ensures match TakeLiterals(z, dst.Length, old(dst[..op]), ip, t, 3)
            case Took(o) => r == Passed && op + t <= dst.Length && dst[..op + t] == o
            case Fail(code) => r == Failed(code) && dst[..] == old(dst[..])
    ensures forall i :: op + t <= i < dst.Length ==> dst[i] == old(dst[i])
  {
    if tests && dst.Length - op < t {
      return Failed(OutputOverrun);
    }
    if tests && |z| - ip < Wrap64(t + 3) {
      return Failed(InputOverrun);
    }
    CopyInput(z, ip, dst, op, t);
    return Passed;
  }

  datatype Option = Passed | Failed(code: Code)

  /** The top of the loop: an instruction, or a literal run with its header. */
  method RunTop(tests: bool, z: seq<byte>, ip0: nat, dst: array<byte>, op: nat) returns (n: Next)
    requires ip0 <= |z| < TWO_64 && op <= dst.Length < TWO_64
    requires tests || Sound(StepTop(z, dst.Length, ip0, dst[..op]))
    modifies dst
    ensures op <= n.op <= dst.Length && n.View(dst) == StepTop(z, dst.Length, ip0, old(dst[..op]))
    ensures forall i :: n.op <= i < dst.Length ==> dst[i] == old(dst[i])
  {
    if tests && |z| - ip0 < 3 {
      return Return(InputOverrun, op);
    }
    var t: nat, ip := z[ip0], ip0 + 1;
    if t >= 16 {
      return Goto(Match, t, ip, op);
    }
    if t == 0 {
      var r := ReadZeros(tests, z, ip);
      if !r.Length? {
        return Return(InputOverrun, op);
      }
      t, ip := Wrap64(r.t + 15), r.ip;
    }
    assert RunLength(z, z[ip0], ip0 + 1) == Length(ip, t);
    t := Wrap64(t + 3);
    var o := Literals(tests, z, ip, dst, op, t);
    if o.Failed? {
      return Return(o.code, op);
    }
    return Goto(FirstRun, 0, ip + t, op + t);
  }

  /** A reference behind the look-behind test and the output test. `byWords` tells
      the distant references from the near ones, which are copied byte by byte. */
  method Reference(tests: bool, dst: array<byte>, op: nat, mPos: int, len: nat, ip: nat, byWords: bool)
    returns (n: Next)
    requires op <= dst.Length < TWO_64 && mPos < op && len < TWO_64
    requires tests || Sound(CopyOrder(dst.Length, dst[..op], op - mPos, len, ip))
    modifies dst
    ensures op <= n.op <= dst.Length && n.View(dst) == CopyOrder(dst.Length, old(dst[..op]), op - mPos, len, ip)
    ensures forall i :: n.op <= i < dst.Length ==> dst[i] == old(dst[i])
  {
    hide CopyBack;
    if tests && (mPos < 0 || mPos >= op) {
      return Return(LookbehindOverrun, op);
    }
    if tests && dst.Length - op < len {
      return Return(OutputOverrun, op);
    }
    if byWords {
      CopyMatch(dst, op, mPos, len);
    } else {
      CopyMatchBytes(dst, op, mPos, len);
    }
    return Goto(MatchDone, 0, ip, op + len);
  }

  /** After a literal run: an instruction, or a reference of three bytes. */
  method RunFirst(tests: bool, z: seq<byte>, ip0: nat, dst: array<byte>, op: nat) returns (n: Next)
    requires ip0 + 3 <= |z| < TWO_64 && op <= dst.Length < TWO_64
    requires tests || Sound(StepFirstRun(z, dst.Length, ip0, dst[..op]))
    modifies dst
    ensures op <= n.op <= dst.Length && n.View(dst) == StepFirstRun(z, dst.Length, ip0, old(dst[..op]))
    ensures forall i :: n.op <= i < dst.Length ==> dst[i] == old(dst[i])
  {
    var t, ip := z[ip0], ip0 + 1;
    if t >= 16 {
      return Goto(Match, t, ip, op);
    }
    var mPos := op - (1 + M2_MAX_OFFSET);
    mPos := mPos - t / 4;
    mPos := mPos - (z[ip] as int) * 4;
    n := Reference(tests, dst, op, mPos, 3, ip + 1, false);
  }

  /** The length of a distant reference, whose first byte gave `t`. */
  method ReferenceLength(tests: bool, z: seq<byte>, ip: nat, t: nat, base: nat) returns (r: Run)
    requires ip + 2 <= |z| && t <= 255 && base <= 31
    requires tests || MatchLength(z, ip, t, base).Length?
    ensures r == MatchLength(z, ip, t, base)
  {
    if t != 0 {
      return Length(ip, t);
    }
    r := ReadZeros(tests, z, ip);
    if r.Length? {
      r := Length(r.ip, Wrap64(r.t + base));
      if tests && |z| - r.ip < 2 {
        r := NoInput;
      }
    }
  }

  /** An instruction whose first byte `t` has been read. */
  method RunMatch(tests: bool, z: seq<byte>, t0: byte, ip0: nat, dst: array<byte>, op: nat) returns (n: Next)
    requires ip0 + 2 <= |z| < TWO_64 && op <= dst.Length < TWO_64
    requires tests || Sound(StepMatch(z, dst.Length, t0, ip0, dst[..op]))
    modifies dst
    ensures op <= n.op <= dst.Length && n.View(dst) == StepMatch(z, dst.Length, t0, ip0, old(dst[..op]))
    ensures forall i :: n.op <= i < dst.Length ==> dst[i] == old(dst[i])
  {
    hide CopyBack, ReadLength, MatchLength;
    var t: nat, ip, mPos := t0, ip0, op;
    if t >= 64 {
      mPos := op - 1;
      mPos := mPos - t / 4 % 8;
      mPos := mPos - (z[ip] as int) * 8;
      t := t / 32 - 1;
      n := Reference(tests, dst, op, mPos, t + 2, ip + 1, false);
      return;
    }
    if t < 16 {
      mPos := op - 1;
      mPos := mPos - t / 4;
      mPos := mPos - (z[ip] as int) * 4;
      n := Reference(tests, dst, op, mPos, 2, ip + 1, false);
      return;
    }
    var r;
    if t >= 32 {
      r := ReferenceLength(tests, z, ip, t % 32, 31);
    } else {
      mPos := mPos - t / 8 % 2 * 0x4000;
      r := ReferenceLength(tests, z, ip, t % 8, 7);
    }
    if !r.Length? {
      return Return(if r.TooLong? then OutputOverrun else InputOverrun, op);
    }
    ip, t := r.ip, r.t;
    mPos := mPos - (z[ip] / 4 + (z[ip + 1] as int) * 64);
    ip := ip + 2;
    if t0 >= 32 {
      mPos := mPos - 1;
    } else {
      if mPos == op {
        return Return(if ip == |z| then OK else if ip < |z| then InputNotConsumed else InputOverrun, op);
      }
      mPos := mPos - 0x4000;
    }
    n := Reference(tests, dst, op, mPos, Wrap64(t + 2), ip, true);
  }

  /** Up to three literals after a reference, and the instruction after them. */
  method RunMatchNext(tests: bool, z: seq<byte>, t: nat, ip: nat, dst: array<byte>, op: nat) returns (n: Next)
    requires ip <= |z| < TWO_64 && op <= dst.Length < TWO_64 && 1 <= t <= 3
    requires tests || Sound(StepMatchNext(z, dst.Length, t, ip, dst[..op]))
    modifies dst
    ensures op <= n.op <= dst.Length && n.View(dst) == StepMatchNext(z, dst.Length, t, ip, old(dst[..op]))
    ensures forall i :: n.op <= i < dst.Length ==> dst[i] == old(dst[i])
  {
    var o := Literals(tests, z, ip, dst, op, t);
    if o.Failed? {
      return Return(o.code, op);
    }
    return Goto(Match, z[ip + t], ip + t + 1, op + t);
  }

  /** Before the loop: the first byte may announce literals in a way of its own. */
  method Begin(tests: bool, z: seq<byte>, dst: array<byte>) returns (n: Next)
    requires |z| < TWO_64 && dst.Length < TWO_64
    requires tests || Sound(Start(z, dst.Length))
    modifies dst
    ensures n.op <= dst.Length && n.View(dst) == Start(z, dst.Length)
    ensures forall i :: n.op <= i < dst.Length ==> dst[i] == old(dst[i])
  {
    if tests && |z| < 1 {
      return Return(InputOverrun, 0);
    }
    if z[0] <= 17 {
      return Goto(Top, 0, 0, 0);
    }
    var t := z[0] - 17;
    if t < 4 {
      return Goto(MatchNext, t, 1, 0);
    }
    var o := Literals(tests, z, 1, dst, 0, t);
    if o.Failed? {
      return Return(o.code, 0);
    }
    return Goto(FirstRun, 0, 1 + t, t);
  }

  /** From one label to the next. */
  method Advance(tests: bool, z: seq<byte>, n: Next, dst: array<byte>) returns (n': Next)
    requires |z| < TWO_64 && dst.Length < TWO_64
    requires n.Goto? && n.op <= dst.Length && Ready(z, dst.Length, n.View(dst))
    requires tests || Sound(Step(z, dst.Length, n.View(dst)))
    modifies dst
    ensures n.op <= n'.op <= dst.Length && n'.View(dst) == Step(z, dst.Length, old(n.View(dst)))
    ensures forall i :: n'.op <= i < dst.Length ==> dst[i] == old(dst[i])
  {
    hide StepTop, StepFirstRun, StepMatch, StepMatchNext;
    match n.pc {
      case Top => n' := RunTop(tests, z, n.ip, dst, n.op);
      case FirstRun => n' := RunFirst(tests, z, n.ip, dst, n.op);
      case Match => n' := RunMatch(tests, z, n.t, n.ip, dst, n.op);
      case MatchDone =>
        var t := z[n.ip - 2] % 4;
        n' := Goto(if t == 0 then Top else MatchNext, t, n.ip, n.op);
      case MatchNext => n' := RunMatchNext(tests, z, n.t, n.ip, dst, n.op);
    }
  }

  /** The decompressor's loop. */
  method Decompress(tests: bool, z: seq<byte>, dst: array<byte>) returns (code: Code, outLen: nat)
    requires |z| < TWO_64 && dst.Length < TWO_64
    requires tests || NoOverrun(Decompressed(z, dst.Length).code)
    modifies dst
    ensures outLen <= dst.Length
    ensures Outcome(code, dst[..outLen]) == Decompressed(z, dst.Length)
    ensures forall i :: outLen <= i < dst.Length ==> dst[i] == old(dst[i])
  {
    hide Decode, Step, Start;
    NoOverrunIsSound(z, dst.Length, Start(z, dst.Length));
    var n := Begin(tests, z, dst);
    while n.Goto?
      invariant n.op <= dst.Length && Ready(z, dst.Length, n.View(dst))
      invariant Decode(z, dst.Length, n.View(dst)) == Decompressed(z, dst.Length)
      invariant forall i :: n.op <= i < dst.Length ==> dst[i] == old(dst[i])
      decreases if n.Return? then 0 else |z| - n.ip + 1, if n.Goto? && n.pc.MatchDone? then 1 else 0
    {
      DecodeStep(z, dst.Length, n.View(dst));
      NoOverrunIsSound(z, dst.Length, Step(z, dst.Length, n.View(dst)));
      n := Advance(tests, z, n, dst);
    }
    DecodeDone(z, dst.Length, n.View(dst));
    return n.code, n.op;
  }

  /** The safe decompressor. For every input and every buffer it returns; all reads
      are inside the input, all writes inside the first `outLen` bytes, and no 64-bit
      length wraps around, since the result is the one of unbounded lengths. It accepts
      exactly the streams for whose text there is room. */
  method DecompressSafe(z: seq<byte>, dst: array<byte>) returns (code: Code, outLen: nat)
    requires |z| < TWO_64 && dst.Length < TWO_64
    modifies dst
    ensures outLen <= dst.Length
    ensures Outcome(code, dst[..outLen]) == Decompressed(z, dst.Length)
    ensures forall i :: outLen <= i < dst.Length ==> dst[i] == old(dst[i])
    ensures code == OK ==> LzoStream.StandsFor(z, dst[..outLen])
    ensures forall text | LzoStream.StandsFor(z, text) ::
              if |text| <= dst.Length then code == OK && dst[..outLen] == text
              else code == OutputOverrun && dst[..outLen] <= text
  {
    hide LzoStream.StandsFor, Decompressed;
    code, outLen := Decompress(true, z, dst);
    LzoStream.AcceptsExactly(z, dst[..outLen], dst.Length);
    forall text | LzoStream.StandsFor(z, text)
      ensures if |text| <= dst.Length then code == OK && dst[..outLen] == text
              else code == OutputOverrun && dst[..outLen] <= text
    {
      if |text| <= dst.Length {
        LzoStream.AcceptsExactly(z, text, dst.Length);
      } else {
        LzoStream.TooSmall(z, text, dst.Length);
      }
    }
  }

  /** The fast decompressor, on any input for which the safe one reports no overrun
      with a buffer of this size: without a test it reads and writes the same bytes. */
  method DecompressFast(z: seq<byte>, dst: array<byte>) returns (code: Code, outLen: nat)
    requires |z| < TWO_64 && dst.Length < TWO_64
    requires NoOverrun(Decompressed(z, dst.Length).code)
    modifies dst
    ensures outLen <= dst.Length
    ensures Outcome(code, dst[..outLen]) == Decompressed(z, dst.Length)
    ensures forall i :: outLen <= i < dst.Length ==> dst[i] == old(dst[i])
    ensures code == OK <==> LzoStream.StandsFor(z, dst[..outLen])
  {
    hide LzoStream.StandsFor, Decompressed;
    code, outLen := Decompress(false, z, dst);
    LzoStream.AcceptsExactly(z, dst[..outLen], dst.Length);
  }

  lemma {:induction false} NoOverrunIsSound(z: seq<byte>, cap: nat, s: State)
    requires Ready(z, cap, s)
    ensures NoOverrun(Decode(z, cap, s).code) ==> Sound(s)
  {
  }

  lemma {:induction false} DecodeStep(z: seq<byte>, cap: nat, s: State)
    requires s.At? && Ready(z, cap, s)
    ensures Decode(z, cap, s) == Decode(z, cap, Step(z, cap, s))
  {
  }

  lemma {:induction false} DecodeDone(z: seq<byte>, cap: nat, s: State)
    requires s.Done? && Ready(z, cap, s)
    ensures Decode(z, cap, s) == s.result
  {
  }
}
