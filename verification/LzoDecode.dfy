/** What the safe LZO1X decompressor computes, over values: its labels, its input,
    output and look-behind tests in their order, with unbounded lengths. */
module LzoDecode {
  import opened Words
  import opened LzoFormat

  /** The return codes of the decompressor that can occur. */
  datatype Code = OK | InputOverrun | OutputOverrun | LookbehindOverrun | InputNotConsumed

  /** The return code and the bytes written when the decompressor returns. */
  datatype Outcome = Outcome(code: Code, out: seq<byte>)

  /** The places the decompressor's jumps lead to. */
  datatype Label = Top | FirstRun | Match | MatchDone | MatchNext

  /** The limit of the tests that keep a length from wrapping around. */
  const LENGTH_LIMIT := TWO_64 - 511

  /** Length bytes that pass these tests: the zero bytes among them count for 255 each. */
  predicate Legible(n: nat)
    requires n >= 1
  {
    (n - 1) / 255 * 255 <= LENGTH_LIMIT
  }

  /** A length that is stored whole up to `max`, and otherwise as length bytes beyond it. */
  predicate LegibleBeyond(max: nat, n: nat) {
    n > max ==> Legible(n - max)
  }

  datatype Run = Length(ip: nat, t: nat) | TooLong | NoInput

  /** Reads zero bytes worth 255 each and the non-zero byte after them. */
  function ReadLength(z: seq<byte>, ip: nat, t: nat): (r: Run)
    requires ip < |z| && t <= LENGTH_LIMIT
    ensures r.Length? ==> ip < r.ip <= |z| && t + 1 <= r.t <= LENGTH_LIMIT + 255
    decreases |z| - ip
  {
    if z[ip] != 0 then Length(ip + 1, t + z[ip])
    else if t + 255 > LENGTH_LIMIT then TooLong
    else if ip + 1 >= |z| then NoInput
    else ReadLength(z, ip + 1, t + 255)
  }

  /** What a decoded instruction asks for. */
  datatype Order =
    | Copy(off: nat, len: nat, ip: nat)
    | Eof(ip: nat)
    | Bad(code: Code)

  /** A length of `t`, or when that is zero the length bytes and `base`. */
  function MatchLength(z: seq<byte>, ip: nat, t: nat, base: nat): (r: Run)
    requires ip + 2 <= |z| && t <= 255
    ensures r.Length? ==> ip <= r.ip && r.ip + 2 <= |z| && 1 <= r.t <= LENGTH_LIMIT + 255 + base
  {
    if t != 0 then Length(ip, t) else
      var r := ReadLength(z, ip, 0);
      if !r.Length? then r
      else if |z| - r.ip < 2 then NoInput
      else Length(r.ip, r.t + base)
  }

  function Offset14(z: seq<byte>, ip: nat): nat
    requires ip + 2 <= |z|
  {
    z[ip] / 4 + (z[ip + 1] as int) * 64
  }

  /** Decodes the instruction whose first byte `t` has just been read. */
  function Instruction(z: seq<byte>, t: byte, ip: nat): (o: Order)
    requires ip + 2 <= |z|
    ensures o.Copy? ==> o.off >= 1 && o.len >= 2 && ip < o.ip <= |z|
    ensures o.Eof? ==> o.ip <= |z|
  {
    if t >= 64 then
      Copy(1 + t / 4 % 8 + (z[ip] as int) * 8, t / 32 + 1, ip + 1)
    else if t >= 32 then
      match MatchLength(z, ip, t % 32, 31)
      case Length(p, len) => Copy(1 + Offset14(z, p), len + 2, p + 2)
      case TooLong => Bad(OutputOverrun)
      case NoInput => Bad(InputOverrun)
    else if t >= 16 then
      match MatchLength(z, ip, t % 8, 7)
      case Length(p, len) =>
        var off := t / 8 % 2 * 0x4000 + Offset14(z, p);
        if off == 0 then Eof(p + 2) else Copy(off + 0x4000, len + 2, p + 2)
      case TooLong => Bad(OutputOverrun)
      case NoInput => Bad(InputOverrun)
    else
      Copy(1 + t / 4 + (z[ip] as int) * 4, 2, ip + 1)
  }

  /** The header of a literal run at the top of the loop, first byte `t` read. */
  function RunLength(z: seq<byte>, t: byte, ip: nat): (r: Run)
    requires ip < |z|
    ensures r.Length? ==> ip <= r.ip <= |z| && 1 <= r.t <= LENGTH_LIMIT + 255 + 15
  {
    if t != 0 then Length(ip, t) else
      var r := ReadLength(z, ip, 0);
      if r.Length? then Length(r.ip, r.t + 15) else r
  }

  /** The decompressor at a label, with its variable `t`, its read cursor and what
      it has written; or the decompressor when it has returned. */
  datatype State =
    | At(pc: Label, t: nat, ip: nat, out: seq<byte>)
    | Done(result: Outcome)

  /** The facts that hold at each label: enough input for the reads that follow. */
  predicate Ready(z: seq<byte>, cap: nat, s: State) {
    match s
    case Done(r) => |r.out| <= cap
    case At(pc, t, ip, out) =>
      && ip <= |z|
      && |out| <= cap
      && match pc
         case Top => true
         case FirstRun => ip + 3 <= |z|
         case Match => 1 <= ip && ip + 2 <= |z| && t < 256
         case MatchDone => 2 <= ip
         case MatchNext => 1 <= t <= 3
  }

  /** Copies a reference, after the look-behind test and then the output test. */
  function CopyOrder(cap: nat, out: seq<byte>, off: nat, len: nat, ip: nat): (s: State)
    requires off >= 1 && |out| <= cap
  {
    if off > |out| then Done(Outcome(LookbehindOverrun, out))
    else if cap - |out| < len then Done(Outcome(OutputOverrun, out))
    else At(MatchDone, 0, ip, CopyBack(out, off, len))
  }

  /** Copies `n` literals to the output, leaving `spare` bytes of input at least. */
  function TakeLiterals(z: seq<byte>, cap: nat, out: seq<byte>, ip: nat, n: nat, spare: nat): (s: Result)
    requires ip <= |z| && |out| <= cap
    ensures s.Took? ==> ip + n + spare <= |z| && |s.out| <= cap
  {
    if cap - |out| < n then Fail(OutputOverrun)
    else if |z| - ip < n + spare then Fail(InputOverrun)
    else Took(out + z[ip..ip + n])
  }

  datatype Result = Took(out: seq<byte>) | Fail(code: Code)

  function StepTop(z: seq<byte>, cap: nat, ip: nat, out: seq<byte>): State
    requires ip <= |z| && |out| <= cap
  {
    if |z| - ip < 3 then Done(Outcome(InputOverrun, out))
    else if z[ip] >= 16 then At(Match, z[ip], ip + 1, out)
    else
      match RunLength(z, z[ip], ip + 1)
      case Length(p, n) => (
        match TakeLiterals(z, cap, out, p, n + 3, 3)
        case Took(o) => At(FirstRun, 0, p + n + 3, o)
        case Fail(code) => Done(Outcome(code, out))
        )
      case _ => Done(Outcome(InputOverrun, out))
  }

  function StepFirstRun(z: seq<byte>, cap: nat, ip: nat, out: seq<byte>): State
    requires ip + 3 <= |z| && |out| <= cap
  {
    if z[ip] >= 16 then At(Match, z[ip], ip + 1, out)
    else CopyOrder(cap, out, 1 + M2_MAX_OFFSET + z[ip] / 4 + (z[ip + 1] as int) * 4, 3, ip + 2)
  }

  function StepMatch(z: seq<byte>, cap: nat, t: byte, ip: nat, out: seq<byte>): State
    requires ip + 2 <= |z| && |out| <= cap
  {
    match Instruction(z, t, ip)
    case Bad(code) => Done(Outcome(code, out))
    case Eof(p) => Done(Outcome(if p == |z| then OK else InputNotConsumed, out))
    case Copy(off, len, p) => CopyOrder(cap, out, off, len, p)
  }

  function StepMatchNext(z: seq<byte>, cap: nat, t: nat, ip: nat, out: seq<byte>): State
    requires ip <= |z| && |out| <= cap
  {
    match TakeLiterals(z, cap, out, ip, t, 3)
    case Took(o) => At(Match, z[ip + t], ip + t + 1, o)
    case Fail(code) => Done(Outcome(code, out))
  }

  /** One step of the decompressor, from one label to the next. */
  function Step(z: seq<byte>, cap: nat, s: State): (s': State)
    requires s.At? && Ready(z, cap, s)
    ensures Ready(z, cap, s')
    ensures s'.At? ==> s.ip < s'.ip || (s.ip == s'.ip && s.pc.MatchDone? && !s'.pc.MatchDone?)
  {
    match s.pc
    case Top => StepTop(z, cap, s.ip, s.out)
    case FirstRun => StepFirstRun(z, cap, s.ip, s.out)
    case Match => StepMatch(z, cap, s.t, s.ip, s.out)
    case MatchDone =>
      var k := z[s.ip - 2] % 4;
      s.(pc := if k == 0 then Top else MatchNext, t := k)
    case MatchNext => StepMatchNext(z, cap, s.t, s.ip, s.out)
  }

  /** Runs the decompressor until it returns. */
  function Decode(z: seq<byte>, cap: nat, s: State): (r: Outcome)
    requires Ready(z, cap, s)
    ensures |r.out| <= cap
    decreases if s.Done? then 0 else |z| - s.ip + 1, if s.At? && s.pc.MatchDone? then 1 else 0
  {
    if s.Done? then s.result else Decode(z, cap, Step(z, cap, s))
  }

  /** The first byte may announce literals in a way of its own. */
  function Start(z: seq<byte>, cap: nat): (s: State)
    ensures Ready(z, cap, s)
  {
    if |z| < 1 then Done(Outcome(InputOverrun, []))
    else if z[0] <= 17 then At(Top, 0, 0, [])
    else if z[0] - 17 < 4 then At(MatchNext, z[0] - 17, 1, [])
    else
      match TakeLiterals(z, cap, [], 1, z[0] - 17, 3)
      case Took(o) => At(FirstRun, 0, 1 + (z[0] - 17), o)
      case Fail(code) => Done(Outcome(code, []))
  }

  /** The whole decompressor on input `z` with room for `cap` bytes. */
  function Decompressed(z: seq<byte>, cap: nat): (r: Outcome)
    ensures |r.out| <= cap
  {
    Decode(z, cap, Start(z, cap))
  }
}
