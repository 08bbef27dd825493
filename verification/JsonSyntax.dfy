/** The language of JSON texts (section 2 of RFC 4627), with the comments and trailing commas
    that flags allow: syntax trees that keep every byte, their text, and their events. */
module JsonSyntax {
  import opened Words
  import opened JsonText
  import opened JsonEvents
  import opened JsonSpelling
  import N = JsonNumber
  import G = JsonGrammar

  // ---------- Between tokens

  /** A comment in stars up to the first star and slash, or from two slashes to the end of its
      line. */
  predicate IsComment(c: seq<byte>) {
    var n := |c|;
    || (n >= 4 && c[0] == 0x2F && c[1] == 0x2A && c[n - 2] == 0x2A && c[n - 1] == 0x2F
        && forall k :: 2 <= k < n - 2 ==> c[k] != 0 && !(c[k] == 0x2A && c[k + 1] == 0x2F))
    || (n >= 3 && c[0] == 0x2F && c[1] == 0x2F && c[n - 1] == 0x0A
        && forall k :: 2 <= k < n - 1 ==> c[k] != 0 && c[k] != 0x0A)
  }

  /** White space, and comments where they are allowed. */
  ghost predicate IsGap(t: seq<byte>, comments: bool)
    decreases |t|
  {
    || t == []
    || (t[0] in {0x20, 0x09, 0x0A, 0x0D} && IsGap(t[1..], comments))
    || (comments && exists n :: 1 <= n <= |t| && IsComment(t[..n]) && IsGap(t[n..], comments))
  }

  /** A comment whose line is the last one. */
  predicate IsLastComment(c: seq<byte>) {
    |c| >= 2 && c[0] == 0x2F && c[1] == 0x2F && forall k :: 2 <= k < |c| ==> c[k] != 0 && c[k] != 0x0A
  }

  /** What may come at the end of a text. */
  ghost predicate IsTail(t: seq<byte>, comments: bool) {
    || IsGap(t, comments)
    || (comments && exists n :: 0 <= n <= |t| && IsGap(t[..n], comments) && IsLastComment(t[n..]))
  }

  // ---------- Numbers

  datatype Exponent = Exponent(mark: byte, sign: Option<byte>, digits: seq<byte>)

  datatype Number = Number(minus: bool, whole: seq<byte>, fraction: Option<seq<byte>>, exponent: Option<Exponent>)

  predicate AllDigits(t: seq<byte>) {
    forall k :: 0 <= k < |t| ==> IsDigit(t[k])
  }

  predicate ValidNumber(m: Number) {
    && m.whole != [] && AllDigits(m.whole) && (|m.whole| > 1 ==> m.whole[0] != 0x30)
    && (m.fraction.Some? ==> m.fraction.value != [] && AllDigits(m.fraction.value))
    && (m.exponent.Some? ==>
          && m.exponent.value.mark in {0x65, 0x45}
          && (m.exponent.value.sign.Some? ==> m.exponent.value.sign.value in {0x2B, 0x2D})
          && m.exponent.value.digits != [] && AllDigits(m.exponent.value.digits))
  }

  function SignText(sign: Option<byte>): seq<byte> {
    if sign.Some? then [sign.value] else []
  }

  function FractionText(f: Option<seq<byte>>): seq<byte> {
    if f.Some? then [0x2E] + f.value else []
  }

  function ExponentText(e: Option<Exponent>): seq<byte> {
    if e.Some? then [e.value.mark] + (SignText(e.value.sign) + e.value.digits) else []
  }

  function NumberText(m: Number): seq<byte> {
    (if m.minus then [0x2D] else []) + (m.whole + (FractionText(m.fraction) + ExponentText(m.exponent)))
  }

  function Magnitude(m: Number): nat
    requires ValidNumber(m)
  {
    N.Decimal(0, m.whole)
  }

  predicate IsBig(m: Number)
    requires ValidNumber(m)
  {
    Magnitude(m) > N.Largest64(m.minus)
  }

  /** The digits of the fraction that the exponent's limit is raised by. */
  function Scale(m: Number): nat
    requires ValidNumber(m)
  {
    if m.fraction.None? || IsBig(m) then 0
    else N.ScalingDigits(m.fraction.value, Magnitude(m), |m.whole| - 1, true)
  }

  /** The limits beyond which a number is refused. */
  predicate InLimits(m: Number)
    requires ValidNumber(m)
  {
    && (IsBig(m) ==> !N.TooBig(N.Decimal(0, m.whole[..|m.whole| - 1])))
    && (m.exponent.Some? && m.exponent.value.sign != Some(0x2D) ==>
          var d := m.exponent.value.digits; N.ExponentFits(d[1..], N.DigitValue(d[0]), 308 + Scale(m)))
  }

  /** An integer of 64 bits is itself, in 32 bits where it fits; all else is a double. */
  function NumberEvent(m: Number): Event
    requires ValidNumber(m)
  {
    if m.fraction.None? && m.exponent.None? && !IsBig(m) then N.IntegerEvent(m.minus, Magnitude(m))
    else Double(NumberText(m))
  }

  /** The number does not go on with this byte. */
  predicate NumberStops(m: Number, c: byte) {
    if m.exponent.Some? then !IsDigit(c)
    else if m.fraction.Some? then !IsDigit(c) && !N.IsExponentMark(c)
    else c != 0x2E && !N.IsExponentMark(c) && (m.whole == [0x30] || !IsDigit(c))
  }

  // ---------- Values

  /** Elements and members keep the gaps around them; the gap before the end of an array or
      object stands by itself only if nothing, or a comma, is before it. */
  datatype Syntax =
    | Word(text: seq<byte>, event: Event)
    | Num(number: Number)
    | Str(text: seq<byte>, bytes: seq<byte>)
    | Arr(elements: seq<Element>, comma: bool, end: seq<byte>)
    | Obj(members: seq<Member>, comma: bool, end: seq<byte>)

  datatype Element = Element(lead: seq<byte>, value: Syntax, after: seq<byte>)

  datatype Member = Member(lead: seq<byte>, name: seq<byte>, key: seq<byte>, colon: seq<byte>, gap: seq<byte>,
                           value: Syntax, after: seq<byte>)

  predicate ValidWord(text: seq<byte>, e: Event) {
    || (text == [0x6E, 0x75, 0x6C, 0x6C] && e == Null)
    || (text == [0x74, 0x72, 0x75, 0x65] && e == Bool(true))
    || (text == [0x66, 0x61, 0x6C, 0x73, 0x65] && e == Bool(false))
  }

  predicate ValidEnd(n: nat, comma: bool, end: seq<byte>, f: G.Flags) {
    (comma ==> f.trailingCommas && n > 0) && (n > 0 && !comma ==> end == [])
  }

  ghost predicate Valid(v: Syntax, f: G.Flags) {
    match v
    case Word(text, e) => ValidWord(text, e)
    case Num(m) => ValidNumber(m) && InLimits(m)
    case Str(text, bytes) => Spells(text, bytes)
    case Arr(es, comma, end) =>
      && ValidEnd(|es|, comma, end, f) && IsGap(end, f.comments)
      && forall k :: 0 <= k < |es| ==>
                       IsGap(es[k].lead, f.comments) && Valid(es[k].value, f) && IsGap(es[k].after, f.comments)
    case Obj(ms, comma, end) =>
      && ValidEnd(|ms|, comma, end, f) && IsGap(end, f.comments)
      && forall k :: 0 <= k < |ms| ==>
                       && IsGap(ms[k].lead, f.comments) && Spells(ms[k].name, ms[k].key)
                       && IsGap(ms[k].colon, f.comments) && IsGap(ms[k].gap, f.comments)
                       && Valid(ms[k].value, f) && IsGap(ms[k].after, f.comments)
  }

  function Text(v: Syntax): seq<byte>
    decreases v, 1
  {
    match v
    case Word(text, _) => text
    case Num(m) => NumberText(m)
    case Str(text, _) => [0x22] + (text + [0x22])
    case Arr(es, comma, end) =>
      [0x5B] + if es == [] then end + [0x5D] else ElementText(es[0]) + ElementsText(es[1..], comma, end)
    case Obj(ms, comma, end) =>
      [0x7B] + if ms == [] then end + [0x7D] else MemberText(ms[0]) + MembersText(ms[1..], comma, end)
  }

  function ElementText(e: Element): seq<byte>
    decreases e, 2
  {
    e.lead + (Text(e.value) + e.after)
  }

  /** The elements from one on that has a comma before it, and the end. */
  function ElementsText(es: seq<Element>, comma: bool, end: seq<byte>): seq<byte>
    decreases es, 0
  {
    if es == [] then (if comma then [0x2C] else []) + (end + [0x5D])
    else [0x2C] + (ElementText(es[0]) + ElementsText(es[1..], comma, end))
  }

  function MemberText(m: Member): seq<byte>
    decreases m, 2
  {
    m.lead + ([0x22] + (m.name + [0x22]) + (m.colon + ([0x3A] + (m.gap + (Text(m.value) + m.after)))))
  }

  function MembersText(ms: seq<Member>, comma: bool, end: seq<byte>): seq<byte>
    decreases ms, 0
  {
    if ms == [] then (if comma then [0x2C] else []) + (end + [0x7D])
    else [0x2C] + (MemberText(ms[0]) + MembersText(ms[1..], comma, end))
  }

  /** The events of a syntax tree, with counts of 32 bits. */
  function Events(v: Syntax, f: G.Flags): seq<Event>
    requires Valid(v, f)
    decreases v, 1
  {
    match v
    case Word(_, e) => [e]
    case Num(m) => [NumberEvent(m)]
    case Str(_, bytes) => [String(bytes)]
    case Arr(es, _, _) => [StartArray] + (ElementEvents(es, f) + [EndArray(|es| % TWO_32)])
    case Obj(ms, _, _) => [StartObject] + (MemberEvents(ms, f) + [EndObject(|ms| % TWO_32)])
  }

  function ElementEvents(es: seq<Element>, f: G.Flags): seq<Event>
    requires forall k :: 0 <= k < |es| ==> Valid(es[k].value, f)
    decreases es, 0
  {
    if es == [] then [] else Events(es[0].value, f) + ElementEvents(es[1..], f)
  }

  function MemberEvents(ms: seq<Member>, f: G.Flags): seq<Event>
    requires forall k :: 0 <= k < |ms| ==> Valid(ms[k].value, f)
    decreases ms, 0
  {
    if ms == [] then [] else [Key(ms[0].key)] + (Events(ms[0].value, f) + MemberEvents(ms[1..], f))
  }

  /** A byte after a value that does not belong to it. */
  predicate Stops(v: Syntax, c: byte) {
    v.Num? ==> NumberStops(v.number, c)
  }

  // ---------- Whole texts

  datatype Whole = Whole(lead: seq<byte>, root: Syntax, tail: seq<byte>)

  /** A text up to where it is read: a value between gaps and then a zero byte or the end; or
      anything after the value, if reading stops there. */
  ghost predicate IsText(s: seq<byte>, f: G.Flags, pos: nat, w: Whole) {
    && pos <= |s| && s[..pos] == w.lead + (Text(w.root) + w.tail)
    && IsGap(w.lead, f.comments) && Valid(w.root, f) && Stops(w.root, Peek(s, |w.lead| + |Text(w.root)|))
    && (if f.stopWhenDone then w.tail == [] else IsTail(w.tail, f.comments) && Peek(s, pos) == 0)
  }
}
