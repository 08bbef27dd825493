/** The document: values, the numbers they hold, the events they give, and the stack on
    which events build values. */
module JsonDocument {
  import opened Words
  import opened JsonEvents
  import opened JsonNumber
  import opened JsonText

  // ---------- Numbers

  /** Which integer types a number can be read as. */
  datatype NumberFlags = NumberFlags(isInt: bool, isUint: bool, isInt64: bool, isUint64: bool)

  datatype Num = Num(flags: NumberFlags, value: int)

  /** The flags that the mathematical value calls for. */
  function FlagsOf(v: int): NumberFlags {
    NumberFlags(-TWO_31 <= v < TWO_31, 0 <= v < TWO_32, -TWO_63 <= v < TWO_63, 0 <= v < TWO_64)
  }

  // The four constructors. A test of high bits by a mask is written as a comparison.

  function FromInt(i: int): Num
    requires -TWO_31 <= i < TWO_31
  {
    Num(NumberFlags(true, i >= 0, true, i >= 0), i)
  }

  function FromUint(u: nat): Num
    requires u < TWO_32
  {
    Num(if u >= TWO_31 then NumberFlags(false, true, true, true) else NumberFlags(true, true, true, true), u)
  }

  function FromInt64(i: int): Num
    requires -TWO_63 <= i < TWO_63
  {
    if i >= 0 then Num(NumberFlags(i < TWO_31, i < TWO_32, true, true), i)
    else Num(NumberFlags(i >= -TWO_31, false, true, false), i)
  }

  function FromUint64(u: nat): Num
    requires u < TWO_64
  {
    Num(NumberFlags(u < TWO_31, u < TWO_32, u < TWO_63, true), u)
  }

  predicate InRange(v: int) {
    -TWO_63 <= v < TWO_64
  }

  /** The number of a value, whichever constructor makes it. */
  function NumberOf(v: int): (n: Num)
    ensures n.value == v
  {
    Num(FlagsOf(v), v)
  }

  /** Whichever constructor is used, the flags depend on the value alone. */
  lemma FlagsDependOnValue(v: int)
    ensures -TWO_31 <= v < TWO_31 ==> FromInt(v) == NumberOf(v)
    ensures 0 <= v < TWO_32 ==> FromUint(v) == NumberOf(v)
    ensures -TWO_63 <= v < TWO_63 ==> FromInt64(v) == NumberOf(v)
    ensures 0 <= v < TWO_64 ==> FromUint64(v) == NumberOf(v)
  {
  }

  // ---------- Values

  datatype Json =
    | JNull
    | JBool(b: bool)
    | JNumber(n: Num)
    | JDouble(text: seq<byte>)  // the double that this text denotes
    | JString(s: seq<byte>)
    | JObject(members: seq<Member>)
    | JArray(elements: seq<Json>)

  datatype Member = Member(name: seq<byte>, value: Json)

  /** Values that can be held: numbers with their flags, and lengths and sizes of 32 bits. */
  predicate Valid(v: Json) {
    match v
    case JNumber(n) => InRange(n.value) && n == NumberOf(n.value)
    case JString(s) => |s| < TWO_32
    case JObject(ms) => |ms| < TWO_32 && forall k :: 0 <= k < |ms| ==> |ms[k].name| < TWO_32 && Valid(ms[k].value)
    case JArray(es) => |es| < TWO_32 && forall k :: 0 <= k < |es| ==> Valid(es[k])
    case _ => true
  }

  /** Values without doubles, whose text is known. */
  predicate Printable(v: Json) {
    Valid(v) && NoDoubles(v)
  }

  predicate NoDoubles(v: Json) {
    match v
    case JObject(ms) => forall k :: 0 <= k < |ms| ==> NoDoubles(ms[k].value)
    case JArray(es) => forall k :: 0 <= k < |es| ==> NoDoubles(es[k])
    case _ => !v.JDouble?
  }

  /** No string or name reaches 2^32 - 1 bytes, which is the one length that a value can hold and
      a reader with a stack cannot hand out. */
  predicate Readable(v: Json) {
    match v
    case JString(s) => |s| < TWO_32 - 1
    case JObject(ms) => forall k :: 0 <= k < |ms| ==> |ms[k].name| < TWO_32 - 1 && Readable(ms[k].value)
    case JArray(es) => forall k :: 0 <= k < |es| ==> Readable(es[k])
    case _ => true
  }

  /** The event of a number, chosen by its flags. */
  function NumberEvent(n: Num): Event
    requires InRange(n.value) && n == NumberOf(n.value)
  {
    if n.flags.isInt then Int(n.value)
    else if n.flags.isUint then Uint(n.value)
    else if n.flags.isInt64 then Int64(n.value)
    else Uint64(n.value)
  }

  /** The events that a value gives to a handler. */
  function Events(v: Json): seq<Event>
    requires Valid(v)
    decreases v, 1
  {
    match v
    case JNull => [Null]
    case JBool(b) => [Bool(b)]
    case JNumber(n) => [NumberEvent(n)]
    case JDouble(t) => [Double(t)]
    case JString(s) => [String(s)]
    case JObject(ms) => [StartObject] + MemberEvents(ms) + [EndObject(|ms|)]
    case JArray(es) => [StartArray] + ElementEvents(es) + [EndArray(|es|)]
  }

  function ElementEvents(es: seq<Json>): seq<Event>
    requires forall k :: 0 <= k < |es| ==> Valid(es[k])
    decreases es, 0
  {
    if es == [] then [] else Events(es[0]) + ElementEvents(es[1..])
  }

  function MemberEvents(ms: seq<Member>): seq<Event>
    requires forall k :: 0 <= k < |ms| ==> Valid(ms[k].value)
    decreases ms, 0
  {
    if ms == [] then [] else [Key(ms[0].name)] + Events(ms[0].value) + MemberEvents(ms[1..])
  }

  // ---------- Building values from events

  /** The names and values of members, as they lie on the stack. */
  function Flat(ms: seq<Member>): (r: seq<Json>)
    ensures |r| == 2 * |ms|
  {
    if ms == [] then [] else [JString(ms[0].name), ms[0].value] + Flat(ms[1..])
  }

  /** Pairs on the stack read as members; names have to be strings. */
  function Paired(flat: seq<Json>): Option<seq<Member>> {
    if flat == [] then Some([])
    else if |flat| == 1 || !flat[0].JString? then None
    else
      match Paired(flat[2..])
      case None => None
      case Some(ms) => Some([Member(flat[0].s, flat[1])] + ms)
  }

  lemma {:induction false} PairedFlat(ms: seq<Member>)
    ensures Paired(Flat(ms)) == Some(ms)
  {
    if ms != [] {
      PairedFlat(ms[1..]);
      var flat := Flat(ms);
      assert flat[2..] == Flat(ms[1..]);
      assert [Member(flat[0].s, flat[1])] + ms[1..] == ms;
    }
  }

  /** What one event does to the stack of values; nothing if the stack is too small or
      an event carries a number out of its range. */
  function Apply(stack: seq<Json>, e: Event): Option<seq<Json>> {
    match e
    case Null => Some(stack + [JNull])
    case Bool(b) => Some(stack + [JBool(b)])
    case Int(i) => if -TWO_31 <= i < TWO_31 then Some(stack + [JNumber(FromInt(i))]) else None
    case Uint(u) => if u < TWO_32 then Some(stack + [JNumber(FromUint(u))]) else None
    case Int64(i) => if -TWO_63 <= i < TWO_63 then Some(stack + [JNumber(FromInt64(i))]) else None
    case Uint64(u) => if u < TWO_64 then Some(stack + [JNumber(FromUint64(u))]) else None
    case Double(t) => Some(stack + [JDouble(t)])
    case String(s) => Some(stack + [JString(s)])
    case Key(s) => Some(stack + [JString(s)])
    case StartObject => Some(stack + [JObject([])])
    case StartArray => Some(stack + [JArray([])])
    case EndArray(n) =>
      if n + 1 > |stack| then None
      else
        var base := |stack| - n - 1;
        Some(stack[..base] + [JArray(stack[base + 1..])])
    case EndObject(n) =>
      if 2 * n + 1 > |stack| then None
      else
        var base := |stack| - 2 * n - 1;
        match Paired(stack[base + 1..])
        case None => None
        case Some(ms) => Some(stack[..base] + [JObject(ms)])
  }

  /** A sequence of events applied in order. */
  function Build(stack: seq<Json>, events: seq<Event>): Option<seq<Json>>
    decreases |events|
  {
    if events == [] then Some(stack)
    else
      match Apply(stack, events[0])
      case None => None
      case Some(st) => Build(st, events[1..])
  }

  lemma {:induction false} BuildSplit(stack: seq<Json>, a: seq<Event>, b: seq<Event>)
    ensures Build(stack, a + b) == match Build(stack, a)
                                   case None => None
                                   case Some(st) => Build(st, b)
    decreases |a|
  {
    if a == [] {
      assert a + b == b;
    } else {
      assert (a + b)[1..] == a[1..] + b;
      match Apply(stack, a[0])
      case None =>
      case Some(st) => BuildSplit(st, a[1..], b);
    }
  }

  lemma {:induction false} BuildOne(stack: seq<Json>, e: Event)
    ensures Build(stack, [e]) == Apply(stack, e)
  {
    assert [e][1..] == [];
  }

  /** The value of a number event in any of the four forms. */
  function NumberIn(e: Event): Option<int> {
    match e
    case Int(i) => if -TWO_31 <= i < TWO_31 then Some(i) else None
    case Uint(u) => if u < TWO_32 then Some(u) else None
    case Int64(i) => if -TWO_63 <= i < TWO_63 then Some(i) else None
    case Uint64(u) => if u < TWO_64 then Some(u) else None
    case _ => None
  }

  predicate SameEvent(a: Event, b: Event) {
    a == b || (NumberIn(a).Some? && NumberIn(a) == NumberIn(b))
  }

  /** Two event sequences that differ at most in the form of their numbers. */
  predicate SameEvents(a: seq<Event>, b: seq<Event>) {
    |a| == |b| && forall k :: 0 <= k < |a| ==> SameEvent(a[k], b[k])
  }

  /** The form of a number event makes no difference to the document. */
  lemma {:induction false} SameEventsBuildSame(stack: seq<Json>, a: seq<Event>, b: seq<Event>)
    requires SameEvents(a, b)
    ensures Build(stack, a) == Build(stack, b)
    decreases |a|
  {
    if a != [] {
      if a[0] != b[0] {
        FlagsDependOnValue(NumberIn(a[0]).value);
      }
      assert Apply(stack, a[0]) == Apply(stack, b[0]);
      match Apply(stack, a[0])
      case None =>
      case Some(st) => SameEventsBuildSame(st, a[1..], b[1..]);
    }
  }

  /** The events of a value push exactly that value. */
  lemma {:induction false} EventsBuild(stack: seq<Json>, v: Json)
    requires Valid(v)
    ensures Build(stack, Events(v)) == Some(stack + [v])
    decreases v, 1
  {
    match v
    case JObject(ms) =>
      hide Build, Apply;
      MembersBuild(stack + [JObject([])], ms);
      CloseObject(stack, ms);
      BracketBuilds(stack, StartObject, JObject([]), MemberEvents(ms), Flat(ms), EndObject(|ms|));
    case JArray(es) =>
      hide Build, Apply;
      ElementsBuild(stack + [JArray([])], es);
      CloseArray(stack, es);
      BracketBuilds(stack, StartArray, JArray([]), ElementEvents(es), es, EndArray(|es|));
    case JNumber(n) =>
      FlagsDependOnValue(n.value);
      BuildOne(stack, NumberEvent(n));
    case _ =>
      BuildOne(stack, Events(v)[0]);
  }

  lemma {:induction false} BracketBuilds(stack: seq<Json>, first: Event, v: Json, events: seq<Event>,
                                         inside: seq<Json>, last: Event)
    requires (first == StartArray && v == JArray([])) || (first == StartObject && v == JObject([]))
    requires Build(stack + [v], events) == Some(stack + [v] + inside)
    ensures Build(stack, [first] + events + [last]) == Build(stack + [v] + inside, [last])
  {
    hide Build;
    BuildOne(stack, first);
    BuildSplit(stack, [first] + events, [last]);
    BuildSplit(stack, [first], events);
  }

  lemma {:induction false} CloseArray(stack: seq<Json>, es: seq<Json>)
    ensures Build(stack + [JArray([])] + es, [EndArray(|es|)]) == Some(stack + [JArray(es)])
  {
    var st := stack + [JArray([])] + es;
    BuildOne(st, EndArray(|es|));
    assert st[..|stack|] == stack && st[|stack| + 1..] == es;
  }

  lemma {:induction false} CloseObject(stack: seq<Json>, ms: seq<Member>)
    ensures Build(stack + [JObject([])] + Flat(ms), [EndObject(|ms|)]) == Some(stack + [JObject(ms)])
  {
    var st := stack + [JObject([])] + Flat(ms);
    BuildOne(st, EndObject(|ms|));
    assert st[..|stack|] == stack && st[|stack| + 1..] == Flat(ms);
    PairedFlat(ms);
  }

  lemma {:induction false} ElementsBuild(stack: seq<Json>, es: seq<Json>)
    requires forall k :: 0 <= k < |es| ==> Valid(es[k])
    ensures Build(stack, ElementEvents(es)) == Some(stack + es)
    decreases es, 0
  {
    if es == [] {
      assert stack + es == stack;
    } else {
      EventsBuild(stack, es[0]);
      BuildSplit(stack, Events(es[0]), ElementEvents(es[1..]));
      ElementsBuild(stack + [es[0]], es[1..]);
      assert stack + [es[0]] + es[1..] == stack + es;
    }
  }

  lemma {:induction false} MemberBuilds(stack: seq<Json>, m: Member)
    requires Valid(m.value)
    ensures Build(stack, [Key(m.name)] + Events(m.value)) == Some(stack + [JString(m.name)] + [m.value])
    decreases m.value, 2
  {
    hide Build, Events, Valid;
    BuildOne(stack, Key(m.name));
    BuildSplit(stack, [Key(m.name)], Events(m.value));
    EventsBuild(stack + [JString(m.name)], m.value);
  }

  lemma {:induction false} MembersBuild(stack: seq<Json>, ms: seq<Member>)
    requires forall k :: 0 <= k < |ms| ==> Valid(ms[k].value)
    ensures Build(stack, MemberEvents(ms)) == Some(stack + Flat(ms))
    decreases ms, 0
  {
    if ms == [] {
      assert stack + Flat(ms) == stack;
    } else {
      hide Build, Events, Valid;
      var m, rest := ms[0], ms[1..];
      MemberBuilds(stack, m);
      BuildSplit(stack, [Key(m.name)] + Events(m.value), MemberEvents(rest));
      MembersBuild(stack + [JString(m.name)] + [m.value], rest);
      assert stack + [JString(m.name)] + [m.value] + Flat(rest) == stack + Flat(ms);
    }
  }
}
