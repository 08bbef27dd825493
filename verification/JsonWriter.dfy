/** The writers: compact, and pretty with any indentation. A level stack with counters
    decides which separators go before each value. */
module JsonWriter {
  import opened Words
  import opened JsonText
  import opened JsonEvents
  import opened JsonDocument
  import JsonGrammar

  datatype Style = Compact | Pretty(indentChar: byte, indentCount: nat, singleLineArrays: bool)

  predicate ValidStyle(st: Style) {
    st.Pretty? ==> IsSpace(st.indentChar)
  }

  // ---------- Scalars

  /** Canonical decimal digits. */
  function DigitsText(n: nat): (t: seq<byte>)
    ensures |t| >= 1
  {
    if n < 10 then [0x30 + n] else DigitsText(n / 10) + [0x30 + n % 10]
  }

  function IntegerText(v: int): seq<byte> {
    if v < 0 then [MINUS] + DigitsText(-v) else DigitsText(v)
  }

  function HexDigit(h: nat): byte
    requires h < 16
  {
    if h < 10 then 0x30 + h else 0x41 + (h - 10)
  }

  /** The letter that escapes a byte, if it has to be escaped. */
  function EscapeLetter(c: byte): Option<byte> {
    if c == QUOTE || c == BACKSLASH then Some(c)
    else if c == 0x08 then Some(0x62)
    else if c == 0x09 then Some(0x74)
    else if c == 0x0A then Some(0x6E)
    else if c == 0x0C then Some(0x66)
    else if c == 0x0D then Some(0x72)
    else if c < 0x20 then Some(0x75)
    else None
  }

  /** A byte of a string as it is written. */
  function EscapedByte(c: byte): (t: seq<byte>)
    ensures |t| >= 1
  {
    match EscapeLetter(c)
    case None => [c]
    case Some(e) =>
      if e == 0x75 then [BACKSLASH, e, 0x30, 0x30, HexDigit(c / 16), HexDigit(c % 16)] else [BACKSLASH, e]
  }

  function Escaped(s: seq<byte>): seq<byte> {
    if s == [] then [] else EscapedByte(s[0]) + Escaped(s[1..])
  }

  function Quoted(s: seq<byte>): seq<byte> {
    [QUOTE] + Escaped(s) + [QUOTE]
  }

  // ---------- Room for a string

  /** The bytes that `WriteString` reserves for each byte of a string: for a target that has
      Unicode, and for one that is plain ASCII. */
  const UNICODE_FACTOR := 6
  const ASCII_FACTOR := 12

  /** What `WriteString` reserves before it puts bytes without looking: a 32-bit number. */
  function Reserved(length: nat, factor: nat): nat {
    (2 + length * factor) % TWO_32
  }

  predicate Fits(length: nat, factor: nat) {
    2 + length * factor < TWO_32
  }

  /** Where the number wraps, less is reserved than strings of that length may take with either
      factor, which is six bytes for each and two more. */
  lemma WrapsBelow(length: nat, factor: nat)
    requires factor == UNICODE_FACTOR || factor == ASCII_FACTOR
    ensures Fits(length, factor) ==> Reserved(length, factor) == 2 + length * factor
    ensures !Fits(length, factor) ==> Reserved(length, factor) < 2 + length * 6
  {
    var all := 2 + length * factor;
    assert all == all / TWO_32 * TWO_32 + all % TWO_32;
  }

  lemma {:induction false} EscapedSize(s: seq<byte>)
    ensures |Escaped(s)| <= 6 * |s|
    ensures (forall k :: 0 <= k < |s| ==> s[k] == NUL) ==> |Escaped(s)| == 6 * |s|
  {
    if s != [] {
      EscapedSize(s[1..]);
    }
  }

  /** The room is enough for every string of a length exactly if the number does not wrap: a
      string of zero bytes takes all of it. */
  lemma {:induction false} ReservedIsEnough(length: nat, s: seq<byte>, zeros: seq<byte>)
    requires |s| == length == |zeros| && forall k :: 0 <= k < length ==> zeros[k] == NUL
    ensures Fits(length, UNICODE_FACTOR) ==> |Quoted(s)| <= Reserved(length, UNICODE_FACTOR)
    ensures !Fits(length, UNICODE_FACTOR) ==> |Quoted(zeros)| > Reserved(length, UNICODE_FACTOR)
  {
    hide Escaped;
    EscapedSize(s);
    EscapedSize(zeros);
  }

  /** There is room for every string and name of a value. */
  predicate Roomy(v: Json) {
    match v
    case JString(s) => Fits(|s|, UNICODE_FACTOR)
    case JObject(ms) =>
      forall k :: 0 <= k < |ms| ==> Fits(|ms[k].name|, UNICODE_FACTOR) && Roomy(ms[k].value)
    case JArray(es) => forall k :: 0 <= k < |es| ==> Roomy(es[k])
    case _ => true
  }

  // ---------- Separators

  function Repeat(c: byte, n: nat): (t: seq<byte>)
    ensures |t| == n && forall k :: 0 <= k < n ==> t[k] == c
  {
    seq(n, _ => c)
  }

  /** A new line indented for `d` levels. */
  function Line(st: Style, d: nat): seq<byte>
    requires st.Pretty?
  {
    [NEWLINE] + Repeat(st.indentChar, d * st.indentCount)
  }

  /** What goes before an element of an array at level `d`. */
  function ElementLead(st: Style, d: nat, first: bool): seq<byte> {
    var comma := if first then [] else [COMMA];
    if st.Compact? then comma
    else if st.singleLineArrays then (if first then [] else [COMMA, 0x20])
    else comma + Line(st, d)
  }

  /** What goes before the name of a member of an object at level `d`. */
  function NameLead(st: Style, d: nat, first: bool): seq<byte> {
    var comma := if first then [] else [COMMA];
    if st.Compact? then comma else comma + Line(st, d)
  }

  function ColonText(st: Style): seq<byte> {
    if st.Compact? then [COLON] else [COLON, 0x20]
  }

  /** What goes before the closing of an array or object that is not empty. */
  function CloseLead(st: Style, d: nat, inArray: bool): seq<byte> {
    if st.Compact? || (inArray && st.singleLineArrays) then [] else Line(st, d)
  }

  // ---------- The text of a value

  function Text(v: Json, st: Style, d: nat): (t: seq<byte>)
    decreases v, 1
  {
    match v
    case JNull => JsonGrammar.NULL_WORD
    case JBool(b) => if b then JsonGrammar.TRUE_WORD else JsonGrammar.FALSE_WORD
    case JNumber(n) => IntegerText(n.value)
    case JDouble(_) => []  // printable values have no doubles
    case JString(s) => Quoted(s)
    case JArray(es) =>
      [LBRACKET] + ElementsText(es, st, d + 1, true) + (if es == [] then [] else CloseLead(st, d, true)) + [RBRACKET]
    case JObject(ms) =>
      [LBRACE] + MembersText(ms, st, d + 1, true) + (if ms == [] then [] else CloseLead(st, d, false)) + [RBRACE]
  }

  function ElementsText(es: seq<Json>, st: Style, d: nat, first: bool): seq<byte>
    decreases es, 0
  {
    if es == [] then []
    else ElementLead(st, d, first) + Text(es[0], st, d) + ElementsText(es[1..], st, d, false)
  }

  function MembersText(ms: seq<Member>, st: Style, d: nat, first: bool): seq<byte>
    decreases ms, 0
  {
    if ms == [] then []
    else
      NameLead(st, d, first) + Quoted(ms[0].name) + ColonText(st) + Text(ms[0].value, st, d)
      + MembersText(ms[1..], st, d, false)
  }

  // ---------- What an event does to a writer

  datatype Level = Level(inArray: bool, valueCount: nat)

  datatype State = State(out: seq<byte>, levels: seq<Level>, hasRoot: bool)

  /** The separator before the next value at a level. */
  function Separator(st: Style, level: Level, d: nat): seq<byte> {
    if level.inArray then ElementLead(st, d, level.valueCount == 0)
    else if level.valueCount % 2 == 0 then NameLead(st, d, level.valueCount == 0)
    else ColonText(st)
  }

  /** `Prefix` and `PrettyPrefix`; nothing where an assertion of theirs would fail. */
  function Prefix(st: Style, w: State, isString: bool): Option<State> {
    if w.levels == [] then
      if w.hasRoot then None else Some(w.(hasRoot := true))
    else
      var n := |w.levels| - 1;
      var level := w.levels[n];
      if !level.inArray && level.valueCount % 2 == 0 && !isString then None
      else Some(w.(out := w.out + Separator(st, level, |w.levels|),
                   levels := w.levels[n := level.(valueCount := level.valueCount + 1)]))
  }

  /** The text that a scalar event writes. */
  function ScalarText(e: Event): Option<seq<byte>> {
    match e
    case Null => Some(JsonGrammar.NULL_WORD)
    case Bool(b) => Some(if b then JsonGrammar.TRUE_WORD else JsonGrammar.FALSE_WORD)
    case Int(i) => Some(IntegerText(i))
    case Uint(u) => Some(IntegerText(u))
    case Int64(i) => Some(IntegerText(i))
    case Uint64(u) => Some(IntegerText(u))
    case String(s) => Some(Quoted(s))
    case Key(s) => Some(Quoted(s))
    case _ => None
  }

  function Put(w: Option<State>, text: seq<byte>): Option<State> {
    if w.Some? then Some(w.value.(out := w.value.out + text)) else None
  }

  function Push(w: Option<State>, level: Level): Option<State> {
    if w.Some? then Some(w.value.(levels := w.value.levels + [level])) else None
  }

  /** One event; nothing where an assertion of the writer would fail, and for doubles. */
  function Write(st: Style, w: State, e: Event): Option<State> {
    match e
    case StartObject => Put(Push(Prefix(st, w, false), Level(false, 0)), [LBRACE])
    case StartArray => Put(Push(Prefix(st, w, false), Level(true, 0)), [LBRACKET])
    case EndObject(_) => Close(st, w, false)
    case EndArray(_) => Close(st, w, true)
    case Double(_) => None
    case _ => Put(Prefix(st, w, e.String? || e.Key?), ScalarText(e).value)
  }

  function Close(st: Style, w: State, inArray: bool): Option<State> {
    if w.levels == [] || w.levels[|w.levels| - 1].inArray != inArray then None
    else
      var n := |w.levels| - 1;
      var lead := if w.levels[n].valueCount == 0 then [] else CloseLead(st, n, inArray);
      Some(w.(out := w.out + lead + [if inArray then RBRACKET else RBRACE], levels := w.levels[..n]))
  }

  function WriteAll(st: Style, w: State, events: seq<Event>): Option<State>
    decreases |events|
  {
    if events == [] then Some(w)
    else
      match Write(st, w, events[0])
      case None => None
      case Some(w') => WriteAll(st, w', events[1..])
  }

  // ---------- What the events of a value write

  lemma {:induction false} WriteSplit(st: Style, w: State, a: seq<Event>, b: seq<Event>)
    ensures WriteAll(st, w, a + b) == match WriteAll(st, w, a)
                                      case None => None
                                      case Some(w') => WriteAll(st, w', b)
    decreases |a|
  {
    hide Write;
    if a == [] {
      assert a + b == b;
    } else {
      assert (a + b)[1..] == a[1..] + b;
      match Write(st, w, a[0])
      case None =>
      case Some(w') => WriteSplit(st, w', a[1..], b);
    }
  }

  lemma {:induction false} WriteOne(st: Style, w: State, e: Event)
    ensures WriteAll(st, w, [e]) == Write(st, w, e)
  {
    hide Write;
    assert [e][1..] == [];
  }

  /** The state after the separator and the text of a value. */
  function Written(st: Style, w: State, v: Json): Option<State> {
    Put(Prefix(st, w, v.JString?), Text(v, st, |w.levels|))
  }

  /** More text, and `k` more values counted at the innermost level. */
  function Grown(w: State, text: seq<byte>, k: nat): State
    requires w.levels != []
  {
    var n := |w.levels| - 1;
    State(w.out + text, w.levels[n := w.levels[n].(valueCount := w.levels[n].valueCount + k)], w.hasRoot)
  }

  lemma GrownTwice(w: State, a: seq<byte>, j: nat, b: seq<byte>, k: nat)
    requires w.levels != []
    ensures Grown(Grown(w, a, j), b, k) == Grown(w, a + b, j + k)
    ensures Grown(w, [], 0) == w
  {
    assert w.out + a + b == w.out + (a + b);
    var n := |w.levels| - 1;
    assert w.levels[n := w.levels[n].(valueCount := w.levels[n].valueCount + 0)] == w.levels;
    assert w.out + [] == w.out;
  }

  /** The events of a value write the separator due and the text of the value, and no
      assertion of the writer fails. */
  lemma {:induction false} ValueWrites(st: Style, w: State, v: Json)
    requires Printable(v) && Prefix(st, w, v.JString?).Some?
    ensures WriteAll(st, w, Events(v)) == Written(st, w, v)
    decreases v, 1
  {
    hide Prefix, WriteAll, Written, Valid, NoDoubles, Events;
    if v.JArray? {
      ArrayWrites(st, w, v);
    } else if v.JObject? {
      ObjectWrites(st, w, v);
    } else {
      ScalarWrites(st, w, v);
    }
  }

  lemma {:induction false} ArrayWrites(st: Style, w: State, v: Json)
    requires Printable(v) && v.JArray? && Prefix(st, w, false).Some?
    ensures WriteAll(st, w, Events(v)) == Written(st, w, v)
    decreases v, 0
  {
    hide Prefix, WriteAll, CloseLead, Grown, ElementEvents, ElementsText;
    var es := v.elements;
    ElementsWrite(st, Inside(st, w, true), es);
    BracketsWrite(st, w, true, ElementEvents(es), ElementsText(es, st, |w.levels| + 1, true), |es|, |es|);
  }

  lemma {:induction false} ObjectWrites(st: Style, w: State, v: Json)
    requires Printable(v) && v.JObject? && Prefix(st, w, false).Some?
    ensures WriteAll(st, w, Events(v)) == Written(st, w, v)
    decreases v, 0
  {
    hide Prefix, WriteAll, CloseLead, Grown, MemberEvents, MembersText;
    var ms := v.members;
    MembersWrite(st, Inside(st, w, false), ms);
    BracketsWrite(st, w, false, MemberEvents(ms), MembersText(ms, st, |w.levels| + 1, true), 2 * |ms|, |ms|);
  }

  lemma {:induction false} ScalarWrites(st: Style, w: State, v: Json)
    requires Printable(v) && !v.JArray? && !v.JObject? && Prefix(st, w, v.JString?).Some?
    ensures WriteAll(st, w, Events(v)) == Written(st, w, v)
  {
    hide Separator, IntegerText, Quoted;
    WriteOne(st, w, Events(v)[0]);
  }

  /** The writer just inside an array or object. */
  function Inside(st: Style, w: State, inArray: bool): (w': State)
    requires Prefix(st, w, false).Some?
    ensures |w'.levels| == |w.levels| + 1 && w'.levels[|w.levels|] == Level(inArray, 0)
  {
    var p := Prefix(st, w, false).value;
    State(p.out + [if inArray then LBRACKET else LBRACE], p.levels + [Level(inArray, 0)], p.hasRoot)
  }

  lemma {:induction false} BracketsWrite(st: Style, w: State, inArray: bool, events: seq<Event>, body: seq<byte>,
                                         k: nat, count: nat)
    requires Prefix(st, w, false).Some?
    requires var w1 := Inside(st, w, inArray); WriteAll(st, w1, events) == Some(Grown(w1, body, k))
    ensures var first := if inArray then StartArray else StartObject;
            var last := if inArray then EndArray(count) else EndObject(count);
            var lead := if k == 0 then [] else CloseLead(st, |w.levels|, inArray);
            var text := [if inArray then LBRACKET else LBRACE] + body + lead + [if inArray then RBRACKET else RBRACE];
            WriteAll(st, w, [first] + events + [last]) == Put(Prefix(st, w, false), text)
  {
    hide Separator, CloseLead, WriteAll, Prefix;
    var first := if inArray then StartArray else StartObject;
    var last := if inArray then EndArray(count) else EndObject(count);
    var p, w1 := Prefix(st, w, false).value, Inside(st, w, inArray);
    assert Write(st, w, first) == Some(w1);
    WriteOne(st, w, first);
    WriteSplit(st, w, [first] + events, [last]);
    WriteSplit(st, w, [first], events);
    var w2 := Grown(w1, body, k);
    WriteOne(st, w2, last);
    CloseWrites(st, w2, p.levels, inArray, k);
    var open, close := [if inArray then LBRACKET else LBRACE], [if inArray then RBRACKET else RBRACE];
    var lead := if k == 0 then [] else CloseLead(st, |w.levels|, inArray);
    assert p.out + open + body + lead + close == p.out + (open + body + lead + close);
  }

  lemma CloseWrites(st: Style, w: State, outer: seq<Level>, inArray: bool, k: nat)
    requires w.levels == outer + [Level(inArray, k)]
    ensures var lead := if k == 0 then [] else CloseLead(st, |outer|, inArray);
            Close(st, w, inArray)
            == Some(State(w.out + lead + [if inArray then RBRACKET else RBRACE], outer, w.hasRoot))
  {
    hide CloseLead;
    assert w.levels[..|outer|] == outer;
  }

  /** A value written where a level is open. */
  lemma {:induction false} NestedWrites(st: Style, w: State, v: Json)
    requires Printable(v) && w.levels != [] && Prefix(st, w, v.JString?).Some?
    ensures var level := w.levels[|w.levels| - 1];
            WriteAll(st, w, Events(v))
            == Some(Grown(w, Separator(st, level, |w.levels|) + Text(v, st, |w.levels|), 1))
    decreases v, 2
  {
    hide Separator, Text, WriteAll, Events;
    ValueWrites(st, w, v);
    var sep, text := Separator(st, w.levels[|w.levels| - 1], |w.levels|), Text(v, st, |w.levels|);
    assert w.out + sep + text == w.out + (sep + text);
  }

  lemma {:induction false} ElementsWrite(st: Style, w: State, es: seq<Json>)
    requires w.levels != [] && w.levels[|w.levels| - 1].inArray
    requires forall k :: 0 <= k < |es| ==> Valid(es[k]) && NoDoubles(es[k])
    ensures var first := w.levels[|w.levels| - 1].valueCount == 0;
            WriteAll(st, w, ElementEvents(es)) == Some(Grown(w, ElementsText(es, st, |w.levels|, first), |es|))
    decreases es, 3
  {
    hide ElementLead, Write, Events, Text;
    if es == [] {
      GrownTwice(w, [], 0, [], 0);
    } else {
      var d, first := |w.levels|, w.levels[|w.levels| - 1].valueCount == 0;
      WriteSplit(st, w, Events(es[0]), ElementEvents(es[1..]));
      NestedWrites(st, w, es[0]);
      var text, rest := ElementLead(st, d, first) + Text(es[0], st, d), ElementsText(es[1..], st, d, false);
      var w' := Grown(w, text, 1);
      ElementsWrite(st, w', es[1..]);
      GrownTwice(w, text, 1, rest, |es[1..]|);
    }
  }

  lemma {:induction false} KeyWrites(st: Style, w: State, name: seq<byte>)
    requires w.levels != [] && !w.levels[|w.levels| - 1].inArray && w.levels[|w.levels| - 1].valueCount % 2 == 0
    ensures var first := w.levels[|w.levels| - 1].valueCount == 0;
            WriteAll(st, w, [Key(name)]) == Some(Grown(w, NameLead(st, |w.levels|, first) + Quoted(name), 1))
  {
    hide NameLead, Quoted;
    WriteOne(st, w, Key(name));
    var lead := NameLead(st, |w.levels|, w.levels[|w.levels| - 1].valueCount == 0);
    assert w.out + lead + Quoted(name) == w.out + (lead + Quoted(name));
  }

  /** The name, the colon and the value of a member. */
  lemma {:induction false} MemberWrites(st: Style, w: State, m: Member)
    requires w.levels != [] && !w.levels[|w.levels| - 1].inArray && w.levels[|w.levels| - 1].valueCount % 2 == 0
    requires Printable(m.value)
    ensures var first := w.levels[|w.levels| - 1].valueCount == 0;
            var text := NameLead(st, |w.levels|, first) + Quoted(m.name) + ColonText(st)
                + Text(m.value, st, |w.levels|);
            WriteAll(st, w, [Key(m.name)] + Events(m.value)) == Some(Grown(w, text, 2))
    decreases m.value, 3
  {
    hide NameLead, Quoted, ColonText, Write, WriteAll, Events, Text;
    var d, first := |w.levels|, w.levels[|w.levels| - 1].valueCount == 0;
    KeyWrites(st, w, m.name);
    WriteSplit(st, w, [Key(m.name)], Events(m.value));
    var a := NameLead(st, d, first) + Quoted(m.name);
    var b := ColonText(st) + Text(m.value, st, d);
    NestedWrites(st, Grown(w, a, 1), m.value);
    GrownTwice(w, a, 1, b, 1);
    assert a + b == NameLead(st, d, first) + Quoted(m.name) + ColonText(st) + Text(m.value, st, d);
  }

  lemma {:induction false} MembersWrite(st: Style, w: State, ms: seq<Member>)
    requires w.levels != [] && !w.levels[|w.levels| - 1].inArray && w.levels[|w.levels| - 1].valueCount % 2 == 0
    requires forall k :: 0 <= k < |ms| ==> Valid(ms[k].value) && NoDoubles(ms[k].value)
    ensures var first := w.levels[|w.levels| - 1].valueCount == 0;
            WriteAll(st, w, MemberEvents(ms)) == Some(Grown(w, MembersText(ms, st, |w.levels|, first), 2 * |ms|))
    decreases ms, 4
  {
    hide NameLead, Quoted, ColonText, Write, Events, Text;
    if ms == [] {
      GrownTwice(w, [], 0, [], 0);
    } else {
      var d, first := |w.levels|, w.levels[|w.levels| - 1].valueCount == 0;
      var m := ms[0];
      WriteSplit(st, w, [Key(m.name)] + Events(m.value), MemberEvents(ms[1..]));
      MemberWrites(st, w, m);
      var text := NameLead(st, d, first) + Quoted(m.name) + ColonText(st) + Text(m.value, st, d);
      var rest := MembersText(ms[1..], st, d, false);
      MembersWrite(st, Grown(w, text, 2), ms[1..]);
      GrownTwice(w, text, 2, rest, 2 * |ms[1..]|);
    }
  }

  /** A fresh writer given the events of a value writes the text of the value. */
  lemma {:induction false} DocumentWrites(st: Style, v: Json)
    requires Printable(v)
    ensures WriteAll(st, State([], [], false), Events(v)) == Some(State(Text(v, st, 0), [], true))
  {
    ValueWrites(st, State([], [], false), v);
    assert [] + Text(v, st, 0) == Text(v, st, 0);
  }
}
