/** Reading undoes writing: the text of every value, in every style, is read back by
    either reader into events that build the value again. */
module JsonRoundTrip {
  import opened Words
  import opened JsonText
  import opened JsonEvents
  import opened JsonLengths
  import opened JsonNumber
  import opened JsonGrammar
  import opened JsonDocument
  import opened JsonWriter
  import JsonString

  // ---------- White space

  predicate AllSpace(w: seq<byte>) {
    forall k :: 0 <= k < |w| ==> IsSpace(w[k])
  }

  lemma {:induction false} SpaceSkipped(s: seq<byte>, i: nat, w: seq<byte>)
    requires Occurs(s, i, w) && AllSpace(w) && !IsSpace(Peek(s, i + |w|))
    ensures SkipSpace(s, i) == i + |w|
    decreases |w|
  {
    if w != [] {
      OccursSplit(s, i, [w[0]], w[1..]);
      assert w == [w[0]] + w[1..];
      assert s[i] == [w[0]][0];
      SpaceSkipped(s, i + 1, w[1..]);
    }
  }

  /** White space before something that is neither white space nor a comment. */
  lemma {:induction false} Skipped(s: seq<byte>, comments: bool, i: nat, w: seq<byte>)
    requires Occurs(s, i, w) && AllSpace(w)
    requires !IsSpace(Peek(s, i + |w|)) && Peek(s, i + |w|) != SLASH
    ensures Skip(s, comments, i) == Some(i + |w|)
  {
    SpaceSkipped(s, i, w);
  }

  // ---------- Numbers

  lemma {:induction false} DigitsTextValue(n: nat)
    ensures forall k :: 0 <= k < |DigitsText(n)| ==> IsDigit(DigitsText(n)[k])
    ensures Decimal(0, DigitsText(n)) == n
    ensures n > 0 ==> DigitsText(n)[0] != ZERO
    ensures n == 0 ==> DigitsText(n) == [ZERO]
  {
    if n < 10 {
      var t := DigitsText(n);
      assert t[..0] == [] && Decimal(0, t[..0]) == 0;
    } else {
      DigitsTextValue(n / 10);
      var t := DigitsText(n);
      assert t[..|t| - 1] == DigitsText(n / 10);
    }
  }

  /** A byte that does not go on with a number. */
  predicate EndsNumber(c: byte) {
    !IsDigit(c) && c != DOT && !IsExponentMark(c)
  }

  lemma {:induction false} DigitsReadBack(s: seq<byte>, a: nat, n: nat, minus: bool)
    requires Occurs(s, a, DigitsText(n)) && EndsNumber(Peek(s, a + |DigitsText(n)|)) && n <= Largest64(minus)
    ensures var b := a + |DigitsText(n)|;
            IntegerEnd(s, a) == Some(b) && AfterInteger(s, minus, a, b) == Whole(b, minus, n)
  {
    hide Decimal, ScalingDigits, Exponent, TooBig;
    var t := DigitsText(n);
    var b := a + |t|;
    DigitsTextValue(n);
    assert s[a..b] == t;
    forall k | a <= k < b
      ensures IsDigit(s[k])
    {
      assert s[k] == s[a..b][k - a];
    }
    assert s[a] == s[a..b][0];
    DigitsEndIs(s, a, b);
  }

  lemma NumberReadsBack(s: seq<byte>, i: nat, v: int)
    requires InRange(v) && Occurs(s, i, IntegerText(v)) && EndsNumber(Peek(s, i + |IntegerText(v)|))
    ensures var minus := v < 0;
            NumberAt(s, i) == Some((i + |IntegerText(v)|, IntegerEvent(minus, if minus then -v else v)))
  {
    hide AfterInteger, IntegerEnd, DigitsText, Occurs, EndsNumber, IntegerEvent, Scan;
    if v < 0 {
      OccursSplit(s, i, [MINUS], DigitsText(-v));
      NegativeReadsBack(s, i, -v);
    } else {
      PositiveReadsBack(s, i, v);
    }
  }

  lemma {:induction false} NegativeReadsBack(s: seq<byte>, i: nat, n: nat)
    requires Occurs(s, i, [MINUS]) && Occurs(s, i + 1, DigitsText(n)) && n <= Largest64(true)
    requires EndsNumber(Peek(s, i + 1 + |DigitsText(n)|))
    ensures Scan(s, i) == Whole(i + 1 + |DigitsText(n)|, true, n)
  {
    hide AfterInteger, IntegerEnd, DigitsText, Occurs, EndsNumber;
    FirstByte(s, i, [MINUS]);
    DigitsReadBack(s, i + 1, n, true);
  }

  lemma {:induction false} PositiveReadsBack(s: seq<byte>, i: nat, n: nat)
    requires Occurs(s, i, DigitsText(n)) && n <= Largest64(false) && EndsNumber(Peek(s, i + |DigitsText(n)|))
    ensures Scan(s, i) == Whole(i + |DigitsText(n)|, false, n)
  {
    hide AfterInteger, IntegerEnd, DigitsText, Occurs, EndsNumber;
    DigitsTextValue(n);
    FirstByte(s, i, DigitsText(n));
    DigitsReadBack(s, i, n, false);
  }

  // ---------- Strings

  lemma HexReadsBack(s: seq<byte>, i: nat, c: byte)
    requires Occurs(s, i, [0x30, 0x30, HexDigit(c / 16), HexDigit(c % 16)])
    ensures JsonString.Hex4(s, i) == Some(c)
  {
    var w := [0x30, 0x30, HexDigit(c / 16), HexDigit(c % 16)];
    var t := s[i..i + 4];
    assert t == w;
    assert s[i] == t[0] && s[i + 1] == t[1] && s[i + 2] == t[2] && s[i + 3] == t[3];
    assert JsonString.Hex(s, i, 0) == Some(0);
    assert JsonString.Hex(s, i, 1) == Some(0);
    assert JsonString.Hex(s, i, 2) == Some(0);
    assert JsonString.Hex(s, i, 3) == Some(c / 16);
  }

  /** What is written for a byte is read back as that byte. */
  lemma ByteReadsBack(s: seq<byte>, i: nat, c: byte)
    requires Occurs(s, i, EscapedByte(c))
    ensures JsonString.UnitAt(s, i) == JsonString.Chunk(i + |EscapedByte(c)|, [c])
  {
    var t := EscapedByte(c);
    assert s[i..i + |t|] == t;
    assert s[i] == s[i..i + |t|][0];
    if EscapeLetter(c).Some? {
      assert s[i + 1] == s[i..i + |t|][1];
      if EscapeLetter(c).value == 0x75 {
        var hex := [0x30, 0x30, HexDigit(c / 16), HexDigit(c % 16)];
        OccursSplit(s, i, [BACKSLASH, 0x75], hex);
        HexReadsBack(s, i + 2, c);
      }
    }
  }

  lemma {:induction false} EscapedReadsBack(s: seq<byte>, i: nat, str: seq<byte>)
    requires Occurs(s, i, Escaped(str) + [QUOTE])
    ensures JsonString.Decode(s, i) == JsonString.Decoded(i + |Escaped(str)| + 1, str)
    decreases |str|
  {
    hide JsonString.UnitAt, EscapedByte;
    if str == [] {
      assert s[i] == s[i..i + 1][0] == QUOTE;
      ClosingQuote(s, i);
    } else {
      var rest := Escaped(str[1..]) + [QUOTE];
      assert Escaped(str) + [QUOTE] == EscapedByte(str[0]) + rest;
      OccursSplit(s, i, EscapedByte(str[0]), rest);
      ByteReadsBack(s, i, str[0]);
      EscapedReadsBack(s, i + |EscapedByte(str[0])|, str[1..]);
      assert [str[0]] + str[1..] == str;
    }
  }

  lemma ClosingQuote(s: seq<byte>, i: nat)
    requires i < |s| && s[i] == QUOTE
    ensures JsonString.UnitAt(s, i) == JsonString.Closed
  {
  }

  lemma StringReadsBack(s: seq<byte>, i: nat, str: seq<byte>, key: bool)
    requires Occurs(s, i, Quoted(str))
    ensures s[i] == QUOTE
    ensures StringAt(s, i, key) == Ok(i + |Quoted(str)|, [if key then Key(str) else String(str)])
  {
    hide JsonString.Decode, Escaped;
    assert Quoted(str) == [QUOTE] + (Escaped(str) + [QUOTE]);
    OccursSplit(s, i, [QUOTE], Escaped(str) + [QUOTE]);
    assert s[i] == [QUOTE][0];
    EscapedReadsBack(s, i + 1, str);
  }

  // ---------- Separators

  /** The white space of a separator, after its comma if it has one. */
  function LeadSpace(lead: seq<byte>, first: bool): seq<byte>
    requires first || |lead| >= 1
  {
    if first then lead else lead[1..]
  }

  lemma LineIsSpace(st: Style, d: nat)
    requires ValidStyle(st) && st.Pretty?
    ensures AllSpace(Line(st, d))
  {
  }

  lemma LeadsAreSpace(st: Style, d: nat, first: bool)
    requires ValidStyle(st)
    ensures !first ==> |ElementLead(st, d, first)| >= 1 && ElementLead(st, d, first)[0] == COMMA
    ensures !first ==> |NameLead(st, d, first)| >= 1 && NameLead(st, d, first)[0] == COMMA
    ensures AllSpace(LeadSpace(ElementLead(st, d, first), first))
    ensures AllSpace(LeadSpace(NameLead(st, d, first), first))
    ensures AllSpace(CloseLead(st, d, true)) && AllSpace(CloseLead(st, d, false))
  {
    if st.Pretty? {
      LineIsSpace(st, d);
      assert ([COMMA] + Line(st, d))[1..] == Line(st, d);
    }
  }

  lemma FirstLead(st: Style, d: nat)
    requires ValidStyle(st)
    ensures AllSpace(ElementLead(st, d, true)) && AllSpace(NameLead(st, d, true))
  {
    hide AllSpace, ElementLead, NameLead;
    LeadsAreSpace(st, d, true);
  }

  lemma NextLead(st: Style, d: nat)
    requires ValidStyle(st)
    ensures |ElementLead(st, d, false)| >= 1 && ElementLead(st, d, false)[0] == COMMA
            && AllSpace(ElementLead(st, d, false)[1..])
    ensures |NameLead(st, d, false)| >= 1 && NameLead(st, d, false)[0] == COMMA && AllSpace(NameLead(st, d, false)[1..])
  {
    hide AllSpace, ElementLead, NameLead;
    LeadsAreSpace(st, d, false);
  }

  lemma CommaFirst(lead: seq<byte>, rest: seq<byte>)
    requires |lead| >= 1 && lead[0] == COMMA
    ensures lead + rest == [COMMA] + (lead[1..] + rest)
  {
  }

  // ---------- Values

  /** A byte that a value may start with. */
  predicate StartsValue(c: byte) {
    !IsSpace(c) && c !in {NUL, SLASH, COMMA, COLON, RBRACKET, RBRACE}
  }

  lemma {:induction false} TextStarts(v: Json, st: Style, d: nat)
    requires Printable(v)
    ensures |Text(v, st, d)| >= 1 && StartsValue(Text(v, st, d)[0])
    ensures v.JArray? <==> Text(v, st, d)[0] == LBRACKET
    ensures v.JObject? <==> Text(v, st, d)[0] == LBRACE
  {
    hide ElementsText, MembersText, CloseLead;
    if v.JNumber? {
      DigitsTextValue(if v.n.value < 0 then -v.n.value else v.n.value);
    }
  }

  /** A read that has reached `end` and sent events as good as `events`. */
  predicate ReadsTo(r: Result, end: nat, events: seq<Event>) {
    r.Ok? && r.pos == end && SameEvents(r.events, events)
  }

  lemma SameEventsJoin(a: seq<Event>, b: seq<Event>, c: seq<Event>, d: seq<Event>)
    requires SameEvents(a, b) && SameEvents(c, d)
    ensures SameEvents(a + c, b + d)
  {
  }

  lemma {:induction false} ScalarReadsBack(s: seq<byte>, i: nat, v: Json, st: Style, d: nat)
    requires Printable(v) && !v.JArray? && !v.JObject? && Occurs(s, i, Text(v, st, d))
    requires EndsNumber(Peek(s, i + |Text(v, st, d)|))
    ensures ReadsTo(Scalar(s, i), i + |Text(v, st, d)|, Events(v))
  {
    hide IntegerText, Quoted, StringAt, NumberAt;
    TextStarts(v, st, d);
    var t := Text(v, st, d);
    assert s[i] == s[i..i + |t|][0] == t[0];
    match v
    case JString(str) => StringReadsBack(s, i, str, false);
    case JNumber(n) =>
      NumberReadsBack(s, i, n.value);
      NumberTextStarts(n.value);
    case _ =>
  }

  lemma NumberTextStarts(v: int)
    ensures |IntegerText(v)| >= 1 && (IntegerText(v)[0] == MINUS || IsDigit(IntegerText(v)[0]))
  {
    DigitsTextValue(if v < 0 then -v else v);
  }

  /** The byte at `i` is the first of a text that occurs there. */
  lemma FirstByte(s: seq<byte>, i: nat, t: seq<byte>)
    requires Occurs(s, i, t) && |t| >= 1
    ensures i < |s| && Peek(s, i) == s[i] == t[0]
  {
    assert s[i] == s[i..i + |t|][0];
  }

  /** Every value is read back from its text, if what follows does not go on with it. */
  lemma {:induction false} ValueReadsBack(s: seq<byte>, f: Flags, i: nat, v: Json, st: Style, d: nat)
    requires Printable(v) && ValidStyle(st) && Occurs(s, i, Text(v, st, d))
    requires EndsNumber(Peek(s, i + |Text(v, st, d)|))
    ensures ReadsTo(Value(s, f, i), i + |Text(v, st, d)|, Events(v))
    decreases v, 5
  {
    hide Skip, Scalar, SameEvents, Text, Events, Value;
    match v
    case JArray(es) => ArrayValueReadsBack(s, f, i, es, st, d);
    case JObject(ms) => ObjectValueReadsBack(s, f, i, ms, st, d);
    case _ =>
      TextStarts(v, st, d);
      FirstByte(s, i, Text(v, st, d));
      ScalarReadsBack(s, i, v, st, d);
      UnfoldScalar(s, f, i);
  }

  lemma {:induction false} ArrayParts(es: seq<Json>, st: Style, d: nat)
    requires Printable(JArray(es))
    ensures var close := if es == [] then [] else CloseLead(st, d, true);
            Text(JArray(es), st, d) == [LBRACKET] + (ElementsText(es, st, d + 1, true) + close + [RBRACKET])
    ensures Events(JArray(es)) == [StartArray] + (ElementEvents(es) + [EndArray(|es|)])
  {
    hide ElementsText, CloseLead, ElementEvents;
  }

  lemma {:induction false} ArrayValueReadsBack(s: seq<byte>, f: Flags, i: nat, es: seq<Json>, st: Style, d: nat)
    requires Printable(JArray(es)) && ValidStyle(st) && Occurs(s, i, Text(JArray(es), st, d))
    ensures ReadsTo(Value(s, f, i), i + |Text(JArray(es), st, d)|, Events(JArray(es)))
    decreases es, 4
  {
    hide Skip, SameEvents, ElementsText, CloseLead, ArrayOpened, Value, Text, Events, ElementEvents, Occurs, AllSpace;
    var close := if es == [] then [] else CloseLead(st, d, true);
    LeadsAreSpace(st, d, true);
    NoSpace();
    var body := ElementsText(es, st, d + 1, true) + close + [RBRACKET];
    ArrayParts(es, st, d);
    OccursSplit(s, i, [LBRACKET], body);
    FirstByte(s, i, [LBRACKET]);
    ArrayReadsBack(s, f, i + 1, es, st, d + 1, close);
    UnfoldArray(s, f, i);
    var rest := ElementEvents(es) + [EndArray(|es|)];
    SameEventsSelf([StartArray]);
    SameEventsJoin([StartArray], [StartArray], ArrayOpenedAt(s, f, i + 1).events, rest);
  }

  lemma {:induction false} ObjectParts(ms: seq<Member>, st: Style, d: nat)
    requires Printable(JObject(ms))
    ensures var close := if ms == [] then [] else CloseLead(st, d, false);
            Text(JObject(ms), st, d) == [LBRACE] + (MembersText(ms, st, d + 1, true) + close + [RBRACE])
    ensures Events(JObject(ms)) == [StartObject] + (MemberEvents(ms) + [EndObject(|ms|)])
  {
    hide MembersText, CloseLead, MemberEvents;
  }

  lemma {:induction false} ObjectValueReadsBack(s: seq<byte>, f: Flags, i: nat, ms: seq<Member>, st: Style, d: nat)
    requires Printable(JObject(ms)) && ValidStyle(st) && Occurs(s, i, Text(JObject(ms), st, d))
    ensures ReadsTo(Value(s, f, i), i + |Text(JObject(ms), st, d)|, Events(JObject(ms)))
    decreases ms, 4
  {
    hide Skip, SameEvents, MembersText, CloseLead, ObjectOpened, Value, Text, Events, MemberEvents, Occurs, AllSpace;
    var close := if ms == [] then [] else CloseLead(st, d, false);
    LeadsAreSpace(st, d, true);
    NoSpace();
    var body := MembersText(ms, st, d + 1, true) + close + [RBRACE];
    ObjectParts(ms, st, d);
    OccursSplit(s, i, [LBRACE], body);
    FirstByte(s, i, [LBRACE]);
    ObjectReadsBack(s, f, i + 1, ms, st, d + 1, close);
    UnfoldObject(s, f, i);
    var rest := MemberEvents(ms) + [EndObject(|ms|)];
    SameEventsSelf([StartObject]);
    SameEventsJoin([StartObject], [StartObject], ObjectOpenedAt(s, f, i + 1).events, rest);
  }

  /** What the grammar reads of an array after its bracket and the white space there. */
  function ArrayOpenedAt(s: seq<byte>, f: Flags, i: nat): Result
    requires i <= |s|
  {
    match Skip(s, f.comments, i)
    case None => Error([])
    case Some(j) => ArrayOpened(s, f, j)
  }

  function ObjectOpenedAt(s: seq<byte>, f: Flags, i: nat): Result
    requires i <= |s|
  {
    match Skip(s, f.comments, i)
    case None => Error([])
    case Some(j) => ObjectOpened(s, f, j)
  }

  // ---------- Arrays

  lemma {:induction false} ArrayReadsBack(s: seq<byte>, f: Flags, i: nat, es: seq<Json>, st: Style, d: nat,
                                          close: seq<byte>)
    requires |es| < TWO_32 && (forall k :: 0 <= k < |es| ==> Valid(es[k]) && NoDoubles(es[k])) && ValidStyle(st)
    requires AllSpace(close) && (es == [] ==> close == [])
    requires Occurs(s, i, ElementsText(es, st, d, true) + close + [RBRACKET])
    ensures ReadsTo(ArrayOpenedAt(s, f, i), i + |ElementsText(es, st, d, true) + close + [RBRACKET]|,
                    ElementEvents(es) + [EndArray(|es|)])
    decreases es, 3
  {
    hide Skip, SameEvents, ElementLead, Text, ElementsText, Element, ArrayOpened, ElementEvents, AllSpace,
      Occurs, LeadSpace;
    if es == [] {
      NoElementsText(st, d, true, close);
      FirstByte(s, i, [RBRACKET]);
      NoSpace();
      OccursNothing(s, i);
      Skipped(s, f.comments, i, []);
      UnfoldArrayOpened(s, f, i);
      SameEventsSelf([EndArray(0)]);
    } else {
      FirstLead(st, d);
      var lead, text := ElementLead(st, d, true), Text(es[0], st, d);
      var tail := ElementsText(es[1..], st, d, false) + close + [RBRACKET];
      ElementsTextFirst(es, st, d, true, close);
      OccursSplit(s, i, lead, text + tail);
      ElementStarts(s, i + |lead|, es[0], st, d, tail);
      Skipped(s, f.comments, i, lead);
      UnfoldArrayOpened(s, f, i + |lead|);
      ElementsReadBack(s, f, i + |lead|, es, 0, st, d, close);
    }
  }

  lemma {:induction false} NoElementsText(st: Style, d: nat, first: bool, close: seq<byte>)
    ensures ElementsText([], st, d, first) + close + [RBRACKET] == close + [RBRACKET]
    ensures [] + [RBRACKET] == [RBRACKET]
    ensures forall n :: ElementEvents([]) + [EndArray(n)] == [EndArray(n)]
  {
  }

  lemma {:induction false} ElementsTextFirst(es: seq<Json>, st: Style, d: nat, first: bool, close: seq<byte>)
    requires es != []
    ensures ElementsText(es, st, d, first) + close + [RBRACKET]
            == ElementLead(st, d, first)
               + (Text(es[0], st, d) + (ElementsText(es[1..], st, d, false) + close + [RBRACKET]))
  {
    hide ElementLead, Text;
  }

  lemma NoSpace()
    ensures AllSpace([])
  {
  }

  lemma OccursNothing(s: seq<byte>, i: nat)
    requires i <= |s|
    ensures Occurs(s, i, [])
  {
  }

  lemma SameEventsSelf(a: seq<Event>)
    ensures SameEvents(a, a)
  {
  }

  lemma {:induction false} ElementStarts(s: seq<byte>, i: nat, v: Json, st: Style, d: nat, tail: seq<byte>)
    requires Printable(v) && Occurs(s, i, Text(v, st, d) + tail)
    ensures i < |s| && StartsValue(Peek(s, i))
  {
    hide Text;
    TextStarts(v, st, d);
    FirstByte(s, i, Text(v, st, d) + tail);
  }

  lemma {:induction false} ElementsReadBack(s: seq<byte>, f: Flags, i: nat, es: seq<Json>, n: nat,
                                            st: Style, d: nat, close: seq<byte>)
    requires es != [] && n + |es| < TWO_32 && (forall k :: 0 <= k < |es| ==> Valid(es[k]) && NoDoubles(es[k]))
             && ValidStyle(st)
    requires AllSpace(close)
    requires Occurs(s, i, Text(es[0], st, d) + (ElementsText(es[1..], st, d, false) + close + [RBRACKET]))
    ensures ReadsTo(Element(s, f, i, n),
                    i + |Text(es[0], st, d) + (ElementsText(es[1..], st, d, false) + close + [RBRACKET])|,
                    ElementEvents(es) + [EndArray(n + |es|)])
    decreases es, 1
  {
    hide Skip, SameEvents, Text, Element, AfterElement, Value, Events, ElementsText, AllSpace, Occurs, ElementEvents;
    var text, tail := Text(es[0], st, d), ElementsText(es[1..], st, d, false) + close + [RBRACKET];
    OccursSplit(s, i, text, tail);
    var p := i + |text|;
    TailReadsBack(s, f, p, es[1..], n + 1, st, d, close);
    ValueReadsBack(s, f, i, es[0], st, d);
    UnfoldElement(s, f, i, n);
    var j := Skip(s, f.comments, p).value;
    SameEventsJoin(Value(s, f, i).events, Events(es[0]),
                   AfterElement(s, f, j, n + 1).events, ElementEvents(es[1..]) + [EndArray(n + |es|)]);
    ElementEventsFirst(es);
    assert Events(es[0]) + (ElementEvents(es[1..]) + [EndArray(n + |es|)])
        == Events(es[0]) + ElementEvents(es[1..]) + [EndArray(n + |es|)];
  }

  lemma {:induction false} ElementEventsFirst(es: seq<Json>)
    requires es != [] && forall k :: 0 <= k < |es| ==> Valid(es[k])
    ensures ElementEvents(es) == Events(es[0]) + ElementEvents(es[1..])
  {
  }

  /** After an element: the other elements and the end of the array. */
  lemma {:induction false} TailReadsBack(s: seq<byte>, f: Flags, p: nat, es: seq<Json>, n: nat,
                                         st: Style, d: nat, close: seq<byte>)
    requires n + |es| < TWO_32 && (forall k :: 0 <= k < |es| ==> Valid(es[k]) && NoDoubles(es[k])) && ValidStyle(st)
    requires AllSpace(close)
    requires Occurs(s, p, ElementsText(es, st, d, false) + close + [RBRACKET])
    ensures EndsNumber(Peek(s, p)) && Skip(s, f.comments, p).Some?
    ensures ReadsTo(AfterElement(s, f, Skip(s, f.comments, p).value, n),
                    p + |ElementsText(es, st, d, false) + close + [RBRACKET]|,
                    ElementEvents(es) + [EndArray(n + |es|)])
    decreases es, 2
  {
    hide Skip, SameEvents, ElementLead, Text, ElementsText, Element, AfterElement, AfterElementComma, ElementEvents,
      AllSpace, Occurs, Peek, EndsNumber, LeadSpace;
    if es == [] {
      NoElementsText(st, d, false, close);
      SpaceThenClose(s, f, p, close, RBRACKET);
      UnfoldAfterElement(s, f, p + |close|, n);
      SameEventsSelf([EndArray(n)]);
    } else {
      NextLead(st, d);
      var lead, text := ElementLead(st, d, false), Text(es[0], st, d);
      var tail := ElementsText(es[1..], st, d, false) + close + [RBRACKET];
      var space := lead[1..];
      ElementsTextFirst(es, st, d, false, close);
      CommaFirst(lead, text + tail);
      CommaThenValue(s, f, p, space, text + tail, es[0], st, d, tail);
      var j := p + 1 + |space|;
      UnfoldAfterElement(s, f, p, n);
      UnfoldAfterElementComma(s, f, j, n);
      ElementsReadBack(s, f, j, es, n, st, d, close);
    }
  }

  /** White space and a closing bracket or brace. */
  lemma {:induction false} SpaceThenClose(s: seq<byte>, f: Flags, p: nat, space: seq<byte>, c: byte)
    requires Occurs(s, p, space + [c]) && AllSpace(space) && (c == RBRACKET || c == RBRACE)
    ensures EndsNumber(Peek(s, p)) && Skip(s, f.comments, p) == Some(p + |space|)
    ensures p + |space| < |s| && Peek(s, p + |space|) == s[p + |space|] == c
  {
    hide Skip, Occurs;
    FirstByte(s, p, space + [c]);
    OccursSplit(s, p, space, [c]);
    FirstByte(s, p + |space|, [c]);
    Skipped(s, f.comments, p, space);
  }

  /** A comma, white space and the start of a value. */
  lemma CommaThenValue(s: seq<byte>, f: Flags, p: nat, space: seq<byte>, rest: seq<byte>,
                       v: Json, st: Style, d: nat, tail: seq<byte>)
    requires Occurs(s, p, [COMMA] + (space + rest)) && AllSpace(space) && Printable(v) && rest == Text(v, st, d) + tail
    ensures p < |s| && Peek(s, p) == s[p] == COMMA && EndsNumber(Peek(s, p)) && Skip(s, f.comments, p) == Some(p)
    ensures var j := p + 1 + |space|;
            Skip(s, f.comments, p + 1) == Some(j) && StartsValue(Peek(s, j)) && Occurs(s, j, rest)
  {
    hide Text, Skip;
    OccursSplit(s, p, [COMMA], space + rest);
    FirstByte(s, p, [COMMA]);
    OccursSplit(s, p + 1, space, rest);
    ElementStarts(s, p + 1 + |space|, v, st, d, tail);
    Skipped(s, f.comments, p + 1, space);
    OccursNothing(s, p);
    Skipped(s, f.comments, p, []);
  }

  // ---------- Objects

  lemma {:induction false} ObjectReadsBack(s: seq<byte>, f: Flags, i: nat, ms: seq<Member>, st: Style, d: nat,
                                           close: seq<byte>)
    requires |ms| < TWO_32 && (forall k :: 0 <= k < |ms| ==> Valid(ms[k].value) && NoDoubles(ms[k].value))
             && ValidStyle(st)
    requires AllSpace(close) && (ms == [] ==> close == [])
    requires Occurs(s, i, MembersText(ms, st, d, true) + close + [RBRACE])
    ensures ReadsTo(ObjectOpenedAt(s, f, i), i + |MembersText(ms, st, d, true) + close + [RBRACE]|,
                    MemberEvents(ms) + [EndObject(|ms|)])
    decreases ms, 3
  {
    hide Skip, SameEvents, NameLead, MemberText, MembersText, Name, ObjectOpened, MemberEvents, AllSpace,
      Occurs, LeadSpace;
    if ms == [] {
      NoMembersText(st, d, true, close);
      FirstByte(s, i, [RBRACE]);
      NoSpace();
      OccursNothing(s, i);
      Skipped(s, f.comments, i, []);
      UnfoldObjectOpened(s, f, i);
      SameEventsSelf([EndObject(0)]);
    } else {
      FirstLead(st, d);
      var lead := NameLead(st, d, true);
      var text := MemberText(ms, st, d, close);
      MembersTextFirst(ms, st, d, true, close);
      OccursSplit(s, i, lead, text);
      MemberStarts(s, i + |lead|, ms, st, d, close);
      Skipped(s, f.comments, i, lead);
      UnfoldObjectOpened(s, f, i + |lead|);
      MembersReadBack(s, f, i + |lead|, ms, 0, st, d, close);
    }
  }

  /** The first member, the others and the end of the object, without a separator. */
  function MemberText(ms: seq<Member>, st: Style, d: nat, close: seq<byte>): seq<byte>
    requires ms != []
  {
    Quoted(ms[0].name) + (ColonText(st) + (Text(ms[0].value, st, d)
        + (MembersText(ms[1..], st, d, false) + close + [RBRACE])))
  }

  lemma {:induction false} NoMembersText(st: Style, d: nat, first: bool, close: seq<byte>)
    ensures MembersText([], st, d, first) + close + [RBRACE] == close + [RBRACE]
    ensures [] + [RBRACE] == [RBRACE]
    ensures forall n :: MemberEvents([]) + [EndObject(n)] == [EndObject(n)]
  {
  }

  lemma {:induction false} MembersTextFirst(ms: seq<Member>, st: Style, d: nat, first: bool, close: seq<byte>)
    requires ms != []
    ensures MembersText(ms, st, d, first) + close + [RBRACE] == NameLead(st, d, first) + MemberText(ms, st, d, close)
  {
    hide NameLead, Text, Quoted, ColonText;
  }

  lemma MemberStarts(s: seq<byte>, i: nat, ms: seq<Member>, st: Style, d: nat, close: seq<byte>)
    requires ms != [] && Occurs(s, i, MemberText(ms, st, d, close))
    ensures i < |s| && Peek(s, i) == QUOTE
  {
    hide Text, MembersText;
    FirstByte(s, i, MemberText(ms, st, d, close));
  }

  lemma {:induction false} MemberEventsFirst(ms: seq<Member>)
    requires ms != [] && forall k :: 0 <= k < |ms| ==> Valid(ms[k].value)
    ensures MemberEvents(ms) == [Key(ms[0].name)] + (Events(ms[0].value) + MemberEvents(ms[1..]))
  {
    hide Events;
    assert [Key(ms[0].name)] + Events(ms[0].value) + MemberEvents(ms[1..])
        == [Key(ms[0].name)] + (Events(ms[0].value) + MemberEvents(ms[1..]));
  }

  lemma {:induction false} MembersReadBack(s: seq<byte>, f: Flags, i: nat, ms: seq<Member>, n: nat,
                                           st: Style, d: nat, close: seq<byte>)
    requires ms != [] && n + |ms| < TWO_32
             && (forall k :: 0 <= k < |ms| ==> Valid(ms[k].value) && NoDoubles(ms[k].value)) && ValidStyle(st)
    requires AllSpace(close) && Occurs(s, i, MemberText(ms, st, d, close))
    ensures ReadsTo(Name(s, f, i, n), i + |MemberText(ms, st, d, close)|, MemberEvents(ms) + [EndObject(n + |ms|)])
    decreases ms, 1
  {
    hide Skip, SameEvents, Text, Name, AfterName, MemberValue, Events, MembersText, AllSpace, Occurs, MemberEvents,
      StringAt, Quoted, ColonText;
    var name, colon := Quoted(ms[0].name), ColonText(st);
    var text, tail := Text(ms[0].value, st, d), MembersText(ms[1..], st, d, false) + close + [RBRACE];
    OccursSplit(s, i, name, colon + (text + tail));
    StringReadsBack(s, i, ms[0].name, true);
    var p := i + |name|;
    ColonThenValue(s, f, p, ms[0].value, st, d, tail);
    var j := p + |colon|;
    MemberValueReadsBack(s, f, j, ms, n, st, d, close);
    UnfoldName(s, f, i, n);
    UnfoldAfterName(s, f, p, n);
    SameEventsSelf([Key(ms[0].name)]);
    var rest := Events(ms[0].value) + MemberEvents(ms[1..]) + [EndObject(n + |ms|)];
    SameEventsJoin([Key(ms[0].name)], [Key(ms[0].name)], MemberValue(s, f, j, n).events, rest);
    MemberEventsFirst(ms);
    assert [Key(ms[0].name)] + rest
        == [Key(ms[0].name)] + (Events(ms[0].value) + MemberEvents(ms[1..])) + [EndObject(n + |ms|)];
  }

  /** The colon after a name and the start of the member's value. */
  lemma ColonThenValue(s: seq<byte>, f: Flags, p: nat, v: Json, st: Style, d: nat, tail: seq<byte>)
    requires Printable(v) && Occurs(s, p, ColonText(st) + (Text(v, st, d) + tail))
    ensures p < |s| && Peek(s, p) == COLON && Skip(s, f.comments, p) == Some(p)
    ensures Skip(s, f.comments, p + 1) == Some(p + |ColonText(st)|)
            && Occurs(s, p + |ColonText(st)|, Text(v, st, d) + tail)
  {
    hide Text, Skip;
    var colon := ColonText(st);
    var space := colon[1..];
    OccursSplit(s, p, colon, Text(v, st, d) + tail);
    assert colon == [COLON] + space;
    OccursSplit(s, p, [COLON], space);
    FirstByte(s, p, [COLON]);
    ElementStarts(s, p + |colon|, v, st, d, tail);
    Skipped(s, f.comments, p + 1, space);
    OccursNothing(s, p);
    Skipped(s, f.comments, p, []);
  }

  lemma {:induction false} MemberValueReadsBack(s: seq<byte>, f: Flags, j: nat, ms: seq<Member>, n: nat,
                                                st: Style, d: nat, close: seq<byte>)
    requires ms != [] && n + |ms| < TWO_32
             && (forall k :: 0 <= k < |ms| ==> Valid(ms[k].value) && NoDoubles(ms[k].value)) && ValidStyle(st)
    requires AllSpace(close)
    requires Occurs(s, j, Text(ms[0].value, st, d) + (MembersText(ms[1..], st, d, false) + close + [RBRACE]))
    ensures ReadsTo(MemberValue(s, f, j, n),
                    j + |Text(ms[0].value, st, d) + (MembersText(ms[1..], st, d, false) + close + [RBRACE])|,
                    Events(ms[0].value) + MemberEvents(ms[1..]) + [EndObject(n + |ms|)])
    decreases ms, 0
  {
    hide Skip, SameEvents, Text, MemberValue, AfterMember, Value, Events, MembersText, AllSpace, Occurs, MemberEvents;
    var text, tail := Text(ms[0].value, st, d), MembersText(ms[1..], st, d, false) + close + [RBRACE];
    OccursSplit(s, j, text, tail);
    var p := j + |text|;
    MemberTailReadsBack(s, f, p, ms[1..], n + 1, st, d, close);
    ValueReadsBack(s, f, j, ms[0].value, st, d);
    UnfoldMemberValue(s, f, j, n);
    var q := Skip(s, f.comments, p).value;
    SameEventsJoin(Value(s, f, j).events, Events(ms[0].value),
                   AfterMember(s, f, q, n + 1).events, MemberEvents(ms[1..]) + [EndObject(n + |ms|)]);
    assert Events(ms[0].value) + (MemberEvents(ms[1..]) + [EndObject(n + |ms|)])
        == Events(ms[0].value) + MemberEvents(ms[1..]) + [EndObject(n + |ms|)];
  }

  /** After a member: the other members and the end of the object. */
  lemma {:induction false} MemberTailReadsBack(s: seq<byte>, f: Flags, p: nat, ms: seq<Member>, n: nat,
                                               st: Style, d: nat, close: seq<byte>)
    requires n + |ms| < TWO_32 && (forall k :: 0 <= k < |ms| ==> Valid(ms[k].value) && NoDoubles(ms[k].value))
             && ValidStyle(st)
    requires AllSpace(close)
    requires Occurs(s, p, MembersText(ms, st, d, false) + close + [RBRACE])
    ensures EndsNumber(Peek(s, p)) && Skip(s, f.comments, p).Some?
    ensures ReadsTo(AfterMember(s, f, Skip(s, f.comments, p).value, n),
                    p + |MembersText(ms, st, d, false) + close + [RBRACE]|,
                    MemberEvents(ms) + [EndObject(n + |ms|)])
    decreases ms, 2
  {
    hide Skip, SameEvents, NameLead, MemberText, MembersText, Name, AfterMember, AfterMemberComma, MemberEvents,
      AllSpace, Occurs, Peek, EndsNumber, LeadSpace;
    if ms == [] {
      NoMembersText(st, d, false, close);
      SpaceThenClose(s, f, p, close, RBRACE);
      UnfoldAfterMember(s, f, p + |close|, n);
      SameEventsSelf([EndObject(n)]);
    } else {
      NextLead(st, d);
      var lead := NameLead(st, d, false);
      var space, text := lead[1..], MemberText(ms, st, d, close);
      MembersTextFirst(ms, st, d, false, close);
      CommaFirst(lead, text);
      CommaThenName(s, f, p, space, ms, st, d, close);
      var j := p + 1 + |space|;
      UnfoldAfterMember(s, f, p, n);
      UnfoldAfterMemberComma(s, f, j, n);
      MembersReadBack(s, f, j, ms, n, st, d, close);
    }
  }

  lemma CommaThenName(s: seq<byte>, f: Flags, p: nat, space: seq<byte>, ms: seq<Member>, st: Style, d: nat,
                      close: seq<byte>)
    requires ms != [] && AllSpace(space) && Occurs(s, p, [COMMA] + (space + MemberText(ms, st, d, close)))
    ensures p < |s| && Peek(s, p) == s[p] == COMMA && EndsNumber(Peek(s, p)) && Skip(s, f.comments, p) == Some(p)
    ensures var j := p + 1 + |space|;
            Skip(s, f.comments, p + 1) == Some(j) && Peek(s, j) == QUOTE && Occurs(s, j, MemberText(ms, st, d, close))
  {
    hide MemberText, Skip;
    var rest := MemberText(ms, st, d, close);
    OccursSplit(s, p, [COMMA], space + rest);
    FirstByte(s, p, [COMMA]);
    OccursSplit(s, p + 1, space, rest);
    MemberStarts(s, p + 1 + |space|, ms, st, d, close);
    Skipped(s, f.comments, p + 1, space);
    OccursNothing(s, p);
    Skipped(s, f.comments, p, []);
  }

  // ---------- Documents

  /** Which events reach the handler, and that they do so in full. */
  predicate Reach(events: seq<Event>, readable: bool) {
    HandAll(events) == events && AllHandable(true, events) && (AllHandable(false, events) <==> readable)
  }

  lemma ReachJoin(a: seq<Event>, p: bool, b: seq<Event>, q: bool)
    requires Reach(a, p) && Reach(b, q)
    ensures Reach(a + b, p && q)
  {
    hide HandAll, AllHandable;
    HandJoin(a, b);
    HandableJoin(true, a, b);
    HandableJoin(false, a, b);
  }

  lemma PlainReach(e: Event)
    requires !IsText(e)
    ensures Reach([e], true) && Reach([], true)
  {
  }

  lemma TextReach(e: Event)
    requires IsText(e) && |TextOf(e)| < TWO_32
    ensures Reach([e], |TextOf(e)| < TWO_32 - 1)
  {
    hide Handed, LengthOk;
    var b := TextOf(e);
    BothHandIt(b);
    assert AllHandable(false, [e]) <==> Handable(false, [e][0]);
  }

  lemma {:induction false} EventsReach(v: Json)
    requires Valid(v)
    ensures Reach(Events(v), Readable(v))
    decreases v, 1
  {
    hide Reach;
    match v
    case JString(s) => TextReach(String(s));
    case JObject(ms) =>
      MembersReach(ms);
      BracketsReach(StartObject, MemberEvents(ms), EndObject(|ms|), Readable(v));
    case JArray(es) =>
      ElementsReach(es);
      BracketsReach(StartArray, ElementEvents(es), EndArray(|es|), Readable(v));
    case _ => PlainReach(Events(v)[0]);
  }

  lemma BracketsReach(first: Event, events: seq<Event>, last: Event, readable: bool)
    requires !IsText(first) && !IsText(last) && Reach(events, readable)
    ensures Reach([first] + events + [last], readable)
  {
    hide Reach;
    PlainReach(first);
    PlainReach(last);
    ReachJoin([first], true, events, readable);
    ReachJoin([first] + events, readable, [last], true);
  }

  lemma {:induction false} ElementsReach(es: seq<Json>)
    requires forall k :: 0 <= k < |es| ==> Valid(es[k])
    ensures Reach(ElementEvents(es), forall k :: 0 <= k < |es| ==> Readable(es[k]))
    decreases es, 0
  {
    hide Reach, Events, Readable;
    if es == [] {
      PlainReach(Null);
    } else {
      EventsReach(es[0]);
      ElementsReach(es[1..]);
      var rest := forall k :: 0 <= k < |es[1..]| ==> Readable(es[1..][k]);
      ReachJoin(Events(es[0]), Readable(es[0]), ElementEvents(es[1..]), rest);
      assert forall k :: 1 <= k < |es| ==> es[k] == es[1..][k - 1];
      assert (Readable(es[0]) && rest) == (forall k :: 0 <= k < |es| ==> Readable(es[k]));
    }
  }

  /** A member whose name and value can be read. */
  predicate ReadableMember(m: Member) {
    |m.name| < TWO_32 - 1 && Readable(m.value)
  }

  lemma {:induction false} MembersReach(ms: seq<Member>)
    requires forall k :: 0 <= k < |ms| ==> |ms[k].name| < TWO_32 && Valid(ms[k].value)
    ensures Reach(MemberEvents(ms), forall k :: 0 <= k < |ms| ==> ReadableMember(ms[k]))
    decreases ms, 0
  {
    hide Reach, Events, Readable;
    if ms == [] {
      PlainReach(Null);
    } else {
      var key, v, short := Key(ms[0].name), ms[0].value, |ms[0].name| < TWO_32 - 1;
      EventsReach(v);
      MembersReach(ms[1..]);
      TextReach(key);
      var rest := forall k :: 0 <= k < |ms[1..]| ==> ReadableMember(ms[1..][k]);
      ReachJoin([key], short, Events(v), Readable(v));
      ReachJoin([key] + Events(v), short && Readable(v), MemberEvents(ms[1..]), rest);
      assert forall k :: 1 <= k < |ms| ==> ms[k] == ms[1..][k - 1];
      assert (ReadableMember(ms[0]) && rest) == (forall k :: 0 <= k < |ms| ==> ReadableMember(ms[k]));
    }
  }

  lemma SameReach(a: seq<Event>, b: seq<Event>, readable: bool)
    requires SameEvents(a, b) && Reach(b, readable)
    ensures Reach(a, readable)
  {
    hide Handed, LengthOk;
    forall k | 0 <= k < |a|
      ensures Hand(a[k]) == a[k] && (Handable(true, a[k]) <==> Handable(true, b[k]))
      ensures Handable(false, a[k]) <==> Handable(false, b[k])
    {
      assert SameEvent(a[k], b[k]) && HandAll(b)[k] == Hand(b[k]) == b[k];
    }
  }

  /** The text of a value, as a whole document, is accepted under every combination of
      flags, and the events build exactly that value. All of them reach a handler in full if
      the text is decoded in place, and otherwise exactly if the value is readable. */
  lemma {:induction false} DocumentReadsBack(v: Json, st: Style, f: Flags)
    requires Printable(v) && ValidStyle(st)
    ensures var r := Document(Text(v, st, 0), f);
            && r.Ok? && r.pos == |Text(v, st, 0)|
            && Build([], r.events) == Some([v])
            && Reach(r.events, Readable(v))
  {
    hide Skip, Value, Text, Events, Build, SameEvents, Reach, Readable;
    var s := Text(v, st, 0);
    assert s + [] == s;
    OccursParts(s, []);
    TextStarts(v, st, 0);
    NoSpace();
    OccursNothing(s, 0);
    Skipped(s, f.comments, 0, []);
    OccursNothing(s, |s|);
    Skipped(s, f.comments, |s|, []);
    ValueReadsBack(s, f, 0, v, st, 0);
    var ev := Value(s, f, 0).events;
    assert ev + [] == ev;
    SameEventsBuildSame([], ev, Events(v));
    EventsBuild([], v);
    assert [] + [v] == [v];
    EventsReach(v);
    SameReach(ev, Events(v), Readable(v));
  }
}
