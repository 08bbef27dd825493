/** Every accepted text gives the events of one value, so that a document built from
    them is left with exactly one root. */
module JsonLoad {
  import opened Words
  import opened JsonText
  import opened JsonEvents
  import opened JsonGrammar
  import opened JsonLengths
  import opened JsonDocument
  import opened JsonCounts
  import opened JsonRoundTrip
  import JsonNumber

  /** The events are, but for the form of numbers, those sent for a value. */
  predicate EventsOf(events: seq<Event>, v: Json) {
    Proper(v) && SameEvents(events, Sent(v))
  }

  /** No two trees have the same events. */
  lemma {:induction false} OnlyTree(events: seq<Event>, v: Json, v': Json)
    requires EventsOf(events, v) && EventsOf(events, v')
    ensures v == v'
  {
    hide Sent, Proper, SameEvent;
    forall k | 0 <= k < |events|
      ensures SameEvent(Sent(v)[k], Sent(v')[k])
    {
      assert SameEvent(events[k], Sent(v)[k]) && SameEvent(events[k], Sent(v')[k]);
      SameEventThrough(events[k], Sent(v)[k], Sent(v')[k]);
    }
    assert Sent(v) + [] == Sent(v) && Sent(v') + [] == Sent(v');
    OneTree(v, [], v', []);
  }

  lemma SameEventThrough(e: Event, a: Event, b: Event)
    requires SameEvent(e, a) && SameEvent(e, b)
    ensures SameEvent(a, b)
  {
  }

  lemma NumberIsValue(s: seq<byte>, i: nat) returns (v: Json)
    requires i <= |s| && JsonNumber.NumberAt(s, i).Some?
    ensures EventsOf([JsonNumber.NumberAt(s, i).value.1], v) && Valid(v)
  {
    hide JsonNumber.Decimal;
    var e := JsonNumber.NumberAt(s, i).value.1;
    v := if e.Double? then JDouble(e.text) else JNumber(NumberOf(NumberIn(e).value));
  }

  /** What a string stands for is shorter than the text. */
  lemma {:induction false} TextFits(s: seq<byte>, i: nat, key: bool)
    requires i < |s| && StringAt(s, i, key).Ok?
    ensures var e := StringAt(s, i, key).events;
            |e| == 1 && IsText(e[0]) && e[0].Key? == key && |TextOf(e[0])| < |s| - 1
  {
  }

  lemma ScalarIsValue(s: seq<byte>, i: nat) returns (v: Json)
    requires i <= |s| && Scalar(s, i).Ok?
    ensures EventsOf(Scalar(s, i).events, v) && (|s| < TWO_32 ==> Valid(v))
  {
    hide JsonNumber.NumberAt;
    var c := Peek(s, i);
    if c == QUOTE {
      TextFits(s, i, false);
      v := JString(StringAt(s, i, false).events[0].str);
    } else if c == NULL_WORD[0] {
      v := JNull;
    } else if c == TRUE_WORD[0] || c == FALSE_WORD[0] {
      v := JBool(c == TRUE_WORD[0]);
    } else {
      v := NumberIsValue(s, i);
    }
  }

  // ---------- Arrays

  /** Events that send these elements and the end of an array with `n` more. */
  predicate ElementsOf(events: seq<Event>, es: seq<Json>, n: nat) {
    && (forall k :: 0 <= k < |es| ==> Proper(es[k]))
    && SameEvents(events, SentElements(es) + [EndArray((n + |es|) % TWO_32)])
  }

  lemma {:induction false} ArrayIsValue(events: seq<Event>, es: seq<Json>)
    requires ElementsOf(events, es, 0)
    ensures EventsOf([StartArray] + events, JArray(es))
  {
    hide SameEvents, SentElements;
    var rest := SentElements(es) + [EndArray(|es| % TWO_32)];
    SameEventsSelf([StartArray]);
    SameEventsJoin([StartArray], [StartArray], events, rest);
    assert Sent(JArray(es)) == [StartArray] + rest;
  }

  lemma {:induction false} NoElements(n: nat)
    requires n < TWO_32
    ensures ElementsOf([EndArray(n)], [], n)
  {
    assert SentElements([]) + [EndArray(n)] == [EndArray(n)];
  }

  lemma NextWraps(n: nat, k: nat)
    ensures (Next(n) + k) % TWO_32 == (n + (1 + k)) % TWO_32
  {
  }

  lemma {:induction false} OneMoreElement(a: seq<Event>, v: Json, b: seq<Event>, es: seq<Json>, n: nat)
    requires EventsOf(a, v) && ElementsOf(b, es, Next(n))
    ensures ElementsOf(a + b, [v] + es, n)
  {
    hide SameEvents, Sent;
    var all := [v] + es;
    assert all[0] == v && all[1..] == es;
    var last := EndArray((n + |all|) % TWO_32);
    var rest := SentElements(es) + [last];
    NextWraps(n, |es|);
    SameEventsJoin(a, Sent(v), b, rest);
    assert SentElements(all) + [last] == Sent(v) + rest;
  }

  lemma {:induction false} ElementIsValues(s: seq<byte>, f: Flags, i: nat, n: nat) returns (es: seq<Json>)
    requires i <= |s| && n < TWO_32 && Element(s, f, i, n).Ok?
    ensures ElementsOf(Element(s, f, i, n).events, es, n)
    ensures |es| <= |s| - i && (|s| < TWO_32 ==> forall k :: 0 <= k < |es| ==> Valid(es[k]))
    decreases |s| - i, 2
  {
    hide Skip, Value, Element, AfterElement, ElementsOf, EventsOf, Valid;
    UnfoldElement(s, f, i, n);
    var r := Value(s, f, i);
    var v := ValueIsValue(s, f, i);
    var j := Skip(s, f.comments, r.pos).value;
    var rest := AfterElementIsValues(s, f, j, Next(n));
    OneMoreElement(r.events, v, AfterElement(s, f, j, Next(n)).events, rest, n);
    es := [v] + rest;
  }

  lemma {:induction false} AfterElementIsValues(s: seq<byte>, f: Flags, i: nat, n: nat) returns (es: seq<Json>)
    requires i <= |s| && n < TWO_32 && AfterElement(s, f, i, n).Ok?
    ensures ElementsOf(AfterElement(s, f, i, n).events, es, n)
    ensures |es| <= |s| - i && (|s| < TWO_32 ==> forall k :: 0 <= k < |es| ==> Valid(es[k]))
    decreases |s| - i, 0
  {
    hide Skip, Element, AfterElement, AfterElementComma, ElementsOf;
    UnfoldAfterElement(s, f, i, n);
    NoElements(n);
    es := [];
    if Peek(s, i) == COMMA {
      var j := Skip(s, f.comments, i + 1).value;
      UnfoldAfterElementComma(s, f, j, n);
      if !(f.trailingCommas && Peek(s, j) == RBRACKET) {
        es := ElementIsValues(s, f, j, n);
      }
    }
  }

  // ---------- Objects

  predicate MembersFit32(ms: seq<Member>) {
    forall k :: 0 <= k < |ms| ==> |ms[k].name| < TWO_32 && Valid(ms[k].value)
  }

  predicate MembersOf(events: seq<Event>, ms: seq<Member>, n: nat) {
    && (forall k :: 0 <= k < |ms| ==> Proper(ms[k].value))
    && SameEvents(events, SentMembers(ms) + [EndObject((n + |ms|) % TWO_32)])
  }

  lemma {:induction false} ObjectIsValue(events: seq<Event>, ms: seq<Member>)
    requires MembersOf(events, ms, 0)
    ensures EventsOf([StartObject] + events, JObject(ms))
  {
    hide SameEvents, SentMembers;
    var rest := SentMembers(ms) + [EndObject(|ms| % TWO_32)];
    SameEventsSelf([StartObject]);
    SameEventsJoin([StartObject], [StartObject], events, rest);
    assert Sent(JObject(ms)) == [StartObject] + rest;
  }

  lemma {:induction false} NoMembers(n: nat)
    requires n < TWO_32
    ensures MembersOf([EndObject(n)], [], n)
  {
    assert SentMembers([]) + [EndObject(n)] == [EndObject(n)];
  }

  lemma {:induction false} OneMoreMember(name: seq<byte>, a: seq<Event>, v: Json, b: seq<Event>, ms: seq<Member>,
                                         n: nat)
    requires EventsOf(a, v) && MembersOf(b, ms, Next(n))
    ensures MembersOf([Key(name)] + (a + b), [Member(name, v)] + ms, n)
  {
    hide SameEvents, Sent;
    var all := [Member(name, v)] + ms;
    assert all[0] == Member(name, v) && all[1..] == ms;
    var last := EndObject((n + |all|) % TWO_32);
    var rest := SentMembers(ms) + [last];
    NextWraps(n, |ms|);
    SameEventsJoin(a, Sent(v), b, rest);
    SameEventsSelf([Key(name)]);
    SameEventsJoin([Key(name)], [Key(name)], a + b, Sent(v) + rest);
    assert SentMembers(all) + [last] == [Key(name)] + (Sent(v) + rest);
  }

  lemma {:induction false} NameIsMembers(s: seq<byte>, f: Flags, i: nat, n: nat) returns (ms: seq<Member>)
    requires i <= |s| && n < TWO_32 && Name(s, f, i, n).Ok?
    ensures MembersOf(Name(s, f, i, n).events, ms, n)
    ensures |ms| <= |s| - i && (|s| < TWO_32 ==> MembersFit32(ms))
    decreases |s| - i, 2
  {
    hide Skip, Value, Name, AfterName, MemberValue, AfterMember, MembersOf, EventsOf, Valid;
    UnfoldName(s, f, i, n);
    var k := StringAt(s, i, true);
    TextFits(s, i, true);
    var name := k.events[0].name;
    var j := Skip(s, f.comments, k.pos).value;
    UnfoldAfterName(s, f, j, n);
    var p := Skip(s, f.comments, j + 1).value;
    UnfoldMemberValue(s, f, p, n);
    var r := Value(s, f, p);
    var v := ValueIsValue(s, f, p);
    var q := Skip(s, f.comments, r.pos).value;
    var rest := AfterMemberIsMembers(s, f, q, Next(n));
    OneMoreMember(name, r.events, v, AfterMember(s, f, q, Next(n)).events, rest, n);
    ms := [Member(name, v)] + rest;
  }

  lemma {:induction false} AfterMemberIsMembers(s: seq<byte>, f: Flags, i: nat, n: nat) returns (ms: seq<Member>)
    requires i <= |s| && n < TWO_32 && AfterMember(s, f, i, n).Ok?
    ensures MembersOf(AfterMember(s, f, i, n).events, ms, n)
    ensures |ms| <= |s| - i && (|s| < TWO_32 ==> MembersFit32(ms))
    decreases |s| - i, 0
  {
    hide Skip, Name, AfterMember, AfterMemberComma, MembersOf;
    UnfoldAfterMember(s, f, i, n);
    NoMembers(n);
    ms := [];
    if Peek(s, i) == COMMA {
      var j := Skip(s, f.comments, i + 1).value;
      UnfoldAfterMemberComma(s, f, j, n);
      if !(f.trailingCommas && Peek(s, j) == RBRACE) {
        ms := NameIsMembers(s, f, j, n);
      }
    }
  }

  // ---------- Values

  lemma {:induction false} ValueIsValue(s: seq<byte>, f: Flags, i: nat) returns (v: Json)
    requires i <= |s| && Value(s, f, i).Ok?
    ensures EventsOf(Value(s, f, i).events, v) && (|s| < TWO_32 ==> Valid(v))
    decreases |s| - i, 1
  {
    hide Skip, Value, Scalar, ArrayOpened, ObjectOpened, Element, Name, EventsOf, ElementsOf, MembersOf;
    if Peek(s, i) == LBRACKET {
      UnfoldArray(s, f, i);
      var j := Skip(s, f.comments, i + 1).value;
      UnfoldArrayOpened(s, f, j);
      NoElements(0);
      var es := [];
      if Peek(s, j) != RBRACKET {
        es := ElementIsValues(s, f, j, 0);
      }
      ArrayIsValue(ArrayOpened(s, f, j).events, es);
      v := JArray(es);
    } else if Peek(s, i) == LBRACE {
      UnfoldObject(s, f, i);
      var j := Skip(s, f.comments, i + 1).value;
      UnfoldObjectOpened(s, f, j);
      NoMembers(0);
      var ms := [];
      if Peek(s, j) != RBRACE {
        ms := NameIsMembers(s, f, j, 0);
      }
      ObjectIsValue(ObjectOpened(s, f, j).events, ms);
      v := JObject(ms);
    } else {
      UnfoldScalar(s, f, i);
      v := ScalarIsValue(s, i);
    }
  }

  /** Every accepted text is that of a tree. Its events, wherever a reader can hand out all of
      its strings, leave one value on any stack and what counts of 32 bits do not take away;
      the value is the tree exactly if no string or name has 2^32 bytes. */
  lemma {:induction false} AcceptedEventsBuild(s: seq<byte>, f: Flags, stack: seq<Json>) returns (v: Json)
    requires Document(s, f).Ok?
    ensures EventsOf(Document(s, f).events, v) && (|s| < TWO_32 ==> Valid(v))
    ensures Climb(|stack|, HandAll(Document(s, f).events)) == Some(|stack| + 1 + Lost(v))
    ensures Lost(v) == 0 <==> Counted(v)
    ensures Counted(v) ==> Build(stack, HandAll(Document(s, f).events)) == Some(stack + [Cut(v)])
    ensures Cut(v) == v <==> StringsFit(v)
    ensures Valid(v) <==> Counted(v) && StringsFit(v)
  {
    hide Skip, Value, Build, SameEvents, Sent, Valid, Proper, Counted, HandAll, StringsFit, Cut, Climb, Lost;
    var i := Skip(s, f.comments, 0).value;
    v := ValueIsValue(s, f, i);
    var events := Value(s, f, i).events;
    assert events + [] == events;
    BuildsExactly(stack, events, v);
    CutSame(v);
    FitsExactly(v);
  }

  /** A proper value can be held exactly if its counts and strings fit. */
  lemma {:induction false} FitsExactly(v: Json)
    requires Proper(v)
    ensures Valid(v) <==> Counted(v) && StringsFit(v)
    decreases v
  {
    match v
    case JObject(ms) =>
      forall k | 0 <= k < |ms|
        ensures Valid(ms[k].value) <==> Counted(ms[k].value) && StringsFit(ms[k].value)
      {
        FitsExactly(ms[k].value);
      }
    case JArray(es) =>
      forall k | 0 <= k < |es|
        ensures Valid(es[k]) <==> Counted(es[k]) && StringsFit(es[k])
      {
        FitsExactly(es[k]);
      }
    case _ =>
  }

  // ---------- Texts that are not accepted

  /** Every event finds on the stack what it needs. */
  predicate Builds(stack: seq<Json>, events: seq<Event>) {
    Build(stack, events).Some?
  }

  lemma {:induction false} NoEventsBuild(stack: seq<Json>)
    ensures Builds(stack, [])
  {
  }

  lemma {:induction false} BuildsAfterStart(stack: seq<Json>, e: Event, rest: seq<Event>)
    requires e == StartArray || e == StartObject
    requires Builds(stack + [if e == StartArray then JArray([]) else JObject([])], rest)
    ensures Builds(stack, [e] + rest) && Builds(stack, [e])
  {
    hide Build;
    BuildOne(stack, e);
    BuildSplit(stack, [e], rest);
  }

  lemma {:induction false} BuildsAfterKey(stack: seq<Json>, name: seq<byte>, rest: seq<Event>)
    requires Builds(stack + [JString(name)], rest)
    ensures Builds(stack, [Key(name)] + rest) && Builds(stack, [Key(name)])
  {
    hide Build;
    BuildOne(stack, Key(name));
    BuildSplit(stack, [Key(name)], rest);
  }

  lemma {:induction false} BuildsAfterValue(stack: seq<Json>, events: seq<Event>, v: Json, rest: seq<Event>)
    requires EventsOf(events, v) && Valid(v) && Builds(stack + [v], rest)
    ensures Builds(stack, events + rest) && Builds(stack, events)
  {
    hide Build, SameEvents, Sent, Valid, Events;
    ValidIsProper(v);
    SameEventsBuildSame(stack, events, Events(v));
    EventsBuild(stack, v);
    BuildSplit(stack, events, rest);
  }

  lemma {:induction false} FailedElementBuilds(s: seq<byte>, f: Flags, i: nat, n: nat, stack: seq<Json>)
    requires i <= |s| < TWO_32 && Element(s, f, i, n).Error?
    ensures Builds(stack, Element(s, f, i, n).events)
    decreases |s| - i, 2
  {
    hide Skip, Value, Element, AfterElement, AfterElementComma, Builds, EventsOf;
    UnfoldElement(s, f, i, n);
    var r := Value(s, f, i);
    if r.Error? {
      FailedValueBuilds(s, f, i, stack);
    } else {
      var v := ValueIsValue(s, f, i);
      NoEventsBuild(stack + [v]);
      BuildsAfterValue(stack, r.events, v, []);
      var skip := Skip(s, f.comments, r.pos);
      if skip.Some? {
        var j, n' := skip.value, Next(n);
        UnfoldAfterElement(s, f, j, n');
        if Peek(s, j) == COMMA && Skip(s, f.comments, j + 1).Some? {
          var p := Skip(s, f.comments, j + 1).value;
          UnfoldAfterElementComma(s, f, p, n');
          FailedElementBuilds(s, f, p, n', stack + [v]);
        }
        BuildsAfterValue(stack, r.events, v, AfterElement(s, f, j, n').events);
      }
    }
  }

  lemma {:induction false} FailedMemberBuilds(s: seq<byte>, f: Flags, i: nat, n: nat, stack: seq<Json>)
    requires i <= |s| < TWO_32 && MemberValue(s, f, i, n).Error?
    ensures Builds(stack, MemberValue(s, f, i, n).events)
    decreases |s| - i, 2
  {
    hide Skip, Value, Name, MemberValue, AfterMember, AfterMemberComma, Builds, EventsOf;
    UnfoldMemberValue(s, f, i, n);
    var r := Value(s, f, i);
    if r.Error? {
      FailedValueBuilds(s, f, i, stack);
    } else {
      var v := ValueIsValue(s, f, i);
      NoEventsBuild(stack + [v]);
      BuildsAfterValue(stack, r.events, v, []);
      var skip := Skip(s, f.comments, r.pos);
      if skip.Some? {
        var j, n' := skip.value, Next(n);
        UnfoldAfterMember(s, f, j, n');
        if Peek(s, j) == COMMA && Skip(s, f.comments, j + 1).Some? {
          var p := Skip(s, f.comments, j + 1).value;
          UnfoldAfterMemberComma(s, f, p, n');
          FailedNameBuilds(s, f, p, n', stack + [v]);
        }
        BuildsAfterValue(stack, r.events, v, AfterMember(s, f, j, n').events);
      }
    }
  }

  lemma {:induction false} FailedNameBuilds(s: seq<byte>, f: Flags, i: nat, n: nat, stack: seq<Json>)
    requires i <= |s| < TWO_32 && Name(s, f, i, n).Error?
    ensures Builds(stack, Name(s, f, i, n).events)
    decreases |s| - i, 3
  {
    hide Skip, Name, AfterName, MemberValue, Builds;
    UnfoldName(s, f, i, n);
    NoEventsBuild(stack);
    if Peek(s, i) == QUOTE {
      var k := StringAt(s, i, true);
      if k.Ok? {
        var name := k.events[0].name;
        var stack' := stack + [JString(name)];
        NoEventsBuild(stack');
        BuildsAfterKey(stack, name, []);
        var skip := Skip(s, f.comments, k.pos);
        if skip.Some? {
          var j := skip.value;
          UnfoldAfterName(s, f, j, n);
          if Peek(s, j) == COLON && Skip(s, f.comments, j + 1).Some? {
            FailedMemberBuilds(s, f, Skip(s, f.comments, j + 1).value, n, stack');
          }
          BuildsAfterKey(stack, name, AfterName(s, f, j, n).events);
        }
      }
    }
  }

  lemma {:induction false} FailedValueBuilds(s: seq<byte>, f: Flags, i: nat, stack: seq<Json>)
    requires i <= |s| < TWO_32 && Value(s, f, i).Error?
    ensures Builds(stack, Value(s, f, i).events)
    decreases |s| - i, 1
  {
    hide Skip, Value, ArrayOpened, ObjectOpened, Element, Name, Builds;
    if Peek(s, i) == LBRACKET {
      UnfoldArray(s, f, i);
      var stack' := stack + [JArray([])];
      NoEventsBuild(stack');
      BuildsAfterStart(stack, StartArray, []);
      var skip := Skip(s, f.comments, i + 1);
      if skip.Some? {
        UnfoldArrayOpened(s, f, skip.value);
        FailedElementBuilds(s, f, skip.value, 0, stack');
        BuildsAfterStart(stack, StartArray, ArrayOpened(s, f, skip.value).events);
      }
    } else if Peek(s, i) == LBRACE {
      UnfoldObject(s, f, i);
      var stack' := stack + [JObject([])];
      NoEventsBuild(stack');
      BuildsAfterStart(stack, StartObject, []);
      var skip := Skip(s, f.comments, i + 1);
      if skip.Some? {
        UnfoldObjectOpened(s, f, skip.value);
        FailedNameBuilds(s, f, skip.value, 0, stack');
        BuildsAfterStart(stack, StartObject, ObjectOpened(s, f, skip.value).events);
      }
    } else {
      UnfoldScalar(s, f, i);
      NoEventsBuild(stack);
    }
  }

  /** Every event of a text shorter than 2^32 bytes, accepted or not, finds on the stack what
      it needs. */
  lemma {:induction false} EveryTextBuilds(s: seq<byte>, f: Flags)
    requires |s| < TWO_32
    ensures Builds([], Document(s, f).events)
  {
    hide Skip, Value, Build, EventsOf, AfterRoot;
    NoEventsBuild([]);
    var skip := Skip(s, f.comments, 0);
    if skip.Some? && Peek(s, skip.value) != NUL {
      var r := Value(s, f, skip.value);
      if r.Error? {
        FailedValueBuilds(s, f, skip.value, []);
      } else {
        var v := ValueIsValue(s, f, skip.value);
        RootSendsNothing(s, f, r.pos);
        assert r.events + [] == r.events;
        NoEventsBuild([] + [v]);
        BuildsAfterValue([], r.events, v, []);
      }
    }
  }

  // ---------- A text with too many elements

  /** So many more zeros in an array. */
  function Zeros(k: nat): (t: seq<byte>)
    ensures |t| == 2 * k
  {
    if k == 0 then [] else [COMMA, ZERO] + Zeros(k - 1)
  }

  lemma {:induction false} ZeroReads(s: seq<byte>, f: Flags, i: nat)
    requires i + 1 < |s| && s[i] == ZERO && (s[i + 1] == COMMA || s[i + 1] == RBRACKET)
    ensures Value(s, f, i) == Ok(i + 1, [Uint(0)])
    ensures Skip(s, f.comments, i) == Some(i) && Skip(s, f.comments, i + 1) == Some(i + 1)
  {
    UnfoldScalar(s, f, i);
    assert s[i..i + 1] == [ZERO];
    assert JsonNumber.Decimal(0, [ZERO]) == 0 by { assert [ZERO][..0] == []; }
  }

  lemma {:induction false} ZerosEnd(s: seq<byte>, i: nat, k: nat)
    requires Occurs(s, i, Zeros(k) + [RBRACKET])
    ensures i < |s| && s[i] == if k == 0 then RBRACKET else COMMA
    ensures k > 0 ==> i + 2 < |s| && s[i + 1] == ZERO && Occurs(s, i + 2, Zeros(k - 1) + [RBRACKET])
  {
    if k > 0 {
      assert Zeros(k) + [RBRACKET] == [COMMA, ZERO] + (Zeros(k - 1) + [RBRACKET]);
      OccursSplit(s, i, [COMMA, ZERO], Zeros(k - 1) + [RBRACKET]);
      assert s[i..i + 2][0] == s[i] && s[i..i + 2][1] == s[i + 1];
    } else {
      assert Zeros(k) + [RBRACKET] == [RBRACKET];
      FirstByte(s, i, [RBRACKET]);
    }
  }

  lemma NoText(e: Event)
    requires !IsText(e)
    ensures Short([e])
  {
  }

  lemma {:induction false} ZerosRead(s: seq<byte>, f: Flags, i: nat, n: nat, k: nat, h: nat)
    requires Occurs(s, i, Zeros(k) + [RBRACKET]) && n < TWO_32 && h >= n + 1
    ensures var r := AfterElement(s, f, i, n);
            r.Ok? && r.pos == i + 2 * k + 1 && Climb(h, r.events) == Some(h + k - (n + k) % TWO_32) && Short(r.events)
    decreases k
  {
    hide Skip, Value, Element, AfterElement, AfterElementComma, Occurs, Zeros, Climb, Short;
    ZerosEnd(s, i, k);
    UnfoldAfterElement(s, f, i, n);
    ClimbOne(h, EndArray(n));
    NoText(EndArray(n));
    NoText(Uint(0));
    if k > 0 {
      ZerosEnd(s, i + 2, k - 1);
      ZeroReads(s, f, i + 1);
      UnfoldAfterElementComma(s, f, i + 1, n);
      UnfoldElement(s, f, i + 1, n);
      ZerosRead(s, f, i + 2, Next(n), k - 1, h + 1);
      NextWraps(n, k - 1);
      ClimbOne(h, Uint(0));
      ClimbJoin(h, [Uint(0)], AfterElement(s, f, i + 2, Next(n)).events);
      ShortJoin([Uint(0)], AfterElement(s, f, i + 2, Next(n)).events);
    }
  }

  /** An array of 2^32 zeros is accepted, but its count wraps to zero, and its events leave an
      empty array and all of the zeros. */
  lemma {:induction false} TooManyElements(f: Flags, k: nat) returns (s: seq<byte>)
    requires k == TWO_32 - 1
    ensures s == [LBRACKET, ZERO] + Zeros(k) + [RBRACKET]
    ensures Document(s, f).Ok? && AllHandable(false, Document(s, f).events)
    ensures Climb(0, HandAll(Document(s, f).events)) == Some(1 + TWO_32)
  {
    hide Skip, Value, Element, AfterElement, ArrayOpened, Zeros, Climb, HandAll, AllHandable, Short;
    var rest := Zeros(k) + [RBRACKET];
    s := [LBRACKET, ZERO] + Zeros(k) + [RBRACKET];
    assert s == [LBRACKET, ZERO] + rest;
    OccursParts([LBRACKET, ZERO], rest);
    ZerosEnd(s, 2, k);
    OccursNothing(s, 0);
    NoSpace();
    Skipped(s, f.comments, 0, []);
    ZeroReads(s, f, 1);
    ZerosRead(s, f, 2, 1, k, 2);
    UnfoldArray(s, f, 0);
    UnfoldArrayOpened(s, f, 1);
    UnfoldElement(s, f, 1, 0);
    var tail := AfterElement(s, f, 2, 1).events;
    ClimbOne(0, StartArray);
    ClimbOne(1, Uint(0));
    ClimbJoin(1, [Uint(0)], tail);
    ClimbJoin(0, [StartArray], [Uint(0)] + tail);
    NoText(StartArray);
    NoText(Uint(0));
    ShortJoin([Uint(0)], tail);
    ShortJoin([StartArray], [Uint(0)] + tail);
    OccursNothing(s, |s|);
    Skipped(s, f.comments, |s|, []);
    var events := Document(s, f).events;
    assert Value(s, f, 0).events + [] == Value(s, f, 0).events;
    ShortHands(events);
  }
}
