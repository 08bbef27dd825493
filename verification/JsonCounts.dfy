/** Counts of elements and members have 32 bits. What readers send for trees of any size,
    and how high a stack their events leave. */
module JsonCounts {
  import opened Words
  import opened JsonText
  import opened JsonEvents
  import opened JsonLengths
  import opened JsonDocument

  /** Values whose numbers are in order, with any number of elements and members. */
  predicate Proper(v: Json) {
    match v
    case JNumber(n) => InRange(n.value) && n == NumberOf(n.value)
    case JObject(ms) => forall k :: 0 <= k < |ms| ==> Proper(ms[k].value)
    case JArray(es) => forall k :: 0 <= k < |es| ==> Proper(es[k])
    case _ => true
  }

  /** The events of a value, with its counts reduced to 32 bits. */
  function Sent(v: Json): seq<Event>
    requires Proper(v)
    decreases v, 1
  {
    match v
    case JNull => [Null]
    case JBool(b) => [Bool(b)]
    case JNumber(n) => [NumberEvent(n)]
    case JDouble(t) => [Double(t)]
    case JString(s) => [String(s)]
    case JObject(ms) => [StartObject] + SentMembers(ms) + [EndObject(|ms| % TWO_32)]
    case JArray(es) => [StartArray] + SentElements(es) + [EndArray(|es| % TWO_32)]
  }

  function SentElements(es: seq<Json>): seq<Event>
    requires forall k :: 0 <= k < |es| ==> Proper(es[k])
    decreases es, 0
  {
    if es == [] then [] else Sent(es[0]) + SentElements(es[1..])
  }

  function SentMembers(ms: seq<Member>): seq<Event>
    requires forall k :: 0 <= k < |ms| ==> Proper(ms[k].value)
    decreases ms, 0
  {
    if ms == [] then [] else [Key(ms[0].name)] + (Sent(ms[0].value) + SentMembers(ms[1..]))
  }

  // ---------- Only one tree

  /** An event with which a value or a member begins. */
  predicate Begins(e: Event) {
    !e.EndArray? && !e.EndObject?
  }

  /** Whatever comes behind them, the same events are those of the same tree. */
  lemma {:induction false} OneTree(v: Json, a: seq<Event>, v': Json, b: seq<Event>)
    requires Proper(v) && Proper(v') && SameEvents(Sent(v) + a, Sent(v') + b)
    ensures v == v' && SameEvents(a, b)
    decreases v, 1
  {
    hide SameEvents;
    SameFirst(v, a, v', b);
    if v.JObject? {
      var last, last' := EndObject(|v.members| % TWO_32), EndObject(|v'.members| % TWO_32);
      SameInside(StartObject, SentMembers(v.members), last, a, SentMembers(v'.members), last', b);
      SameMembers(v.members, [last] + a, v'.members, [last'] + b);
      SameBehind([last], a, [last'], b);
    } else if v.JArray? {
      var last, last' := EndArray(|v.elements| % TWO_32), EndArray(|v'.elements| % TWO_32);
      SameInside(StartArray, SentElements(v.elements), last, a, SentElements(v'.elements), last', b);
      SameElements(v.elements, [last] + a, v'.elements, [last'] + b);
      SameBehind([last], a, [last'], b);
    } else {
      SameBehind(Sent(v), a, Sent(v'), b);
    }
  }

  lemma {:induction false} SameFirst(v: Json, a: seq<Event>, v': Json, b: seq<Event>)
    requires Proper(v) && Proper(v') && SameEvents(Sent(v) + a, Sent(v') + b)
    ensures v.JObject? == v'.JObject? && v.JArray? == v'.JArray?
    ensures !v.JObject? && !v.JArray? ==> v == v'
  {
    assert SameEvent((Sent(v) + a)[0], (Sent(v') + b)[0]);
  }

  lemma SameInside(first: Event, p: seq<Event>, last: Event, a: seq<Event>, q: seq<Event>, last': Event,
                   b: seq<Event>)
    requires SameEvents([first] + p + [last] + a, [first] + q + [last'] + b)
    ensures SameEvents(p + ([last] + a), q + ([last'] + b))
  {
    hide SameEvents;
    assert [first] + p + [last] + a == [first] + (p + ([last] + a));
    assert [first] + q + [last'] + b == [first] + (q + ([last'] + b));
    SameBehind([first], p + ([last] + a), [first], q + ([last'] + b));
  }

  lemma SameBehind(p: seq<Event>, a: seq<Event>, q: seq<Event>, b: seq<Event>)
    requires |p| == |q| && SameEvents(p + a, q + b)
    ensures SameEvents(a, b)
  {
    hide SameEvent;
    forall k | 0 <= k < |a|
      ensures SameEvent(a[k], b[k])
    {
      assert SameEvent((p + a)[|p| + k], (q + b)[|p| + k]);
    }
  }

  lemma {:induction false} SentBegins(v: Json)
    requires Proper(v)
    ensures |Sent(v)| > 0 && Begins(Sent(v)[0])
  {
  }

  lemma {:induction false} SameElements(es: seq<Json>, a: seq<Event>, es': seq<Json>, b: seq<Event>)
    requires (forall k :: 0 <= k < |es| ==> Proper(es[k])) && (forall k :: 0 <= k < |es'| ==> Proper(es'[k]))
    requires |a| > 0 && !Begins(a[0]) && |b| > 0 && !Begins(b[0])
    requires SameEvents(SentElements(es) + a, SentElements(es') + b)
    ensures es == es' && SameEvents(a, b)
    decreases es, 0
  {
    hide Sent, Proper;
    var all, all' := SentElements(es) + a, SentElements(es') + b;
    assert SameEvent(all[0], all'[0]);
    if es != [] {
      SentBegins(es[0]);
    }
    if es' != [] {
      SentBegins(es'[0]);
    }
    assert es == [] <==> es' == [];
    if es != [] {
      assert all == Sent(es[0]) + (SentElements(es[1..]) + a);
      assert all' == Sent(es'[0]) + (SentElements(es'[1..]) + b);
      OneTree(es[0], SentElements(es[1..]) + a, es'[0], SentElements(es'[1..]) + b);
      SameElements(es[1..], a, es'[1..], b);
      assert es == [es[0]] + es[1..] && es' == [es'[0]] + es'[1..];
    } else {
      SameBehind([], a, [], b);
    }
  }

  lemma {:induction false} SameMembers(ms: seq<Member>, a: seq<Event>, ms': seq<Member>, b: seq<Event>)
    requires forall k :: 0 <= k < |ms| ==> Proper(ms[k].value)
    requires forall k :: 0 <= k < |ms'| ==> Proper(ms'[k].value)
    requires |a| > 0 && !Begins(a[0]) && |b| > 0 && !Begins(b[0])
    requires SameEvents(SentMembers(ms) + a, SentMembers(ms') + b)
    ensures ms == ms' && SameEvents(a, b)
    decreases ms, 0
  {
    hide Sent, Proper;
    var all, all' := SentMembers(ms) + a, SentMembers(ms') + b;
    assert SameEvent(all[0], all'[0]);
    assert ms == [] <==> ms' == [];
    if ms != [] {
      var key, key', rest, rest' := [Key(ms[0].name)], [Key(ms'[0].name)], SentMembers(ms[1..]), SentMembers(ms'[1..]);
      assert all == key + (Sent(ms[0].value) + (rest + a));
      assert all' == key' + (Sent(ms'[0].value) + (rest' + b));
      SameBehind(key, Sent(ms[0].value) + (rest + a), key', Sent(ms'[0].value) + (rest' + b));
      OneTree(ms[0].value, rest + a, ms'[0].value, rest' + b);
      SameMembers(ms[1..], a, ms'[1..], b);
      assert ms == [ms[0]] + ms[1..] && ms' == [ms'[0]] + ms'[1..];
    } else {
      SameBehind([], a, [], b);
    }
  }

  // ---------- Sizes that fit

  lemma {:induction false} ValidIsProper(v: Json)
    requires Valid(v)
    ensures Proper(v) && Sent(v) == Events(v)
    decreases v, 1
  {
    match v
    case JObject(ms) => MembersFit(ms);
    case JArray(es) => ElementsFit(es);
    case _ =>
  }

  lemma {:induction false} ElementsFit(es: seq<Json>)
    requires forall k :: 0 <= k < |es| ==> Valid(es[k])
    ensures (forall k :: 0 <= k < |es| ==> Proper(es[k])) && SentElements(es) == ElementEvents(es)
    decreases es, 0
  {
    if es != [] {
      ValidIsProper(es[0]);
      ElementsFit(es[1..]);
    }
  }

  lemma {:induction false} MembersFit(ms: seq<Member>)
    requires forall k :: 0 <= k < |ms| ==> Valid(ms[k].value)
    ensures (forall k :: 0 <= k < |ms| ==> Proper(ms[k].value)) && SentMembers(ms) == MemberEvents(ms)
    decreases ms, 0
  {
    if ms != [] {
      ValidIsProper(ms[0].value);
      MembersFit(ms[1..]);
    }
  }

  // ---------- Heights

  /** The height after an event; nothing if it takes more than there is. */
  function HeightAfter(h: nat, e: Event): Option<nat> {
    match e
    case EndArray(n) => if n + 1 > h then None else Some(h - n)
    case EndObject(n) => if 2 * n + 1 > h then None else Some(h - 2 * n)
    case _ => Some(h + 1)
  }

  function Climb(h: nat, events: seq<Event>): Option<nat>
    decreases |events|
  {
    if events == [] then Some(h)
    else
      match HeightAfter(h, events[0])
      case None => None
      case Some(h') => Climb(h', events[1..])
  }

  lemma {:induction false} ClimbJoin(h: nat, a: seq<Event>, b: seq<Event>)
    ensures Climb(h, a + b) == if Climb(h, a).Some? then Climb(Climb(h, a).value, b) else None
    decreases |a|
  {
    if a == [] {
      assert a + b == b;
    } else {
      assert (a + b)[1..] == a[1..] + b;
      if HeightAfter(h, a[0]).Some? {
        ClimbJoin(HeightAfter(h, a[0]).value, a[1..], b);
      }
    }
  }

  lemma {:induction false} ClimbOne(h: nat, e: Event)
    ensures Climb(h, [e]) == HeightAfter(h, e)
  {
    assert [e][1..] == [];
  }

  /** Cutting strings makes no difference to heights. */
  lemma {:induction false} ClimbHanded(h: nat, events: seq<Event>)
    ensures Climb(h, HandAll(events)) == Climb(h, events)
    decreases |events|
  {
    hide Handed;
    if events != [] {
      var handed := HandAll(events);
      assert handed[1..] == HandAll(events[1..]);
      assert HeightAfter(h, handed[0]) == HeightAfter(h, events[0]);
      if HeightAfter(h, events[0]).Some? {
        ClimbHanded(HeightAfter(h, events[0]).value, events[1..]);
      }
    }
  }

  /** A document whose stack is built has the height that was climbed to. */
  lemma {:induction false} BuildClimbs(stack: seq<Json>, events: seq<Event>)
    ensures Build(stack, events).Some? ==> Climb(|stack|, events) == Some(|Build(stack, events).value|)
    decreases |events|
  {
    hide Paired;
    if events != [] && Apply(stack, events[0]).Some? {
      BuildClimbs(Apply(stack, events[0]).value, events[1..]);
    }
  }

  lemma {:induction false} ClimbSame(h: nat, a: seq<Event>, b: seq<Event>)
    requires SameEvents(a, b)
    ensures Climb(h, a) == Climb(h, b)
    decreases |a|
  {
    if a != [] && HeightAfter(h, a[0]).Some? {
      ClimbSame(HeightAfter(h, a[0]).value, a[1..], b[1..]);
    }
  }

  /** What is lost when counts are reduced to 32 bits. */
  function Lost(v: Json): nat
    decreases v, 1
  {
    match v
    case JObject(ms) => 2 * (|ms| - |ms| % TWO_32) + LostMembers(ms)
    case JArray(es) => (|es| - |es| % TWO_32) + LostElements(es)
    case _ => 0
  }

  function LostElements(es: seq<Json>): nat
    decreases es, 0
  {
    if es == [] then 0 else Lost(es[0]) + LostElements(es[1..])
  }

  function LostMembers(ms: seq<Member>): nat
    decreases ms, 0
  {
    if ms == [] then 0 else Lost(ms[0].value) + LostMembers(ms[1..])
  }

  /** The events of a value leave it and all that its counts do not take away. */
  lemma {:induction false} SentClimbs(h: nat, v: Json)
    requires Proper(v)
    ensures Climb(h, Sent(v)) == Some(h + 1 + Lost(v))
    decreases v, 1
  {
    hide Climb;
    match v
    case JObject(ms) =>
      MembersClimb(h + 1, ms);
      BracketClimbs(h, StartObject, SentMembers(ms), EndObject(|ms| % TWO_32));
    case JArray(es) =>
      ElementsClimb(h + 1, es);
      BracketClimbs(h, StartArray, SentElements(es), EndArray(|es| % TWO_32));
    case _ =>
      ClimbOne(h, Sent(v)[0]);
  }

  lemma {:induction false} BracketClimbs(h: nat, first: Event, events: seq<Event>, last: Event)
    requires HeightAfter(h, first) == Some(h + 1) && Climb(h + 1, events).Some?
    ensures Climb(h, [first] + events + [last]) == HeightAfter(Climb(h + 1, events).value, last)
  {
    hide Climb, HeightAfter;
    ClimbJoin(h, [first] + events, [last]);
    ClimbJoin(h, [first], events);
    ClimbOne(h, first);
    ClimbOne(Climb(h + 1, events).value, last);
  }

  lemma {:induction false} ElementsClimb(h: nat, es: seq<Json>)
    requires forall k :: 0 <= k < |es| ==> Proper(es[k])
    ensures Climb(h, SentElements(es)) == Some(h + |es| + LostElements(es))
    decreases es, 0
  {
    hide Sent, Lost;
    if es != [] {
      SentClimbs(h, es[0]);
      ElementsClimb(h + 1 + Lost(es[0]), es[1..]);
      ClimbJoin(h, Sent(es[0]), SentElements(es[1..]));
    }
  }

  lemma {:induction false} MembersClimb(h: nat, ms: seq<Member>)
    requires forall k :: 0 <= k < |ms| ==> Proper(ms[k].value)
    ensures Climb(h, SentMembers(ms)) == Some(h + 2 * |ms| + LostMembers(ms))
    decreases ms, 0
  {
    hide Sent, Lost;
    if ms != [] {
      var key, v := Key(ms[0].name), ms[0].value;
      ClimbOne(h, key);
      SentClimbs(h + 1, v);
      MembersClimb(h + 2 + Lost(v), ms[1..]);
      ClimbJoin(h, [key], Sent(v) + SentMembers(ms[1..]));
      ClimbJoin(h + 1, Sent(v), SentMembers(ms[1..]));
    }
  }

  /** No array or object has 2^32 elements or members. */
  predicate Counted(v: Json) {
    match v
    case JObject(ms) => |ms| < TWO_32 && forall k :: 0 <= k < |ms| ==> Counted(ms[k].value)
    case JArray(es) => |es| < TWO_32 && forall k :: 0 <= k < |es| ==> Counted(es[k])
    case _ => true
  }

  /** Nothing is lost exactly if all counts fit. */
  lemma {:induction false} NothingLost(v: Json)
    ensures Lost(v) == 0 <==> Counted(v)
    decreases v, 1
  {
    match v
    case JObject(ms) =>
      NoMemberLost(ms);
    case JArray(es) =>
      NoElementLost(es);
    case _ =>
  }

  lemma {:induction false} NoElementLost(es: seq<Json>)
    ensures LostElements(es) == 0 <==> forall k :: 0 <= k < |es| ==> Counted(es[k])
    decreases es, 0
  {
    hide Lost;
    if es != [] {
      NothingLost(es[0]);
      NoElementLost(es[1..]);
      assert forall k :: 1 <= k < |es| ==> es[k] == es[1..][k - 1];
    }
  }

  lemma {:induction false} NoMemberLost(ms: seq<Member>)
    ensures LostMembers(ms) == 0 <==> forall k :: 0 <= k < |ms| ==> Counted(ms[k].value)
    decreases ms, 0
  {
    hide Lost;
    if ms != [] {
      NothingLost(ms[0].value);
      NoMemberLost(ms[1..]);
      assert forall k :: 1 <= k < |ms| ==> ms[k] == ms[1..][k - 1];
    }
  }

  // ---------- Strings as they reach the handler

  /** A tree with every string and name cut to what is handed out of it. */
  function Cut(v: Json): Json
    decreases v, 1
  {
    match v
    case JString(s) => JString(Handed(s))
    case JObject(ms) => JObject(CutMembers(ms))
    case JArray(es) => JArray(CutElements(es))
    case _ => v
  }

  function CutElements(es: seq<Json>): (r: seq<Json>)
    ensures |r| == |es|
    decreases es, 0
  {
    if es == [] then [] else [Cut(es[0])] + CutElements(es[1..])
  }

  function CutMembers(ms: seq<Member>): (r: seq<Member>)
    ensures |r| == |ms|
    decreases ms, 0
  {
    if ms == [] then [] else [Member(Handed(ms[0].name), Cut(ms[0].value))] + CutMembers(ms[1..])
  }

  /** No string or name has 2^32 bytes. */
  predicate StringsFit(v: Json) {
    match v
    case JString(s) => |s| < TWO_32
    case JObject(ms) => forall k :: 0 <= k < |ms| ==> |ms[k].name| < TWO_32 && StringsFit(ms[k].value)
    case JArray(es) => forall k :: 0 <= k < |es| ==> StringsFit(es[k])
    case _ => true
  }

  lemma {:induction false} CutElementsAt(es: seq<Json>, k: nat)
    requires k < |es|
    ensures CutElements(es)[k] == Cut(es[k])
    decreases |es|
  {
    hide Cut;
    if k > 0 {
      CutElementsAt(es[1..], k - 1);
    }
  }

  lemma {:induction false} CutMembersAt(ms: seq<Member>, k: nat)
    requires k < |ms|
    ensures CutMembers(ms)[k] == Member(Handed(ms[k].name), Cut(ms[k].value))
    decreases |ms|
  {
    hide Cut;
    if k > 0 {
      CutMembersAt(ms[1..], k - 1);
    }
  }

  /** Nothing is cut exactly if all strings fit. */
  lemma {:induction false} CutSame(v: Json)
    ensures Cut(v) == v <==> StringsFit(v)
    decreases v
  {
    hide Handed;
    match v
    case JString(s) => BothHandIt(s);
    case JObject(ms) =>
      forall k | 0 <= k < |ms|
        ensures CutMembers(ms)[k] == ms[k] <==> |ms[k].name| < TWO_32 && StringsFit(ms[k].value)
      {
        CutMembersAt(ms, k);
        BothHandIt(ms[k].name);
        CutSame(ms[k].value);
      }
      assert CutMembers(ms) == ms <==> forall k :: 0 <= k < |ms| ==> CutMembers(ms)[k] == ms[k];
    case JArray(es) =>
      forall k | 0 <= k < |es|
        ensures CutElements(es)[k] == es[k] <==> StringsFit(es[k])
      {
        CutElementsAt(es, k);
        CutSame(es[k]);
      }
      assert CutElements(es) == es <==> forall k :: 0 <= k < |es| ==> CutElements(es)[k] == es[k];
    case _ =>
  }

  /** A tree that is cut can be held exactly if its counts fit. */
  lemma {:induction false} CutFits(v: Json)
    requires Proper(v)
    ensures Proper(Cut(v)) && (Counted(Cut(v)) <==> Counted(v)) && (Counted(v) ==> Valid(Cut(v)))
    decreases v
  {
    match v
    case JObject(ms) =>
      forall k | 0 <= k < |ms|
        ensures var m := CutMembers(ms)[k];
                && |m.name| < TWO_32 && Proper(m.value) && (Counted(m.value) <==> Counted(ms[k].value))
                && (Counted(ms[k].value) ==> Valid(m.value))
      {
        CutMembersAt(ms, k);
        CutFits(ms[k].value);
      }
    case JArray(es) =>
      forall k | 0 <= k < |es|
        ensures var e := CutElements(es)[k];
                Proper(e) && (Counted(e) <==> Counted(es[k])) && (Counted(es[k]) ==> Valid(e))
      {
        CutElementsAt(es, k);
        CutFits(es[k]);
      }
    case _ =>
  }

  /** The events sent for a tree reach the handler as those of the tree that is cut. */
  lemma {:induction false} CutHands(v: Json)
    requires Proper(v)
    ensures Proper(Cut(v)) && HandAll(Sent(v)) == Sent(Cut(v))
    decreases v, 1
  {
    hide HandAll, Handed;
    CutFits(v);
    match v
    case JObject(ms) =>
      MembersHand(ms);
      BracketHands(StartObject, SentMembers(ms), EndObject(|ms| % TWO_32));
    case JArray(es) =>
      ElementsHand(es);
      BracketHands(StartArray, SentElements(es), EndArray(|es| % TWO_32));
    case _ => HandOne(Sent(v)[0]);
  }

  lemma BracketHands(first: Event, events: seq<Event>, last: Event)
    requires Hand(first) == first && Hand(last) == last
    ensures HandAll([first] + events + [last]) == [first] + HandAll(events) + [last]
  {
    hide HandAll, Hand;
    HandOne(first);
    HandOne(last);
    HandJoin([first] + events, [last]);
    HandJoin([first], events);
  }

  lemma {:induction false} ElementsHand(es: seq<Json>)
    requires forall k :: 0 <= k < |es| ==> Proper(es[k])
    ensures forall k :: 0 <= k < |es| ==> Proper(CutElements(es)[k])
    ensures HandAll(SentElements(es)) == SentElements(CutElements(es))
    decreases es, 0
  {
    hide HandAll, Sent, Cut, Proper;
    if es == [] {
      HandNothing();
    } else {
      CutHands(es[0]);
      ElementsHand(es[1..]);
      HandJoin(Sent(es[0]), SentElements(es[1..]));
      var r := CutElements(es);
      assert r[0] == Cut(es[0]) && r[1..] == CutElements(es[1..]);
      assert forall k :: 1 <= k < |es| ==> r[k] == r[1..][k - 1];
    }
  }

  lemma {:induction false} MembersHand(ms: seq<Member>)
    requires forall k :: 0 <= k < |ms| ==> Proper(ms[k].value)
    ensures forall k :: 0 <= k < |ms| ==> Proper(CutMembers(ms)[k].value)
    ensures HandAll(SentMembers(ms)) == SentMembers(CutMembers(ms))
    decreases ms, 0
  {
    hide HandAll, Sent, Cut, Proper, Handed;
    if ms == [] {
      HandNothing();
    } else {
      var key, v := Key(ms[0].name), ms[0].value;
      CutHands(v);
      MembersHand(ms[1..]);
      HandJoin([key], Sent(v) + SentMembers(ms[1..]));
      HandJoin(Sent(v), SentMembers(ms[1..]));
      HandOne(key);
      var r := CutMembers(ms);
      assert r[0] == Member(Handed(ms[0].name), Cut(v)) && r[1..] == CutMembers(ms[1..]);
      assert forall k :: 1 <= k < |ms| ==> r[k] == r[1..][k - 1];
    }
  }

  lemma HandNothing()
    ensures HandAll([]) == []
  {
  }

  lemma SameHands(a: seq<Event>, b: seq<Event>)
    requires SameEvents(a, b)
    ensures SameEvents(HandAll(a), HandAll(b))
  {
    hide Handed;
    forall k | 0 <= k < |a|
      ensures SameEvent(Hand(a[k]), Hand(b[k]))
    {
      assert SameEvent(a[k], b[k]);
    }
  }

  // ---------- Bytes that lie on the stack

  /** Bytes have come to lie on the innermost frame, or some were already taken for a frame. */
  predicate Soils(m: seq<bool>, r: Option<seq<bool>>)
    requires m != []
  {
    r.None? || r == Some(m[|m| - 1 := true])
  }

  lemma {:induction false} BracketMarks(m: seq<bool>, first: Event, events: seq<Event>, last: Event)
    requires first.StartArray? || first.StartObject?
    requires last.EndArray? || last.EndObject?
    ensures Marks(m + [false], events) == Some(m + [false]) ==> Marks(m, [first] + events + [last]) == Some(m)
    ensures Soils(m + [false], Marks(m + [false], events)) ==> Marks(m, [first] + events + [last]) == None
  {
    hide Marks;
    MarksJoin(m, [first] + events, [last]);
    MarksJoin(m, [first], events);
    MarksOne(m, first);
    var r := Marks(m + [false], events);
    if r.Some? {
      MarksOne(r.value, last);
      assert (m + [false])[..|m|] == m;
    }
  }

  /** The events of a tree leave no bytes if all its strings are short. Otherwise those of an
      array or object take them for a frame, and those of a string leave them on the last. */
  lemma {:induction false} SentMarks(m: seq<bool>, v: Json)
    requires Proper(v)
    ensures Readable(v) ==> Marks(m, Sent(v)) == Some(m)
    ensures !Readable(v) && !v.JString? ==> Marks(m, Sent(v)) == None
    ensures !Readable(v) && v.JString? ==>
              Marks(m, Sent(v)) == Some(if m == [] then m else m[|m| - 1 := true])
    decreases v, 1
  {
    hide Marks, Soils;
    match v
    case JObject(ms) =>
      MembersMark(m + [false], ms);
      BracketMarks(m, StartObject, SentMembers(ms), EndObject(|ms| % TWO_32));
    case JArray(es) =>
      ElementsMark(m + [false], es);
      BracketMarks(m, StartArray, SentElements(es), EndArray(|es| % TWO_32));
    case _ =>
      MarksOne(m, Sent(v)[0]);
  }

  lemma {:induction false} SentSoils(m: seq<bool>, v: Json, rest: seq<Event>, short: bool)
    requires Proper(v) && m != []
    requires forall m' | m' == m || m' == m[|m| - 1 := true] ::
               if short then Marks(m', rest) == Some(m') else Soils(m', Marks(m', rest))
    ensures Readable(v) && short ==> Marks(m, Sent(v) + rest) == Some(m)
    ensures !Readable(v) || !short ==> Soils(m, Marks(m, Sent(v) + rest))
    decreases v, 2
  {
    hide Marks, Sent, Readable;
    SentMarks(m, v);
    MarksJoin(m, Sent(v), rest);
    var m' := m[|m| - 1 := true];
    assert m'[|m'| - 1 := true] == m';
  }

  lemma {:induction false} ElementsMark(m: seq<bool>, es: seq<Json>)
    requires m != [] && forall k :: 0 <= k < |es| ==> Proper(es[k])
    ensures (forall k :: 0 <= k < |es| ==> Readable(es[k])) ==> Marks(m, SentElements(es)) == Some(m)
    ensures !(forall k :: 0 <= k < |es| ==> Readable(es[k])) ==> Soils(m, Marks(m, SentElements(es)))
    decreases es, 0
  {
    hide Sent, Readable, Soils, Proper;
    if es != [] {
      var rest := es[1..];
      var short := forall k :: 0 <= k < |rest| ==> Readable(rest[k]);
      ElementsMark(m, rest);
      ElementsMark(m[|m| - 1 := true], rest);
      SentSoils(m, es[0], SentElements(rest), short);
      assert forall k :: 1 <= k < |es| ==> es[k] == rest[k - 1];
      assert forall k :: 0 <= k < |rest| ==> rest[k] == es[k + 1];
    }
  }

  lemma {:induction false} MembersMark(m: seq<bool>, ms: seq<Member>)
    requires m != [] && forall k :: 0 <= k < |ms| ==> Proper(ms[k].value)
    ensures (forall k :: 0 <= k < |ms| ==> |ms[k].name| < TWO_32 - 1 && Readable(ms[k].value)) ==>
              Marks(m, SentMembers(ms)) == Some(m)
    ensures !(forall k :: 0 <= k < |ms| ==> |ms[k].name| < TWO_32 - 1 && Readable(ms[k].value)) ==>
              Soils(m, Marks(m, SentMembers(ms)))
    decreases ms, 0
  {
    hide Sent, Readable, Proper;
    if ms != [] {
      var rest, m' := ms[1..], m[|m| - 1 := true];
      var short := forall k :: 0 <= k < |rest| ==> |rest[k].name| < TWO_32 - 1 && Readable(rest[k].value);
      MembersMark(m, rest);
      MembersMark(m', rest);
      assert m'[|m'| - 1 := true] == m';
      hide Soils;
      SentSoils(m, ms[0].value, SentMembers(rest), short);
      SentSoils(m', ms[0].value, SentMembers(rest), short);
      KeyMarks(m, ms[0].name, Sent(ms[0].value) + SentMembers(rest), Readable(ms[0].value) && short);
      assert forall k :: 1 <= k < |ms| ==> ms[k] == rest[k - 1];
      assert forall k :: 0 <= k < |rest| ==> rest[k] == ms[k + 1];
    }
  }

  lemma {:induction false} KeyMarks(m: seq<bool>, name: seq<byte>, rest: seq<Event>, short: bool)
    requires m != []
    requires forall m' | m' == m || m' == m[|m| - 1 := true] ::
               if short then Marks(m', rest) == Some(m') else Soils(m', Marks(m', rest))
    ensures |name| < TWO_32 - 1 && short ==> Marks(m, [Key(name)] + rest) == Some(m)
    ensures |name| >= TWO_32 - 1 || !short ==> Soils(m, Marks(m, [Key(name)] + rest))
  {
    hide Marks;
    MarksJoin(m, [Key(name)], rest);
    MarksOne(m, Key(name));
    var m' := m[|m| - 1 := true];
    assert m'[|m'| - 1 := true] == m';
  }

  lemma {:induction false} SameMarks(m: seq<bool>, a: seq<Event>, b: seq<Event>)
    requires SameEvents(a, b)
    ensures Marks(m, a) == Marks(m, b)
    decreases |a|
  {
    hide LeftOver;
    if a != [] && Mark(m, a[0]).Some? {
      SameMarks(Mark(m, a[0]).value, a[1..], b[1..]);
    }
  }

  /** In the events of a whole tree bytes are taken for a frame exactly if a string or name in
      an array or object is not short. */
  lemma {:induction false} TreeMarks(events: seq<Event>, v: Json)
    requires Proper(v) && SameEvents(events, Sent(v))
    ensures Marks([], events).None? <==> !v.JString? && !Readable(v)
  {
    hide Marks, Sent, Readable, SameEvents;
    SameMarks([], events, Sent(v));
    SentMarks([], v);
  }

  // ---------- What is built

  /** The events of a tree, as they reach the handler, leave one value on any stack and besides
      it all that counts of 32 bits do not take away: nothing exactly if all counts fit, and
      then the value is the tree with its strings cut. */
  lemma {:induction false} BuildsExactly(stack: seq<Json>, events: seq<Event>, v: Json)
    requires Proper(v) && SameEvents(events, Sent(v))
    ensures Climb(|stack|, HandAll(events)) == Some(|stack| + 1 + Lost(v)) && (Lost(v) == 0 <==> Counted(v))
    ensures Counted(v) ==> Valid(Cut(v)) && Build(stack, HandAll(events)) == Some(stack + [Cut(v)])
  {
    hide Build, Climb, Sent, SameEvents, Events, Lost, HandAll, Cut, Counted, Valid, Proper;
    ClimbHanded(|stack|, events);
    ClimbSame(|stack|, events, Sent(v));
    SentClimbs(|stack|, v);
    NothingLost(v);
    if Counted(v) {
      var t := Cut(v);
      CutFits(v);
      CutHands(v);
      SameHands(events, Sent(v));
      ValidIsProper(t);
      SameEventsBuildSame(stack, HandAll(events), Events(t));
      EventsBuild(stack, t);
    }
  }
}
