/** Values and whole texts: what is read is what is spelled, event by event. */
module JsonTexts {
  import opened Words
  import opened JsonText
  import opened JsonEvents
  import opened JsonSyntax
  import opened JsonSpelling
  import opened JsonExact
  import S = JsonString
  import N = JsonNumber
  import G = JsonGrammar
  import R = JsonRoundTrip

  // ---------- Scalars

  /** The first byte tells what kind of value it is. */
  lemma {:induction false} FirstOf(v: Syntax, f: G.Flags)
    requires Valid(v, f)
    ensures |Text(v)| >= 1 && R.StartsValue(Text(v)[0])
    ensures v.Arr? <==> Text(v)[0] == LBRACKET
    ensures v.Obj? <==> Text(v)[0] == LBRACE
    ensures v.Str? <==> Text(v)[0] == QUOTE
    ensures v.Num? ==> Text(v)[0] == MINUS || IsDigit(Text(v)[0])
  {
    hide FractionText, ExponentText, ElementText, ElementsText, MemberText, MembersText, Spells, IsGap, InLimits;
  }

  lemma {:induction false} StringReads(s: seq<byte>, i: nat, text: seq<byte>, bytes: seq<byte>, key: bool)
    requires Spells(text, bytes) && Occurs(s, i, [QUOTE] + (text + [QUOTE]))
    ensures i < |s| && s[i] == QUOTE
    ensures G.StringAt(s, i, key) == G.Ok(i + |text| + 2, [if key then Key(bytes) else String(bytes)])
  {
    hide Spells, S.Decode;
    OccursSplit(s, i, [QUOTE], text + [QUOTE]);
    OccursSplit(s, i + 1, text, [QUOTE]);
    R.FirstByte(s, i, [QUOTE]);
    R.FirstByte(s, i + 1 + |text|, [QUOTE]);
    DecodeIsSpelled(s, i + 1, i + |text| + 2, bytes);
  }

  lemma {:induction false} StringIsSpelled(s: seq<byte>, i: nat, key: bool) returns (text: seq<byte>, bytes: seq<byte>)
    requires i < |s| && s[i] == QUOTE && G.StringAt(s, i, key).Ok?
    ensures Spells(text, bytes) && Occurs(s, i, [QUOTE] + (text + [QUOTE]))
    ensures G.StringAt(s, i, key) == G.Ok(i + |text| + 2, [if key then Key(bytes) else String(bytes)])
  {
    hide Spells, S.Decode, Occurs;
    var d := S.Decode(s, i + 1);
    bytes := d.bytes;
    DecodeIsSpelled(s, i + 1, d.end, bytes);
    text := s[i + 1..d.end - 1];
    OccursByte(s, i);
    OccursHere(s, i + 1, |text|);
    OccursByte(s, d.end - 1);
    OccursJoin(s, i + 1, text, [QUOTE]);
    OccursJoin(s, i, [QUOTE], text + [QUOTE]);
  }

  lemma {:induction false} ScalarReads(s: seq<byte>, f: G.Flags, i: nat, v: Syntax)
    requires Valid(v, f) && !v.Arr? && !v.Obj? && Occurs(s, i, Text(v)) && Stops(v, Peek(s, i + |Text(v)|))
    ensures i <= |s| && G.Scalar(s, i) == G.Ok(i + |Text(v)|, Events(v, f))
  {
    hide Spells, N.NumberAt, NumberText, NumberStops, InLimits, G.StringAt, NumberEvent;
    FirstOf(v, f);
    R.FirstByte(s, i, Text(v));
    match v
    case Word(text, e) => TextHere(s, i, text);
    case Num(m) => NumberReads(s, i, m);
    case Str(text, bytes) => StringReads(s, i, text, bytes, false);
  }

  lemma {:induction false} ScalarSpelled(s: seq<byte>, f: G.Flags, i: nat) returns (v: Syntax)
    requires i <= |s| && Peek(s, i) != LBRACKET && Peek(s, i) != LBRACE && G.Scalar(s, i).Ok?
    ensures Valid(v, f) && !v.Arr? && !v.Obj? && Occurs(s, i, Text(v)) && Stops(v, Peek(s, i + |Text(v)|))
    ensures G.Scalar(s, i) == G.Ok(i + |Text(v)|, Events(v, f))
  {
    hide Spells, N.NumberAt, NumberText, NumberStops, InLimits, G.StringAt, NumberEvent;
    var c := Peek(s, i);
    if c == G.NULL_WORD[0] {
      v := Word(G.NULL_WORD, Null);
    } else if c == G.TRUE_WORD[0] {
      v := Word(G.TRUE_WORD, Bool(true));
    } else if c == G.FALSE_WORD[0] {
      v := Word(G.FALSE_WORD, Bool(false));
    } else if c == QUOTE {
      var text, bytes := StringIsSpelled(s, i, false);
      v := Str(text, bytes);
    } else {
      var m := NumberSpelled(s, i);
      v := Num(m);
    }
  }

  // ---------- What follows a value

  predicate Ends(c: byte) {
    c == COMMA || c == RBRACKET || c == RBRACE
  }

  /** After a value come a gap and something that ends it: the value stops, the gap is skipped. */
  lemma {:induction false} GapEnds(s: seq<byte>, comments: bool, p: nat, gap: seq<byte>, rest: seq<byte>, v: Syntax)
    requires Occurs(s, p, gap + rest) && IsGap(gap, comments) && rest != [] && Ends(rest[0])
    ensures p <= |s| && Stops(v, Peek(s, p)) && Skip(s, comments, p) == Some(p + |gap|)
    ensures Occurs(s, p + |gap|, rest) && Peek(s, p + |gap|) == rest[0]
  {
    hide Skip, Occurs;
    OccursSplit(s, p, gap, rest);
    R.FirstByte(s, p + |gap|, rest);
    GapReads(s, comments, p, gap);
    if gap != [] {
      GapStarts(gap, comments);
      R.FirstByte(s, p, gap);
    }
    OccursIn(s, p, gap);
  }

  lemma OccursIn(s: seq<byte>, p: nat, t: seq<byte>)
    requires Occurs(s, p, t)
    ensures p + |t| <= |s|
  {
  }

  lemma {:induction false} GapStarts(gap: seq<byte>, comments: bool)
    requires IsGap(gap, comments) && gap != []
    ensures IsSpace(gap[0]) || gap[0] == SLASH
  {
    var n := GapParts(gap, comments);
  }

  /** A gap before something that is neither white space nor a slash. */
  lemma {:induction false} GapBefore(s: seq<byte>, comments: bool, p: nat, gap: seq<byte>, rest: seq<byte>)
    requires Occurs(s, p, gap + rest) && IsGap(gap, comments) && rest != [] && !IsSpace(rest[0]) && rest[0] != SLASH
    ensures p <= |s| && Skip(s, comments, p) == Some(p + |gap|)
    ensures Occurs(s, p + |gap|, rest) && Peek(s, p + |gap|) == rest[0] && p + |gap| < |s|
  {
    hide Skip, Occurs;
    OccursSplit(s, p, gap, rest);
    R.FirstByte(s, p + |gap|, rest);
    GapReads(s, comments, p, gap);
    OccursIn(s, p, gap);
  }

  // ---------- Arrays

  ghost predicate ValidElements(es: seq<Element>, f: G.Flags) {
    forall k :: 0 <= k < |es| ==>
                  IsGap(es[k].lead, f.comments) && Valid(es[k].value, f) && IsGap(es[k].after, f.comments)
  }

  /** Elements after one, with the end of the array. */
  ghost predicate ValidRest(n: nat, comma: bool, end: seq<byte>, f: G.Flags) {
    n > 0 && ValidEnd(n, comma, end, f) && IsGap(end, f.comments)
  }

  lemma {:induction false} RestStarts(es: seq<Element>, comma: bool, end: seq<byte>, f: G.Flags)
    requires ValidRest(1, comma, end, f)
    ensures ElementsText(es, comma, end) != [] && Ends(ElementsText(es, comma, end)[0])
    ensures ElementsText(es, comma, end)[0] == COMMA <==> es != [] || comma
  {
    hide ElementText;
  }

  /** The text of an element from its value on, and the rest of the array. */
  function FromValue(e: Element, es: seq<Element>, comma: bool, end: seq<byte>): seq<byte> {
    Text(e.value) + (e.after + ElementsText(es, comma, end))
  }

  lemma NextCount(n: nat, k: nat)
    requires n < TWO_32
    ensures G.Next(n) < TWO_32 && (G.Next(n) + k) % TWO_32 == (n + 1 + k) % TWO_32
  {
  }

  lemma {:induction false} ElementReads(s: seq<byte>, f: G.Flags, i: nat, e: Element, es: seq<Element>, comma: bool,
                                        end: seq<byte>, n: nat)
    requires ValidElements([e] + es, f) && ValidRest(1, comma, end, f) && n < TWO_32
    requires Occurs(s, i, FromValue(e, es, comma, end))
    ensures ([e] + es)[0] == e && ([e] + es)[1..] == es && i <= |s|
    ensures G.Element(s, f, i, n)
            == G.Ok(i + |FromValue(e, es, comma, end)|,
                    ElementEvents([e] + es, f) + [EndArray((n + 1 + |es|) % TWO_32)])
    decreases [e] + es, 5
  {
    hide Skip, G.Value, G.Element, G.AfterElement, G.AfterElementComma, Occurs, IsGap, Valid, Text, Events,
      ElementsText, ValidEnd, Stops;
    var all := [e] + es;
    assert all[0] == e && all[1..] == es && Valid(e.value, f) && IsGap(e.after, f.comments);
    assert ValidElements(es, f) by { forall k | 0 <= k < |es| ensures es[k] == all[k + 1] {} }
    var rest := ElementsText(es, comma, end);
    var p := i + |Text(e.value)|;
    OccursSplit(s, i, Text(e.value), e.after + rest);
    RestStarts(es, comma, end, f);
    GapEnds(s, f.comments, p, e.after, rest, e.value);
    OccursIn(s, i, Text(e.value));
    ValueReads(s, f, i, e.value);
    G.UnfoldElement(s, f, i, n);
    NextCount(n, |es|);
    RestReads(s, f, p + |e.after|, es, comma, end, G.Next(n));
    assert ElementEvents(all, f) + [EndArray((n + 1 + |es|) % TWO_32)]
        == Events(e.value, f) + (ElementEvents(es, f) + [EndArray((n + 1 + |es|) % TWO_32)]);
  }

  lemma {:induction false} RestReads(s: seq<byte>, f: G.Flags, i: nat, es: seq<Element>, comma: bool, end: seq<byte>,
                                     n: nat)
    requires ValidElements(es, f) && ValidRest(1, comma, end, f) && n < TWO_32
    requires Occurs(s, i, ElementsText(es, comma, end))
    ensures i <= |s|
    ensures G.AfterElement(s, f, i, n)
            == G.Ok(i + |ElementsText(es, comma, end)|, ElementEvents(es, f) + [EndArray((n + |es|) % TWO_32)])
    decreases es, 6
  {
    hide Skip, G.Value, G.Element, G.AfterElement, G.AfterElementComma, Occurs, IsGap, Valid, Text, Events;
    var t := ElementsText(es, comma, end);
    RestStarts(es, comma, end, f);
    R.FirstByte(s, i, t);
    OccursIn(s, i, t);
    G.UnfoldAfterElement(s, f, i, n);
    if es != [] {
      var e, rest := es[0], es[1..];
      assert es == [e] + rest;
      var after := FromValue(e, rest, comma, end);
      assert t == [COMMA] + (e.lead + after);
      OccursSplit(s, i, [COMMA], e.lead + after);
      FirstOf(e.value, f);
      GapBefore(s, f.comments, i + 1, e.lead, after);
      G.UnfoldAfterElementComma(s, f, i + 1 + |e.lead|, n);
      ElementReads(s, f, i + 1 + |e.lead|, e, rest, comma, end, n);
    } else if comma {
      assert t == [COMMA] + (end + [RBRACKET]);
      OccursSplit(s, i, [COMMA], end + [RBRACKET]);
      GapBefore(s, f.comments, i + 1, end, [RBRACKET]);
      G.UnfoldAfterElementComma(s, f, i + 1 + |end|, n);
      assert [] + [EndArray(n)] == [EndArray(n)];
    } else {
      assert t == [RBRACKET];
      assert [] + [EndArray(n)] == [EndArray(n)];
    }
  }

  lemma {:induction false} ArrayParts(es: seq<Element>, comma: bool, end: seq<byte>, f: G.Flags)
    requires Valid(Arr(es, comma, end), f)
    ensures ValidElements(es, f) && ValidEnd(|es|, comma, end, f) && IsGap(end, f.comments)
    ensures Text(Arr(es, comma, end))
            == [LBRACKET] + if es == [] then end + [RBRACKET]
                            else es[0].lead + FromValue(es[0], es[1..], comma, end)
    ensures Events(Arr(es, comma, end), f) == [StartArray] + (ElementEvents(es, f) + [EndArray(|es| % TWO_32)])
  {
    hide IsGap, ElementsText, ElementEvents;
    if es != [] {
      var e, rest := es[0], ElementsText(es[1..], comma, end);
      assert ElementText(e) + rest == e.lead + FromValue(e, es[1..], comma, end);
    }
  }

  lemma {:induction false} ArrayReads(s: seq<byte>, f: G.Flags, i: nat, es: seq<Element>, comma: bool, end: seq<byte>)
    requires Valid(Arr(es, comma, end), f) && Occurs(s, i, Text(Arr(es, comma, end)))
    ensures i <= |s|
    ensures G.Value(s, f, i) == G.Ok(i + |Text(Arr(es, comma, end))|, Events(Arr(es, comma, end), f))
    decreases es, 7
  {
    hide Skip, G.Value, G.Element, G.ArrayOpened, Occurs, IsGap, ElementEvents, Text, Events, FromValue, Valid;
    ArrayParts(es, comma, end, f);
    if es == [] {
      EmptyArrayReads(s, f, i, end);
      NoElementEvents(f);
    } else {
      assert es == [es[0]] + es[1..];
      FullArrayReads(s, f, i, es[0], es[1..], comma, end);
    }
  }

  lemma {:induction false} FullArrayReads(s: seq<byte>, f: G.Flags, i: nat, e: Element, es: seq<Element>, comma: bool,
                                          end: seq<byte>)
    requires ValidElements([e] + es, f) && ValidRest(1, comma, end, f)
    requires Occurs(s, i, [LBRACKET] + (e.lead + FromValue(e, es, comma, end)))
    ensures ([e] + es)[0] == e && i <= |s|
    ensures G.Value(s, f, i)
            == G.Ok(i + 1 + |e.lead| + |FromValue(e, es, comma, end)|,
                    [StartArray] + (ElementEvents([e] + es, f) + [EndArray((1 + |es|) % TWO_32)]))
    decreases [e] + es, 6
  {
    hide Skip, G.Value, G.Element, G.ArrayOpened, Occurs, IsGap, ElementEvents, FromValue, Valid;
    var after := FromValue(e, es, comma, end);
    assert ([e] + es)[0] == e;
    R.FirstByte(s, i, [LBRACKET] + (e.lead + after));
    OccursSplit(s, i, [LBRACKET], e.lead + after);
    FromValueStarts(e, es, comma, end, f);
    GapBefore(s, f.comments, i + 1, e.lead, after);
    G.UnfoldArray(s, f, i);
    G.UnfoldArrayOpened(s, f, i + 1 + |e.lead|);
    ElementReads(s, f, i + 1 + |e.lead|, e, es, comma, end, 0);
  }

  lemma {:induction false} EmptyArrayReads(s: seq<byte>, f: G.Flags, i: nat, end: seq<byte>)
    requires IsGap(end, f.comments) && Occurs(s, i, [LBRACKET] + (end + [RBRACKET]))
    ensures i <= |s| && G.Value(s, f, i) == G.Ok(i + |end| + 2, [StartArray] + [EndArray(0)])
  {
    hide Skip, G.Value, G.Element, G.ArrayOpened, Occurs, IsGap;
    R.FirstByte(s, i, [LBRACKET] + (end + [RBRACKET]));
    OccursSplit(s, i, [LBRACKET], end + [RBRACKET]);
    GapBefore(s, f.comments, i + 1, end, [RBRACKET]);
    G.UnfoldArray(s, f, i);
    G.UnfoldArrayOpened(s, f, i + 1 + |end|);
  }

  lemma {:induction false} FromValueStarts(e: Element, es: seq<Element>, comma: bool, end: seq<byte>, f: G.Flags)
    requires Valid(e.value, f)
    ensures FromValue(e, es, comma, end) != [] && R.StartsValue(FromValue(e, es, comma, end)[0])
  {
    hide Text, Valid;
    FirstOf(e.value, f);
  }

  lemma {:induction false} NoElementEvents(f: G.Flags)
    ensures ElementEvents([], f) + [EndArray(0)] == [EndArray(0)]
  {
  }

  // ---------- Objects

  ghost predicate ValidMembers(ms: seq<Member>, f: G.Flags) {
    forall k :: 0 <= k < |ms| ==>
                  && IsGap(ms[k].lead, f.comments) && Spells(ms[k].name, ms[k].key)
                  && IsGap(ms[k].colon, f.comments) && IsGap(ms[k].gap, f.comments)
                  && Valid(ms[k].value, f) && IsGap(ms[k].after, f.comments)
  }

  function Quoted(name: seq<byte>): seq<byte> {
    [QUOTE] + (name + [QUOTE])
  }

  function FromMemberValue(m: Member, ms: seq<Member>, comma: bool, end: seq<byte>): seq<byte> {
    Text(m.value) + (m.after + MembersText(ms, comma, end))
  }

  /** The text of a member from its name on, and the rest of the object. */
  function FromName(m: Member, ms: seq<Member>, comma: bool, end: seq<byte>): seq<byte> {
    Quoted(m.name) + (m.colon + ([COLON] + (m.gap + FromMemberValue(m, ms, comma, end))))
  }

  lemma {:induction false} MemberFromName(m: Member, ms: seq<Member>, comma: bool, end: seq<byte>)
    ensures MemberText(m) + MembersText(ms, comma, end) == m.lead + FromName(m, ms, comma, end)
  {
    hide Text, MembersText;
    var rest := MembersText(ms, comma, end);
    assert MemberText(m) + rest == m.lead + FromName(m, ms, comma, end);
  }

  lemma {:induction false} MembersStart(ms: seq<Member>, comma: bool, end: seq<byte>, f: G.Flags)
    requires ValidRest(1, comma, end, f)
    ensures MembersText(ms, comma, end) != [] && Ends(MembersText(ms, comma, end)[0])
    ensures MembersText(ms, comma, end)[0] == COMMA <==> ms != [] || comma
  {
    hide MemberText;
  }

  lemma {:induction false} NameReads(s: seq<byte>, f: G.Flags, i: nat, m: Member, ms: seq<Member>, comma: bool,
                                     end: seq<byte>, n: nat)
    requires ValidMembers([m] + ms, f) && ValidRest(1, comma, end, f) && n < TWO_32
    requires Occurs(s, i, FromName(m, ms, comma, end))
    ensures ([m] + ms)[0] == m && ([m] + ms)[1..] == ms && i <= |s|
    ensures G.Name(s, f, i, n)
            == G.Ok(i + |FromName(m, ms, comma, end)|,
                    MemberEvents([m] + ms, f) + [EndObject((n + 1 + |ms|) % TWO_32)])
    decreases [m] + ms, 6
  {
    hide Skip, G.Name, G.AfterName, G.MemberValue, G.StringAt, Occurs, IsGap, Valid, Spells, Events, FromMemberValue,
      ValidEnd;
    var all := [m] + ms;
    assert all[0] == m && all[1..] == ms;
    assert Spells(m.name, m.key) && IsGap(m.colon, f.comments) && IsGap(m.gap, f.comments) && Valid(m.value, f);
    var p := i + |Quoted(m.name)|;
    var after := FromMemberValue(m, ms, comma, end);
    OccursSplit(s, i, Quoted(m.name), m.colon + ([COLON] + (m.gap + after)));
    StringReads(s, i, m.name, m.key, true);
    GapBefore(s, f.comments, p, m.colon, [COLON] + (m.gap + after));
    var q := p + |m.colon|;
    OccursSplit(s, q, [COLON], m.gap + after);
    FromMemberValueStarts(m, ms, comma, end, f);
    GapBefore(s, f.comments, q + 1, m.gap, after);
    G.UnfoldName(s, f, i, n);
    G.UnfoldAfterName(s, f, q, n);
    MemberValueReads(s, f, q + 1 + |m.gap|, m, ms, comma, end, n);
    var last := [EndObject((n + 1 + |ms|) % TWO_32)];
    assert MemberEvents(all, f) + last == [Key(m.key)] + (Events(m.value, f) + (MemberEvents(ms, f) + last));
  }

  lemma {:induction false} FromMemberValueStarts(m: Member, ms: seq<Member>, comma: bool, end: seq<byte>, f: G.Flags)
    requires Valid(m.value, f)
    ensures FromMemberValue(m, ms, comma, end) != [] && R.StartsValue(FromMemberValue(m, ms, comma, end)[0])
  {
    hide Text, Valid;
    FirstOf(m.value, f);
  }

  lemma {:induction false} MemberValueReads(s: seq<byte>, f: G.Flags, i: nat, m: Member, ms: seq<Member>, comma: bool,
                                            end: seq<byte>, n: nat)
    requires ValidMembers([m] + ms, f) && ValidRest(1, comma, end, f) && n < TWO_32
    requires Occurs(s, i, FromMemberValue(m, ms, comma, end))
    ensures ([m] + ms)[0] == m && ([m] + ms)[1..] == ms && i <= |s|
    ensures Valid(m.value, f) && ValidMembers(ms, f)
    ensures G.MemberValue(s, f, i, n)
            == G.Ok(i + |FromMemberValue(m, ms, comma, end)|,
                    Events(m.value, f) + (MemberEvents(ms, f) + [EndObject((n + 1 + |ms|) % TWO_32)]))
    decreases [m] + ms, 5
  {
    hide Skip, G.Value, G.MemberValue, G.AfterMember, G.AfterMemberComma, Occurs, IsGap, Valid, Text, Events,
      MembersText, ValidEnd, Stops, Spells;
    var all := [m] + ms;
    assert all[0] == m && all[1..] == ms && Valid(m.value, f) && IsGap(m.after, f.comments);
    assert ValidMembers(ms, f) by { forall k | 0 <= k < |ms| ensures ms[k] == all[k + 1] {} }
    var rest := MembersText(ms, comma, end);
    var p := i + |Text(m.value)|;
    OccursSplit(s, i, Text(m.value), m.after + rest);
    MembersStart(ms, comma, end, f);
    GapEnds(s, f.comments, p, m.after, rest, m.value);
    OccursIn(s, i, Text(m.value));
    ValueReads(s, f, i, m.value);
    G.UnfoldMemberValue(s, f, i, n);
    NextCount(n, |ms|);
    MembersRead(s, f, p + |m.after|, ms, comma, end, G.Next(n));
  }

  lemma {:induction false} MembersRead(s: seq<byte>, f: G.Flags, i: nat, ms: seq<Member>, comma: bool, end: seq<byte>,
                                       n: nat)
    requires ValidMembers(ms, f) && ValidRest(1, comma, end, f) && n < TWO_32
    requires Occurs(s, i, MembersText(ms, comma, end))
    ensures i <= |s|
    ensures G.AfterMember(s, f, i, n)
            == G.Ok(i + |MembersText(ms, comma, end)|, MemberEvents(ms, f) + [EndObject((n + |ms|) % TWO_32)])
    decreases ms, 7
  {
    hide Skip, G.Value, G.Name, G.AfterMember, G.AfterMemberComma, Occurs, IsGap, Valid, Text, Events, MemberText,
      Spells, FromName;
    var t := MembersText(ms, comma, end);
    MembersStart(ms, comma, end, f);
    R.FirstByte(s, i, t);
    OccursIn(s, i, t);
    G.UnfoldAfterMember(s, f, i, n);
    if ms != [] {
      var m, rest := ms[0], ms[1..];
      assert ms == [m] + rest;
      var after := FromName(m, rest, comma, end);
      MemberFromName(m, rest, comma, end);
      OccursSplit(s, i, [COMMA], m.lead + after);
      FromNameStarts(m, rest, comma, end);
      GapBefore(s, f.comments, i + 1, m.lead, after);
      G.UnfoldAfterMemberComma(s, f, i + 1 + |m.lead|, n);
      NameReads(s, f, i + 1 + |m.lead|, m, rest, comma, end, n);
    } else if comma {
      assert t == [COMMA] + (end + [RBRACE]);
      OccursSplit(s, i, [COMMA], end + [RBRACE]);
      GapBefore(s, f.comments, i + 1, end, [RBRACE]);
      G.UnfoldAfterMemberComma(s, f, i + 1 + |end|, n);
      assert [] + [EndObject(n)] == [EndObject(n)];
    } else {
      assert t == [RBRACE];
      assert [] + [EndObject(n)] == [EndObject(n)];
    }
  }

  lemma FromNameStarts(m: Member, ms: seq<Member>, comma: bool, end: seq<byte>)
    ensures FromName(m, ms, comma, end) != [] && FromName(m, ms, comma, end)[0] == QUOTE
  {
    hide FromMemberValue;
  }

  lemma {:induction false} ObjectParts(ms: seq<Member>, comma: bool, end: seq<byte>, f: G.Flags)
    requires Valid(Obj(ms, comma, end), f)
    ensures ValidMembers(ms, f) && ValidEnd(|ms|, comma, end, f) && IsGap(end, f.comments)
    ensures Text(Obj(ms, comma, end))
            == [LBRACE] + if ms == [] then end + [RBRACE] else ms[0].lead + FromName(ms[0], ms[1..], comma, end)
    ensures Events(Obj(ms, comma, end), f) == [StartObject] + (MemberEvents(ms, f) + [EndObject(|ms| % TWO_32)])
  {
    hide IsGap, MembersText, MemberEvents, MemberText, FromName, Spells;
    if ms != [] {
      MemberFromName(ms[0], ms[1..], comma, end);
    }
  }

  lemma {:induction false} ObjectReads(s: seq<byte>, f: G.Flags, i: nat, ms: seq<Member>, comma: bool, end: seq<byte>)
    requires Valid(Obj(ms, comma, end), f) && Occurs(s, i, Text(Obj(ms, comma, end)))
    ensures i <= |s|
    ensures G.Value(s, f, i) == G.Ok(i + |Text(Obj(ms, comma, end))|, Events(Obj(ms, comma, end), f))
    decreases ms, 8
  {
    hide Skip, G.Value, G.Name, G.ObjectOpened, Occurs, IsGap, MemberEvents, Text, Events, FromName, Spells, Valid;
    ObjectParts(ms, comma, end, f);
    if ms == [] {
      EmptyObjectReads(s, f, i, end);
      NoMemberEvents(f);
    } else {
      assert ms == [ms[0]] + ms[1..];
      FullObjectReads(s, f, i, ms[0], ms[1..], comma, end);
    }
  }

  lemma {:induction false} FullObjectReads(s: seq<byte>, f: G.Flags, i: nat, m: Member, ms: seq<Member>, comma: bool,
                                           end: seq<byte>)
    requires ValidMembers([m] + ms, f) && ValidRest(1, comma, end, f)
    requires Occurs(s, i, [LBRACE] + (m.lead + FromName(m, ms, comma, end)))
    ensures ([m] + ms)[0] == m && i <= |s|
    ensures G.Value(s, f, i)
            == G.Ok(i + 1 + |m.lead| + |FromName(m, ms, comma, end)|,
                    [StartObject] + (MemberEvents([m] + ms, f) + [EndObject((1 + |ms|) % TWO_32)]))
    decreases [m] + ms, 7
  {
    hide Skip, G.Value, G.Name, G.ObjectOpened, Occurs, IsGap, MemberEvents, FromName, Valid, Spells;
    var after := FromName(m, ms, comma, end);
    assert ([m] + ms)[0] == m;
    R.FirstByte(s, i, [LBRACE] + (m.lead + after));
    OccursSplit(s, i, [LBRACE], m.lead + after);
    FromNameStarts(m, ms, comma, end);
    GapBefore(s, f.comments, i + 1, m.lead, after);
    G.UnfoldObject(s, f, i);
    G.UnfoldObjectOpened(s, f, i + 1 + |m.lead|);
    NameReads(s, f, i + 1 + |m.lead|, m, ms, comma, end, 0);
  }

  lemma {:induction false} EmptyObjectReads(s: seq<byte>, f: G.Flags, i: nat, end: seq<byte>)
    requires IsGap(end, f.comments) && Occurs(s, i, [LBRACE] + (end + [RBRACE]))
    ensures i <= |s| && G.Value(s, f, i) == G.Ok(i + |end| + 2, [StartObject] + [EndObject(0)])
  {
    hide Skip, G.Value, G.Name, G.ObjectOpened, Occurs, IsGap;
    R.FirstByte(s, i, [LBRACE] + (end + [RBRACE]));
    OccursSplit(s, i, [LBRACE], end + [RBRACE]);
    GapBefore(s, f.comments, i + 1, end, [RBRACE]);
    G.UnfoldObject(s, f, i);
    G.UnfoldObjectOpened(s, f, i + 1 + |end|);
  }

  lemma {:induction false} NoMemberEvents(f: G.Flags)
    ensures MemberEvents([], f) + [EndObject(0)] == [EndObject(0)]
  {
  }

  // ---------- Values

  /** Every value is read from its text. */
  lemma {:induction false} ValueReads(s: seq<byte>, f: G.Flags, i: nat, v: Syntax)
    requires Valid(v, f) && Occurs(s, i, Text(v)) && Stops(v, Peek(s, i + |Text(v)|))
    ensures i <= |s| && G.Value(s, f, i) == G.Ok(i + |Text(v)|, Events(v, f))
    decreases v, 9
  {
    hide G.Value, G.Scalar, Occurs, Events, Text;
    match v
    case Arr(es, comma, end) => ArrayReads(s, f, i, es, comma, end);
    case Obj(ms, comma, end) => ObjectReads(s, f, i, ms, comma, end);
    case _ =>
      ScalarReads(s, f, i, v);
      FirstOf(v, f);
      R.FirstByte(s, i, Text(v));
      G.UnfoldScalar(s, f, i);
  }

  // ---------- What is read is spelled

  /** What is skipped before a byte that is not the end is a gap. */
  lemma {:induction false} GapSpelled(s: seq<byte>, comments: bool, i: nat)
    requires i <= |s| && Skip(s, comments, i).Some? && Peek(s, Skip(s, comments, i).value) != 0
    ensures var j := Skip(s, comments, i).value; i <= j < |s| && IsGap(s[i..j], comments) && Occurs(s, i, s[i..j])
  {
    hide IsTail, IsGap;
    SkipSpelled(s, comments, i);
    var j := Skip(s, comments, i).value;
    OccursHere(s, i, j - i);
  }

  lemma {:induction false} ElementSpelled(s: seq<byte>, f: G.Flags, i: nat, n: nat)
    returns (e: Element, es: seq<Element>, comma: bool, end: seq<byte>)
    requires i <= |s| && G.Element(s, f, i, n).Ok?
    ensures ValidElements([e] + es, f) && ValidRest(1, comma, end, f) && e.lead == []
    ensures Occurs(s, i, FromValue(e, es, comma, end))
    decreases |s| - i, 2
  {
    hide Skip, G.Value, G.Element, G.AfterElement, G.AfterElementComma, Occurs, Valid, Text, Events, ElementsText,
      ValidEnd, Stops, IsTail, ValidRest;
    G.UnfoldElement(s, f, i, n);
    var v := ValueSpelled(s, f, i);
    var p := G.Value(s, f, i).pos;
    var j := Skip(s, f.comments, p).value;
    AfterElementByte(s, f, j, G.Next(n));
    GapSpelled(s, f.comments, p);
    es, comma, end := RestSpelled(s, f, j, G.Next(n));
    e := Element([], v, s[p..j]);
    assert IsGap([], f.comments);
    assert forall k :: 1 <= k < |[e] + es| ==> ([e] + es)[k] == es[k - 1];
    OccursJoin(s, p, e.after, ElementsText(es, comma, end));
    OccursJoin(s, i, Text(v), e.after + ElementsText(es, comma, end));
  }

  lemma {:induction false} AfterElementByte(s: seq<byte>, f: G.Flags, i: nat, n: nat)
    requires i <= |s| && G.AfterElement(s, f, i, n).Ok?
    ensures Peek(s, i) == COMMA || Peek(s, i) == RBRACKET
  {
    hide G.AfterElementComma, Skip;
    G.UnfoldAfterElement(s, f, i, n);
  }

  lemma {:induction false} RestSpelled(s: seq<byte>, f: G.Flags, i: nat, n: nat)
    returns (es: seq<Element>, comma: bool, end: seq<byte>)
    requires i <= |s| && G.AfterElement(s, f, i, n).Ok?
    ensures ValidElements(es, f) && ValidRest(1, comma, end, f) && Occurs(s, i, ElementsText(es, comma, end))
    decreases |s| - i, 0
  {
    hide Skip, G.Element, G.AfterElement, G.AfterElementComma, Occurs, Valid, FromValue, IsTail;
    G.UnfoldAfterElement(s, f, i, n);
    OccursByte(s, i);
    es, comma, end := [], false, [];
    if Peek(s, i) == COMMA {
      var j := Skip(s, f.comments, i + 1).value;
      G.UnfoldAfterElementComma(s, f, j, n);
      if f.trailingCommas && Peek(s, j) == RBRACKET {
        comma, end := true, s[i + 1..j];
        EndSpelled(s, f.comments, i, RBRACKET);
      } else {
        var e, rest;
        e, rest, comma, end := ElementSpelled(s, f, j, n);
        es := LeadSpelled(s, f, i, e, rest, comma, end);
      }
    } else {
      assert ElementsText([], false, []) == [RBRACKET];
    }
  }

  /** A comma, a gap and a closing bracket. */
  lemma {:induction false} EndSpelled(s: seq<byte>, comments: bool, i: nat, close: byte)
    requires i < |s| && Skip(s, comments, i + 1).Some? && close != 0
    requires Peek(s, Skip(s, comments, i + 1).value) == close
    ensures var j := Skip(s, comments, i + 1).value;
            IsGap(s[i + 1..j], comments) && Occurs(s, i, [s[i]] + (s[i + 1..j] + [close]))
  {
    hide Skip, Occurs, IsGap;
    var j := Skip(s, comments, i + 1).value;
    GapSpelled(s, comments, i + 1);
    OccursByte(s, i);
    OccursByte(s, j);
    OccursJoin(s, i + 1, s[i + 1..j], [close]);
    OccursJoin(s, i, [s[i]], s[i + 1..j] + [close]);
  }

  /** A comma or bracket, a gap and an element, and what follows. */
  lemma {:induction false} LeadSpelled(s: seq<byte>, f: G.Flags, i: nat, e: Element, rest: seq<Element>, comma: bool,
                                       end: seq<byte>)
    returns (es: seq<Element>)
    requires i < |s| && Skip(s, f.comments, i + 1).Some?
    requires ValidElements([e] + rest, f) && e.lead == []
    requires Occurs(s, Skip(s, f.comments, i + 1).value, FromValue(e, rest, comma, end))
    ensures ValidElements(es, f) && es != [] && es[1..] == rest
    ensures Occurs(s, i, [s[i]] + (ElementText(es[0]) + ElementsText(rest, comma, end)))
  {
    hide Skip, Occurs, IsGap, Valid, Text, ElementsText;
    var j := Skip(s, f.comments, i + 1).value;
    assert ([e] + rest)[0] == e && Valid(e.value, f) && IsGap(e.after, f.comments);
    assert ValidElements(rest, f) by { forall k | 0 <= k < |rest| ensures rest[k] == ([e] + rest)[k + 1] {} }
    FromValueStarts(e, rest, comma, end, f);
    R.FirstByte(s, j, FromValue(e, rest, comma, end));
    GapSpelled(s, f.comments, i + 1);
    var e' := e.(lead := s[i + 1..j]);
    es := [e'] + rest;
    assert forall k :: 1 <= k < |es| ==> es[k] == rest[k - 1];
    OccursByte(s, i);
    OccursJoin(s, i + 1, e'.lead, FromValue(e, rest, comma, end));
    OccursJoin(s, i, [s[i]], e'.lead + FromValue(e, rest, comma, end));
    assert e'.lead + FromValue(e, rest, comma, end) == ElementText(e') + ElementsText(rest, comma, end);
  }

  lemma {:induction false} ArraySpelled(s: seq<byte>, f: G.Flags, i: nat) returns (v: Syntax)
    requires i < |s| && s[i] == LBRACKET && G.Value(s, f, i).Ok?
    ensures Valid(v, f) && v.Arr? && Occurs(s, i, Text(v))
    decreases |s| - i, 0
  {
    hide Skip, G.Value, G.Element, G.ArrayOpened, Occurs, IsGap, IsTail, FromValue;
    G.UnfoldArray(s, f, i);
    var j := Skip(s, f.comments, i + 1).value;
    G.UnfoldArrayOpened(s, f, j);
    if Peek(s, j) == RBRACKET {
      EndSpelled(s, f.comments, i, RBRACKET);
      v := Arr([], false, s[i + 1..j]);
    } else {
      hide Text, ElementText, ElementsText, Valid;
      var e, rest, comma, end := ElementSpelled(s, f, j, 0);
      var es := LeadSpelled(s, f, i, e, rest, comma, end);
      v := Arr(es, comma, end);
      ArrayIsValid(es, comma, end, f);
    }
  }

  lemma {:induction false} ArrayIsValid(es: seq<Element>, comma: bool, end: seq<byte>, f: G.Flags)
    requires es != [] && ValidElements(es, f) && ValidRest(1, comma, end, f)
    ensures Valid(Arr(es, comma, end), f)
    ensures Text(Arr(es, comma, end)) == [LBRACKET] + (ElementText(es[0]) + ElementsText(es[1..], comma, end))
  {
    hide IsGap, ElementText, ElementsText;
  }

  lemma {:induction false} NameSpelled(s: seq<byte>, f: G.Flags, i: nat, n: nat)
    returns (m: Member, ms: seq<Member>, comma: bool, end: seq<byte>)
    requires i <= |s| && G.Name(s, f, i, n).Ok?
    ensures ValidMembers([m] + ms, f) && ValidRest(1, comma, end, f) && m.lead == []
    ensures Occurs(s, i, FromName(m, ms, comma, end))
    decreases |s| - i, 2
  {
    hide Skip, G.Value, G.Name, G.AfterName, G.MemberValue, G.StringAt, Occurs, Valid, IsTail, ValidRest,
      FromMemberValue, Spells;
    G.UnfoldName(s, f, i, n);
    var name, key := StringIsSpelled(s, i, true);
    var p := i + |name| + 2;
    var q := Skip(s, f.comments, p).value;
    G.UnfoldAfterName(s, f, q, n);
    GapSpelled(s, f.comments, p);
    var j := Skip(s, f.comments, q + 1).value;
    m, ms, comma, end := MemberValueSpelled(s, f, j, n);
    MemberGap(s, f, q, m, ms, comma, end);
    m := m.(name := name, key := key, colon := s[p..q], gap := s[q + 1..j]);
    assert forall k :: 1 <= k < |[m] + ms| ==> ([m] + ms)[k] == ms[k - 1];
    OccursJoin(s, p, m.colon, [COLON] + (m.gap + FromMemberValue(m, ms, comma, end)));
    OccursJoin(s, i, Quoted(name), m.colon + ([COLON] + (m.gap + FromMemberValue(m, ms, comma, end))));
  }

  /** A colon, a gap and the value of a member, and what follows. */
  lemma {:induction false} MemberGap(s: seq<byte>, f: G.Flags, q: nat, m: Member, ms: seq<Member>, comma: bool,
                                     end: seq<byte>)
    requires q < |s| && s[q] == COLON && Skip(s, f.comments, q + 1).Some?
    requires Valid(m.value, f) && Occurs(s, Skip(s, f.comments, q + 1).value, FromMemberValue(m, ms, comma, end))
    ensures var j := Skip(s, f.comments, q + 1).value;
            var m' := m.(gap := s[q + 1..j]);
            && IsGap(m'.gap, f.comments)
            && Occurs(s, q, [COLON] + (m'.gap + FromMemberValue(m, ms, comma, end)))
            && forall name, key, colon ::
                 FromMemberValue(m'.(name := name, key := key, colon := colon), ms, comma, end)
                 == FromMemberValue(m, ms, comma, end)
  {
    hide Skip, Occurs, IsGap, Valid, Text, MembersText;
    var j := Skip(s, f.comments, q + 1).value;
    FromMemberValueStarts(m, ms, comma, end, f);
    R.FirstByte(s, j, FromMemberValue(m, ms, comma, end));
    GapSpelled(s, f.comments, q + 1);
    OccursByte(s, q);
    OccursJoin(s, q + 1, s[q + 1..j], FromMemberValue(m, ms, comma, end));
    OccursJoin(s, q, [COLON], s[q + 1..j] + FromMemberValue(m, ms, comma, end));
  }

  lemma {:induction false} MemberValueSpelled(s: seq<byte>, f: G.Flags, i: nat, n: nat)
    returns (m: Member, ms: seq<Member>, comma: bool, end: seq<byte>)
    requires i <= |s| && G.MemberValue(s, f, i, n).Ok?
    ensures ValidMembers(ms, f) && ValidRest(1, comma, end, f) && m.lead == []
    ensures Valid(m.value, f) && IsGap(m.after, f.comments) && IsGap(m.lead, f.comments)
    ensures Occurs(s, i, FromMemberValue(m, ms, comma, end))
    decreases |s| - i, 2
  {
    hide Skip, G.Value, G.MemberValue, G.AfterMember, G.AfterMemberComma, Occurs, Valid, Text, Events, MembersText,
      ValidEnd, Stops, IsTail, ValidRest, Spells;
    G.UnfoldMemberValue(s, f, i, n);
    var v := ValueSpelled(s, f, i);
    var p := G.Value(s, f, i).pos;
    var j := Skip(s, f.comments, p).value;
    AfterMemberByte(s, f, j, G.Next(n));
    GapSpelled(s, f.comments, p);
    ms, comma, end := MembersSpelled(s, f, j, G.Next(n));
    m := Member([], [], [], [], [], v, s[p..j]);
    OccursJoin(s, p, m.after, MembersText(ms, comma, end));
    OccursJoin(s, i, Text(v), m.after + MembersText(ms, comma, end));
  }

  lemma {:induction false} AfterMemberByte(s: seq<byte>, f: G.Flags, i: nat, n: nat)
    requires i <= |s| && G.AfterMember(s, f, i, n).Ok?
    ensures Peek(s, i) == COMMA || Peek(s, i) == RBRACE
  {
    hide G.AfterMemberComma, Skip;
    G.UnfoldAfterMember(s, f, i, n);
  }

  lemma {:induction false} MembersSpelled(s: seq<byte>, f: G.Flags, i: nat, n: nat)
    returns (ms: seq<Member>, comma: bool, end: seq<byte>)
    requires i <= |s| && G.AfterMember(s, f, i, n).Ok?
    ensures ValidMembers(ms, f) && ValidRest(1, comma, end, f) && Occurs(s, i, MembersText(ms, comma, end))
    decreases |s| - i, 0
  {
    hide Skip, G.Name, G.AfterMember, G.AfterMemberComma, Occurs, Valid, FromName, IsTail, Spells, MemberText;
    G.UnfoldAfterMember(s, f, i, n);
    OccursByte(s, i);
    ms, comma, end := [], false, [];
    if Peek(s, i) == COMMA {
      var j := Skip(s, f.comments, i + 1).value;
      G.UnfoldAfterMemberComma(s, f, j, n);
      if f.trailingCommas && Peek(s, j) == RBRACE {
        comma, end := true, s[i + 1..j];
        EndSpelled(s, f.comments, i, RBRACE);
      } else {
        var m, rest;
        m, rest, comma, end := NameSpelled(s, f, j, n);
        ms := MemberLeadSpelled(s, f, i, m, rest, comma, end);
      }
    } else {
      assert MembersText([], false, []) == [RBRACE];
    }
  }

  /** A comma or brace, a gap and a member, and what follows. */
  lemma {:induction false} MemberLeadSpelled(s: seq<byte>, f: G.Flags, i: nat, m: Member, rest: seq<Member>,
                                             comma: bool,
                                             end: seq<byte>)
    returns (ms: seq<Member>)
    requires i < |s| && Skip(s, f.comments, i + 1).Some?
    requires ValidMembers([m] + rest, f) && m.lead == []
    requires Occurs(s, Skip(s, f.comments, i + 1).value, FromName(m, rest, comma, end))
    ensures ValidMembers(ms, f) && ms != [] && ms[1..] == rest
    ensures Occurs(s, i, [s[i]] + (MemberText(ms[0]) + MembersText(rest, comma, end)))
  {
    hide Skip, Occurs, IsGap, Valid, Text, MembersText, Spells, MemberText, FromMemberValue;
    var j := Skip(s, f.comments, i + 1).value;
    assert ([m] + rest)[0] == m;
    assert ValidMembers(rest, f) by { forall k | 0 <= k < |rest| ensures rest[k] == ([m] + rest)[k + 1] {} }
    FromNameStarts(m, rest, comma, end);
    R.FirstByte(s, j, FromName(m, rest, comma, end));
    GapSpelled(s, f.comments, i + 1);
    var m' := m.(lead := s[i + 1..j]);
    ms := [m'] + rest;
    assert forall k :: 1 <= k < |ms| ==> ms[k] == rest[k - 1];
    OccursByte(s, i);
    OccursJoin(s, i + 1, m'.lead, FromName(m, rest, comma, end));
    OccursJoin(s, i, [s[i]], m'.lead + FromName(m, rest, comma, end));
    LeadIsFree(m, m'.lead, rest, comma, end);
    MemberFromName(m', rest, comma, end);
  }

  lemma LeadIsFree(m: Member, lead: seq<byte>, ms: seq<Member>, comma: bool, end: seq<byte>)
    ensures FromName(m.(lead := lead), ms, comma, end) == FromName(m, ms, comma, end)
  {
    hide Text, MembersText;
  }

  lemma {:induction false} ObjectSpelled(s: seq<byte>, f: G.Flags, i: nat) returns (v: Syntax)
    requires i < |s| && s[i] == LBRACE && G.Value(s, f, i).Ok?
    ensures Valid(v, f) && v.Obj? && Occurs(s, i, Text(v))
    decreases |s| - i, 0
  {
    hide Skip, G.Value, G.Name, G.ObjectOpened, Occurs, IsGap, IsTail, FromName, Spells;
    G.UnfoldObject(s, f, i);
    var j := Skip(s, f.comments, i + 1).value;
    G.UnfoldObjectOpened(s, f, j);
    if Peek(s, j) == RBRACE {
      EndSpelled(s, f.comments, i, RBRACE);
      v := Obj([], false, s[i + 1..j]);
    } else {
      hide Text, MemberText, MembersText, Valid;
      var m, rest, comma, end := NameSpelled(s, f, j, 0);
      var ms := MemberLeadSpelled(s, f, i, m, rest, comma, end);
      v := Obj(ms, comma, end);
      ObjectIsValid(ms, comma, end, f);
    }
  }

  lemma {:induction false} ObjectIsValid(ms: seq<Member>, comma: bool, end: seq<byte>, f: G.Flags)
    requires ms != [] && ValidMembers(ms, f) && ValidRest(1, comma, end, f)
    ensures Valid(Obj(ms, comma, end), f)
    ensures Text(Obj(ms, comma, end)) == [LBRACE] + (MemberText(ms[0]) + MembersText(ms[1..], comma, end))
  {
    hide IsGap, MemberText, MembersText, Spells;
  }

  /** Every value that is read is the text of a syntax tree, read to its end. */
  lemma {:induction false} ValueSpelled(s: seq<byte>, f: G.Flags, i: nat) returns (v: Syntax)
    requires i <= |s| && G.Value(s, f, i).Ok?
    ensures Valid(v, f) && Occurs(s, i, Text(v)) && Stops(v, Peek(s, i + |Text(v)|))
    ensures G.Value(s, f, i) == G.Ok(i + |Text(v)|, Events(v, f))
    decreases |s| - i, 1
  {
    hide Skip, G.Value, G.Scalar, Occurs, Valid, Text, Events;
    if Peek(s, i) == LBRACKET {
      v := ArraySpelled(s, f, i);
    } else if Peek(s, i) == LBRACE {
      v := ObjectSpelled(s, f, i);
    } else {
      G.UnfoldScalar(s, f, i);
      v := ScalarSpelled(s, f, i);
    }
    ValueReads(s, f, i, v);
  }

  // ---------- Whole texts

  /** A text is accepted, up to a place and with some events, exactly if up to that place it is
      the text of a syntax tree with these events, between gaps that the flags allow. */
  lemma {:induction false} AcceptedIsSpelled(s: seq<byte>, f: G.Flags, pos: nat, events: seq<Event>)
    ensures G.Document(s, f) == G.Ok(pos, events) <==> exists w :: IsText(s, f, pos, w) && Events(w.root, f) == events
  {
    hide G.Document, Events, Text, IsGap, IsTail, Valid, Stops;
    if G.Document(s, f) == G.Ok(pos, events) {
      var w := WholeSpelled(s, f);
    }
    if exists w :: IsText(s, f, pos, w) && Events(w.root, f) == events {
      var w :| IsText(s, f, pos, w) && Events(w.root, f) == events;
      WholeReads(s, f, pos, w);
    }
  }

  lemma {:induction false} WholeReads(s: seq<byte>, f: G.Flags, pos: nat, w: Whole)
    requires IsText(s, f, pos, w)
    ensures G.Document(s, f) == G.Ok(pos, Events(w.root, f))
  {
    hide Skip, G.Value, Occurs, Valid, Text, Events, IsTail, IsGap, Stops;
    var i, j := |w.lead|, |w.lead| + |Text(w.root)|;
    PrefixOccurs(s, pos, w.lead + (Text(w.root) + w.tail));
    OccursSplit(s, 0, w.lead, Text(w.root) + w.tail);
    OccursSplit(s, i, Text(w.root), w.tail);
    FirstOf(w.root, f);
    R.FirstByte(s, i, Text(w.root));
    GapBefore(s, f.comments, 0, w.lead, Text(w.root) + w.tail) by {
      PrefixOccurs(s, pos, w.lead + (Text(w.root) + w.tail));
    }
    ValueReads(s, f, i, w.root);
    assert Events(w.root, f) + [] == Events(w.root, f);
    if !f.stopWhenDone {
      TailReads(s, f.comments, j, w.tail);
    }
  }

  lemma PrefixOccurs(s: seq<byte>, pos: nat, t: seq<byte>)
    requires pos <= |s| && s[..pos] == t
    ensures Occurs(s, 0, t) && |t| == pos
  {
  }

  lemma {:induction false} WholeSpelled(s: seq<byte>, f: G.Flags) returns (w: Whole)
    requires G.Document(s, f).Ok?
    ensures IsText(s, f, G.Document(s, f).pos, w) && Events(w.root, f) == G.Document(s, f).events
  {
    hide Skip, G.Value, Valid, Text, Events, IsTail, IsGap, Stops, Occurs;
    var i := Skip(s, f.comments, 0).value;
    GapSpelled(s, f.comments, 0);
    var v := ValueSpelled(s, f, i);
    var j, pos := i + |Text(v)|, G.Document(s, f).pos;
    if !f.stopWhenDone {
      SkipSpelled(s, f.comments, j);
    }
    w := Whole(s[0..i], v, s[j..pos]);
    TextHere(s, i, Text(v));
    assert s[..pos] == s[0..i] + (s[i..j] + s[j..pos]);
    assert Events(v, f) + [] == Events(v, f);
  }
}
