/** The writers and the document as the objects they are: handlers that events change
    in place, and the walk over a value that feeds them. */
module JsonHandlers {
  import opened Words
  import opened JsonText
  import opened JsonEvents
  import opened JsonDocument
  import opened JsonRoundTrip
  import W = JsonWriter
  import G = JsonGrammar
  import L = JsonLengths
  import C = JsonCounts
  import opened JsonBuffer
  import JsonLoad
  import JsonReader

  /** `Writer`, and `PrettyWriter` where the style is pretty. */
  class Writer {
    const style: W.Style
    const os: StringBuffer
    var levels: seq<W.Level>
    var hasRoot: bool

    constructor (style: W.Style, os: StringBuffer)
      ensures this.style == style && this.os == os && View() == W.State(os.data, [], false)
    {
      this.style, this.os := style, os;
      levels, hasRoot := [], false;
    }

    ghost function View(): W.State
      reads this, os
    {
      W.State(os.data, levels, hasRoot)
    }

    /** `WriteIndent`. */
    method WriteIndent()
      requires style.Pretty?
      modifies os`data, os`capacity
      ensures os.data == old(os.data) + W.Repeat(style.indentChar, |levels| * style.indentCount)
    {
      os.PutN(style.indentChar, |levels| * style.indentCount);
    }

    method NewLine()
      requires style.Pretty?
      modifies os`data, os`capacity
      ensures os.data == old(os.data) + W.Line(style, |levels|)
    {
      os.Put(NEWLINE);
      WriteIndent();
    }

    /** What `Prefix` puts before a value that is not the root. */
    method PutSeparator(level: W.Level)
      requires style.Compact?
      modifies os`data, os`capacity
      ensures os.data == old(os.data) + W.Separator(style, level, |levels|)
    {
      if level.valueCount > 0 {
        os.Put(if level.inArray || level.valueCount % 2 == 0 then COMMA else COLON);
      }
    }

    /** What `PrettyPrefix` puts before an element. */
    method PutPrettyElement(level: W.Level)
      requires style.Pretty? && level.inArray
      modifies os`data, os`capacity
      ensures os.data == old(os.data) + W.Separator(style, level, |levels|)
    {
      hide W.Line;
      if level.valueCount > 0 {
        os.Put(COMMA);
        if style.singleLineArrays {
          os.Put(0x20);
        }
      }
      if !style.singleLineArrays {
        NewLine();
      }
    }

    /** What `PrettyPrefix` puts before a name or the value of a member. */
    method PutPrettyMember(level: W.Level)
      requires style.Pretty? && !level.inArray
      modifies os`data, os`capacity
      ensures os.data == old(os.data) + W.Separator(style, level, |levels|)
    {
      if level.valueCount > 0 {
        if level.valueCount % 2 == 0 {
          os.Put(COMMA);
          os.Put(NEWLINE);
        } else {
          os.Put(COLON);
          os.Put(0x20);
        }
      } else {
        os.Put(NEWLINE);
      }
      if level.valueCount % 2 == 0 {
        WriteIndent();
      }
    }

    /** `Prefix` and `PrettyPrefix`; their assertions are what they demand. */
    method Prefix(isString: bool)
      requires W.Prefix(style, View(), isString).Some?
      modifies this, os`data, os`capacity
      ensures W.Prefix(style, old(View()), isString) == Some(View())
    {
      hide W.Separator;
      if |levels| != 0 {
        var n := |levels| - 1;
        var level := levels[n];
        if style.Compact? {
          PutSeparator(level);
        } else if level.inArray {
          PutPrettyElement(level);
        } else {
          PutPrettyMember(level);
        }
        levels := levels[n := level.(valueCount := level.valueCount + 1)];
      } else {
        hasRoot := true;
      }
    }

    /** `WriteString`, to a target that supports Unicode. There is room for what is put exactly
        if the capacity says so, and in any case if what is reserved did not wrap. */
    method WriteString(str: seq<byte>)
      modifies os
      ensures os.data == old(os.data) + W.Quoted(str)
      ensures os.capacity == Expanded(old(os.capacity), |old(os.data)|, W.Reserved(|str|, W.UNICODE_FACTOR))
      ensures os.short <==> old(os.short) || |os.data| > os.capacity
      ensures W.Fits(|str|, W.UNICODE_FACTOR) ==> os.short == old(os.short)
    {
      hide W.Escaped, W.EscapedByte, W.Reserved, W.Fits, Expanded;
      os.Reserve(W.Reserved(|str|, W.UNICODE_FACTOR));
      os.PutUnsafe(QUOTE);
      ghost var start := os.data;
      assert str[0..] == str;
      var i := 0;
      while i < |str|
        invariant 0 <= i <= |str| && os.data + W.Escaped(str[i..]) == start + W.Escaped(str)
        invariant os.short <==> old(os.short) || |os.data| > os.capacity
        invariant os.capacity == Expanded(old(os.capacity), |old(os.data)|, W.Reserved(|str|, W.UNICODE_FACTOR))
      {
        EscapedStep(os.data, str, i);
        PutEscaped(os, str[i]);
        i := i + 1;
      }
      NothingEscaped(os.data, str[i..]);
      os.PutUnsafe(QUOTE);
      QuotedParts(old(os.data), str);
      if W.Fits(|str|, W.UNICODE_FACTOR) {
        RoomIsEnough(old(os.capacity), |old(os.data)|, str);
      }
    }

    /** An event that is neither a start nor an end. */
    method Scalar(e: Event)
      requires W.ScalarText(e).Some? && W.Prefix(style, View(), e.String? || e.Key?).Some?
      modifies this, os
      ensures W.Write(style, old(View()), e) == Some(View())
      ensures (L.IsText(e) ==> W.Fits(|L.TextOf(e)|, W.UNICODE_FACTOR)) ==> os.short == old(os.short)
    {
      hide W.Quoted, W.IntegerText;
      Prefix(e.String? || e.Key?);
      if e.String? {
        WriteString(e.str);
      } else if e.Key? {
        WriteString(e.name);
      } else {
        os.PutText(W.ScalarText(e).value);
      }
    }

    /** `StartObject` and `StartArray`. */
    method Open(inArray: bool)
      requires W.Prefix(style, View(), false).Some?
      modifies this, os`data, os`capacity
      ensures W.Write(style, old(View()), if inArray then StartArray else StartObject) == Some(View())
      ensures View() == W.Inside(style, old(View()), inArray)
    {
      hide W.Prefix;
      Prefix(false);
      levels := levels + [W.Level(inArray, 0)];
      os.Put(if inArray then LBRACKET else LBRACE);
    }

    /** `EndObject` and `EndArray`; their assertions are what they demand. */
    method Close(inArray: bool)
      requires |levels| > 0 && levels[|levels| - 1].inArray == inArray
      modifies this, os`data, os`capacity
      ensures W.Close(style, old(View()), inArray) == Some(View())
    {
      hide W.Line;
      assert os.data + [] == os.data;
      var n := |levels| - 1;
      var empty := levels[n].valueCount == 0;
      levels := levels[..n];
      if style.Pretty? && !empty && !(inArray && style.singleLineArrays) {
        NewLine();
      }
      os.Put(if inArray then RBRACKET else RBRACE);
    }

    /** `Accept`, walking a value with this writer as the handler: the separator due and
        the text of the value are written, and no assertion on levels fails; nor does one on
        room, if there is room for every string. */
    method Accept(v: Json)
      requires Printable(v) && W.Prefix(style, View(), v.JString?).Some?
      modifies this, os
      ensures W.Written(style, old(View()), v) == Some(View())
      ensures W.Roomy(v) ==> os.short == old(os.short)
      decreases v, 1
    {
      hide W.Write, W.WriteAll, W.Text, W.Prefix;
      if v.JObject? {
        AcceptObject(v.members);
      } else if v.JArray? {
        AcceptArray(v.elements);
      } else {
        var e := if v.JNull? then Null
                 else if v.JBool? then Bool(v.b)
                 else if v.JString? then String(v.s)
                 else NumberEvent(v.n);
        W.ScalarWrites(style, View(), v);
        W.WriteOne(style, View(), e);
        Scalar(e);
      }
    }

    method AcceptArray(es: seq<Json>)
      requires Printable(JArray(es)) && W.Prefix(style, View(), false).Some?
      modifies this, os
      ensures W.Written(style, old(View()), JArray(es)) == Some(View())
      ensures W.Roomy(JArray(es)) ==> os.short == old(os.short)
      decreases es, 2
    {
      hide W.Write, W.WriteAll, W.Written, W.Prefix, Valid, NoDoubles, ElementEvents, W.Inside;
      PrintableElements(es);
      Open(true);
      ghost var w1 := View();
      assert es[0..] == es;
      var k := 0;
      while k < |es|
        invariant 0 <= k <= |es| && levels != [] && levels[|levels| - 1].inArray
        invariant W.WriteAll(style, View(), ElementEvents(es[k..])) == W.WriteAll(style, w1, ElementEvents(es))
        invariant W.Roomy(JArray(es)) ==> os.short == old(os.short)
      {
        ghost var w := View();
        PrefixInside(style, w, es[k].JString?);
        Accept(es[k]);
        ElementStep(style, w, View(), es, k);
        k := k + 1;
      }
      ghost var w2 := View();
      Close(true);
      ArrayWritten(style, old(View()), w1, w2, View(), es);
    }

    method AcceptObject(ms: seq<Member>)
      requires Printable(JObject(ms)) && W.Prefix(style, View(), false).Some?
      modifies this, os
      ensures W.Written(style, old(View()), JObject(ms)) == Some(View())
      ensures W.Roomy(JObject(ms)) ==> os.short == old(os.short)
      decreases ms, 2
    {
      hide W.Write, W.WriteAll, W.Written, W.Prefix, Valid, NoDoubles, MemberEvents, W.Inside;
      PrintableMembers(ms);
      Open(false);
      ghost var w1 := View();
      assert ms[0..] == ms;
      var k := 0;
      while k < |ms|
        invariant 0 <= k <= |ms| && AtName(View())
        invariant W.WriteAll(style, View(), MemberEvents(ms[k..])) == W.WriteAll(style, w1, MemberEvents(ms))
        invariant W.Roomy(JObject(ms)) ==> os.short == old(os.short)
      {
        ghost var w := View();
        PrefixAtName(style, w);
        Scalar(Key(ms[k].name));
        ghost var w' := View();
        AfterKey(style, w, w', ms[k].name, ms[k].value.JString?);
        Accept(ms[k].value);
        MemberStep(style, w, w', View(), ms, k);
        k := k + 1;
      }
      ghost var w2 := View();
      Close(false);
      ObjectWritten(style, old(View()), w1, w2, View(), ms);
    }
  }

  // ---------- Steps of the walk over a value

  lemma {:induction false} PrintableElements(es: seq<Json>)
    requires Printable(JArray(es))
    ensures forall k :: 0 <= k < |es| ==> Valid(es[k]) && NoDoubles(es[k])
  {
  }

  lemma {:induction false} PrintableMembers(ms: seq<Member>)
    requires Printable(JObject(ms))
    ensures forall k :: 0 <= k < |ms| ==> Valid(ms[k].value) && NoDoubles(ms[k].value)
  {
  }

  lemma PrefixInside(style: W.Style, w: W.State, isString: bool)
    requires w.levels != [] && w.levels[|w.levels| - 1].inArray
    ensures W.Prefix(style, w, isString).Some?
  {
  }

  /** Inside an object, where a name is due. */
  predicate AtName(w: W.State) {
    w.levels != [] && !w.levels[|w.levels| - 1].inArray && w.levels[|w.levels| - 1].valueCount % 2 == 0
  }

  lemma PrefixAtName(style: W.Style, w: W.State)
    requires AtName(w)
    ensures W.Prefix(style, w, true).Some?
  {
  }

  lemma {:induction false} ElementStep(style: W.Style, w: W.State, w': W.State, es: seq<Json>, k: nat)
    requires k < |es| && w.levels != [] && w.levels[|w.levels| - 1].inArray
    requires forall i :: 0 <= i < |es| ==> Valid(es[i]) && NoDoubles(es[i])
    requires W.Written(style, w, es[k]) == Some(w')
    ensures w'.levels != [] && w'.levels[|w'.levels| - 1].inArray
    ensures W.WriteAll(style, w, ElementEvents(es[k..])) == W.WriteAll(style, w', ElementEvents(es[k + 1..]))
  {
    hide W.Write, W.WriteAll, W.Text, W.Separator, Events, Valid, NoDoubles, ElementEvents;
    var rest := es[k..];
    ElementEventsFirst(rest);
    assert rest[1..] == es[k + 1..];
    W.WriteSplit(style, w, Events(es[k]), ElementEvents(es[k + 1..]));
    W.ValueWrites(style, w, es[k]);
  }

  lemma {:induction false} AfterKey(style: W.Style, w: W.State, w': W.State, name: seq<byte>, isString: bool)
    requires AtName(w) && W.Write(style, w, Key(name)) == Some(w')
    ensures W.Prefix(style, w', isString).Some?
    ensures |w'.levels| == |w.levels| && !w'.levels[|w'.levels| - 1].inArray
            && w'.levels[|w'.levels| - 1].valueCount % 2 == 1
  {
    hide W.Separator, W.Quoted;
  }

  lemma {:induction false} MemberStep(style: W.Style, w: W.State, w': W.State, w'': W.State, ms: seq<Member>, k: nat)
    requires k < |ms| && AtName(w) && W.Write(style, w, Key(ms[k].name)) == Some(w')
    requires forall i :: 0 <= i < |ms| ==> Valid(ms[i].value) && NoDoubles(ms[i].value)
    requires W.Prefix(style, w', ms[k].value.JString?).Some? && W.Written(style, w', ms[k].value) == Some(w'')
    ensures AtName(w'')
    ensures W.WriteAll(style, w, MemberEvents(ms[k..])) == W.WriteAll(style, w'', MemberEvents(ms[k + 1..]))
  {
    hide W.Write, W.WriteAll, W.Text, W.Separator, Events, Valid, NoDoubles, MemberEvents;
    var rest, key, v := ms[k..], Key(ms[k].name), ms[k].value;
    MemberEventsFirst(rest);
    assert rest[1..] == ms[k + 1..];
    AfterKey(style, w, w', ms[k].name, v.JString?);
    W.WriteSplit(style, w, [key], Events(v) + MemberEvents(ms[k + 1..]));
    W.WriteOne(style, w, key);
    W.WriteSplit(style, w', Events(v), MemberEvents(ms[k + 1..]));
    W.ValueWrites(style, w', v);
  }

  lemma {:induction false} ArrayWritten(style: W.Style, w0: W.State, w1: W.State, w2: W.State, w3: W.State,
                                        es: seq<Json>)
    requires Printable(JArray(es)) && W.Prefix(style, w0, false).Some? && W.Write(style, w0, StartArray) == Some(w1)
    requires W.WriteAll(style, w2, ElementEvents(es[|es|..])) == W.WriteAll(style, w1, ElementEvents(es))
    requires W.Close(style, w2, true) == Some(w3)
    ensures W.Written(style, w0, JArray(es)) == Some(w3)
  {
    hide W.Prefix, W.Text, W.Close, W.Written;
    var events, last := ElementEvents(es), EndArray(|es|);
    W.ValueWrites(style, w0, JArray(es));
    W.WriteSplit(style, w0, [StartArray] + events, [last]);
    W.WriteSplit(style, w0, [StartArray], events);
    W.WriteOne(style, w0, StartArray);
    W.WriteOne(style, w2, last);
  }

  lemma {:induction false} ObjectWritten(style: W.Style, w0: W.State, w1: W.State, w2: W.State, w3: W.State,
                                         ms: seq<Member>)
    requires Printable(JObject(ms)) && W.Prefix(style, w0, false).Some? && W.Write(style, w0, StartObject) == Some(w1)
    requires W.WriteAll(style, w2, MemberEvents(ms[|ms|..])) == W.WriteAll(style, w1, MemberEvents(ms))
    requires W.Close(style, w2, false) == Some(w3)
    ensures W.Written(style, w0, JObject(ms)) == Some(w3)
  {
    hide W.Prefix, W.Text, W.Close, W.Written;
    var events, last := MemberEvents(ms), EndObject(|ms|);
    W.ValueWrites(style, w0, JObject(ms));
    W.WriteSplit(style, w0, [StartObject] + events, [last]);
    W.WriteSplit(style, w0, [StartObject], events);
    W.WriteOne(style, w0, StartObject);
    W.WriteOne(style, w2, last);
  }

  lemma {:induction false} EscapedStep(a: seq<byte>, s: seq<byte>, i: nat)
    requires i < |s|
    ensures a + W.Escaped(s[i..]) == a + W.EscapedByte(s[i]) + W.Escaped(s[i + 1..])
  {
    hide W.EscapedByte;
    assert s[i..][1..] == s[i + 1..];
  }

  lemma {:induction false} NothingEscaped(a: seq<byte>, s: seq<byte>)
    requires s == []
    ensures a + W.Escaped(s) == a
  {
  }

  lemma {:induction false} RoomIsEnough(capacity: nat, size: nat, str: seq<byte>)
    requires W.Fits(|str|, W.UNICODE_FACTOR)
    ensures size + |W.Quoted(str)| <= Expanded(capacity, size, W.Reserved(|str|, W.UNICODE_FACTOR))
  {
    hide W.Escaped;
    W.EscapedSize(str);
  }

  lemma {:induction false} QuotedParts(a: seq<byte>, s: seq<byte>)
    ensures a + [QUOTE] + W.Escaped(s) + [QUOTE] == a + W.Quoted(s)
  {
    hide W.Escaped;
  }

  // ---------- The document

  /** `GenericDocument` as a handler: a stack of the values built so far. */
  class Document {
    var stack: seq<Json>

    constructor ()
      ensures stack == []
    {
      stack := [];
    }

    method Push(v: Json)
      modifies this
      ensures stack == old(stack) + [v]
    {
      stack := stack + [v];
    }

    method Pop() returns (v: Json)
      requires |stack| > 0
      modifies this
      ensures old(stack) == stack + [v] && v == old(stack)[|old(stack)| - 1]
    {
      v := stack[|stack| - 1];
      stack := stack[..|stack| - 1];
    }

    method EndArray(n: nat)
      requires n < |stack|
      modifies this
      ensures Apply(old(stack), JsonEvents.EndArray(n)) == Some(stack)
    {
      var top := |stack| - n;
      var elements := stack[top..];
      stack := stack[..top];
      assert stack[..top - 1] == old(stack)[..top - 1];
      stack := stack[..top - 1] + [JArray(elements)];
    }

    method EndObject(n: nat)
      requires 2 * n < |stack| && Paired(stack[|stack| - 2 * n..]).Some?
      modifies this
      ensures Apply(old(stack), JsonEvents.EndObject(n)) == Some(stack)
    {
      var top := |stack| - 2 * n;
      var members := Paired(stack[top..]).value;
      stack := stack[..top];
      assert stack[..top - 1] == old(stack)[..top - 1];
      stack := stack[..top - 1] + [JObject(members)];
    }

    /** The handler's method for an event. */
    method Handle(e: Event)
      requires Apply(stack, e).Some?
      modifies this
      ensures Apply(old(stack), e) == Some(stack)
    {
      match e {
        case Null => Push(JNull);
        case Bool(b) => Push(JBool(b));
        case Int(i) => Push(JNumber(FromInt(i)));
        case Uint(u) => Push(JNumber(FromUint(u)));
        case Int64(i) => Push(JNumber(FromInt64(i)));
        case Uint64(u) => Push(JNumber(FromUint64(u)));
        case Double(t) => Push(JDouble(t));
        case String(s) => Push(JString(s));
        case Key(s) => Push(JString(s));
        case StartObject => Push(JObject([]));
        case StartArray => Push(JArray([]));
        case EndObject(n) => EndObject(n);
        case EndArray(n) => EndArray(n);
      }
    }

    /** The events of a reader, in order, up to one that does not find what it needs. */
    method HandleAll(events: seq<Event>) returns (ok: bool)
      modifies this
      ensures ok == Build(old(stack), events).Some?
      ensures ok ==> Build(old(stack), events) == Some(stack)
    {
      hide Apply;
      assert events[0..] == events;
      var k := 0;
      while k < |events|
        invariant 0 <= k <= |events| && Build(stack, events[k..]) == Build(old(stack), events)
      {
        BuildFirst(stack, events[k..]);
        assert events[k..][1..] == events[k + 1..];
        if Apply(stack, events[k]).None? {
          return false;
        }
        Handle(events[k]);
        k := k + 1;
      }
      ok := true;
    }

    /** `Accept` with a document as the handler: on any stack, one value equal to the
        one walked is pushed, and nothing below it is touched. */
    method Accept(v: Json)
      requires Valid(v)
      modifies this
      ensures stack == old(stack) + [v]
      decreases v, 1
    {
      if v.JObject? {
        AcceptObject(v.members);
      } else if v.JArray? {
        AcceptArray(v.elements);
      } else {
        var e := if v.JNull? then Null
                 else if v.JBool? then Bool(v.b)
                 else if v.JString? then String(v.s)
                 else if v.JDouble? then Double(v.text)
                 else NumberEvent(v.n);
        EventsBuild(stack, v);
        BuildOne(stack, e);
        Handle(e);
      }
    }

    method AcceptArray(es: seq<Json>)
      requires Valid(JArray(es))
      modifies this
      ensures stack == old(stack) + [JArray(es)]
      decreases es, 2
    {
      Push(JArray([]));
      var k := 0;
      while k < |es|
        invariant 0 <= k <= |es| && stack == old(stack) + [JArray([])] + es[..k]
      {
        Accept(es[k]);
        k := k + 1;
      }
      EndArray(|es|);
      assert es[..k] == es;
      CloseArray(old(stack), es);
      BuildOne(old(stack) + [JArray([])] + es, JsonEvents.EndArray(|es|));
    }

    method AcceptObject(ms: seq<Member>)
      requires Valid(JObject(ms))
      modifies this
      ensures stack == old(stack) + [JObject(ms)]
      decreases ms, 2
    {
      hide Paired, Flat;
      Push(JObject([]));
      FlatNothing(ms);
      var k := 0;
      while k < |ms|
        invariant 0 <= k <= |ms| && stack == old(stack) + [JObject([])] + Flat(ms[..k])
      {
        Push(JString(ms[k].name));
        Accept(ms[k].value);
        FlatNext(ms, k);
        k := k + 1;
      }
      assert ms[..k] == ms;
      PairedFlat(ms);
      assert stack[|stack| - 2 * |ms|..] == Flat(ms);
      EndObject(|ms|);
      CloseObject(old(stack), ms);
      BuildOne(old(stack) + [JObject([])] + Flat(ms), JsonEvents.EndObject(|ms|));
    }
  }

  lemma {:induction false} BuildFirst(stack: seq<Json>, events: seq<Event>)
    requires events != []
    ensures Build(stack, events) == match Apply(stack, events[0])
                                    case None => None
                                    case Some(st) => Build(st, events[1..])
  {
    hide Apply;
  }

  lemma FlatNothing(ms: seq<Member>)
    ensures Flat(ms[..0]) == [] && Flat([]) == []
  {
  }

  lemma {:induction false} FlatJoin(a: seq<Member>, b: seq<Member>)
    ensures Flat(a + b) == Flat(a) + Flat(b)
    decreases |a|
  {
    hide Flat;
    if a == [] {
      assert a + b == b;
      FlatNothing(a);
    } else {
      FlatJoin(a[1..], b);
      assert (a + b)[1..] == a[1..] + b;
      FlatFirst(a);
      FlatFirst(a + b);
    }
  }

  lemma {:induction false} FlatFirst(ms: seq<Member>)
    requires ms != []
    ensures Flat(ms) == [JString(ms[0].name), ms[0].value] + Flat(ms[1..])
  {
  }

  lemma {:induction false} FlatNext(ms: seq<Member>, k: nat)
    requires k < |ms|
    ensures Flat(ms[..k + 1]) == Flat(ms[..k]) + [JString(ms[k].name)] + [ms[k].value]
  {
    assert ms[..k + 1] == ms[..k] + [ms[k]];
    FlatJoin(ms[..k], [ms[k]]);
    assert [ms[k]][1..] == [];
    assert Flat([ms[k]]) == [JString(ms[k].name)] + [ms[k].value];
  }

  /** The copy constructor of a value: arrays and objects are walked into a document,
      the rest is copied as it is. */
  method DeepCopy(v: Json) returns (copy: Json)
    requires Valid(v)
    ensures copy == v
  {
    if v.JObject? || v.JArray? {
      var d := new Document();
      d.Accept(v);
      copy := d.Pop();
    } else {
      copy := v;
    }
  }

  /** What a document is after a text was parsed into it: the root; what it was, if the text
      was not accepted; at the assertion that there is one root, which does not hold; or
      nothing is known, since the reader was lost. */
  datatype Loaded = Root(value: Json) | NotAccepted | NotOneRoot | Unknown

  /** What comes of events that have reached the document. */
  function LoadedFrom(o: JsonReader.Outcome): Loaded {
    match o
    case Undefined => Unknown
    case Rejected(_) => NotAccepted
    case Accepted(_, events) =>
      match Build([], events)
      case None => NotOneRoot
      case Some(st) => if |st| == 1 then Root(st[0]) else NotOneRoot
  }

  /** What becomes of an accepted text with these events, which are those of the tree. */
  function LoadedTree(insitu: bool, iterative: bool, events: seq<Event>, tree: Json): Loaded {
    if JsonReader.Strays(insitu, iterative, events) then Unknown
    else if C.Counted(tree) then Root(C.Cut(tree))
    else NotOneRoot
  }

  /** `ParseStream` of a document, in place or not, with either way of parsing. An accepted
      text, which is that of a tree, gives a root exactly if the reader can hand out every
      string and no array or object has 2^32 elements or members; and that tree exactly if,
      besides, no string has 2^32 bytes. A text that is not accepted never gives a root. */
  method ParseDocument(text: seq<byte>, flags: G.Flags, insitu: bool, iterative: bool)
    returns (l: Loaded, ghost o: JsonReader.Outcome, ghost tree: Json)
    ensures JsonReader.Reports(text, flags, insitu, iterative, o) && l == LoadedFrom(o)
    ensures G.Document(text, flags).Ok? ==>
              var events := G.Document(text, flags).events;
              && JsonLoad.EventsOf(events, tree)
              && l == LoadedTree(insitu, iterative, events, tree)
              && (l == Root(tree) <==>
                    !JsonReader.Strays(insitu, iterative, events) && C.Counted(tree) && C.StringsFit(tree))
    ensures G.Document(text, flags).Error? ==>
              l == if JsonReader.Strays(insitu, iterative, G.Document(text, flags).events) then Unknown else NotAccepted
    ensures |text| < TWO_32 ==> l.Root? == G.Document(text, flags).Ok? && (l.Root? ==> l.value == tree && Valid(tree))
  {
    hide G.Document, Build, JsonReader.Reports, JsonLoad.EventsOf, LoadedTree, JsonReader.Strays;
    var buf := JsonReader.ToBuffer(text);
    var out, places := JsonReader.ParseBuffer(buf, flags, insitu, iterative);
    o, tree := out, JNull;
    if G.Document(text, flags).Ok? {
      tree := AcceptedTextLoads(text, flags, insitu, iterative, out);
    } else {
      RejectedTextLoads(text, flags, insitu, iterative, out);
    }
    if out.Undefined? {
      return Unknown, o, tree;
    }
    var d := new Document();
    var ok := d.HandleAll(out.events);
    if out.Rejected? {
      return NotAccepted, o, tree;
    }
    if !ok || |d.stack| != 1 {
      return NotOneRoot, o, tree;
    }
    var v := d.Pop();
    l := Root(v);
  }

  /** What an accepted text gives with each kind of reader. It is not one root exactly if some
      count has wrapped: the stack is then higher than one, by what such counts do not take. */
  lemma AcceptedTextLoads(text: seq<byte>, flags: G.Flags, insitu: bool, iterative: bool, o: JsonReader.Outcome)
    returns (tree: Json)
    requires G.Document(text, flags).Ok? && JsonReader.Reports(text, flags, insitu, iterative, o)
    ensures var events, l := G.Document(text, flags).events, LoadedFrom(o);
            && JsonLoad.EventsOf(events, tree)
            && l == LoadedTree(insitu, iterative, events, tree)
            && (l == Root(tree) <==>
                  !JsonReader.Strays(insitu, iterative, events) && C.Counted(tree) && C.StringsFit(tree))
            && (l == NotOneRoot ==> C.Climb(0, o.events) == Some(1 + C.Lost(tree)) && C.Lost(tree) > 0)
    ensures |text| < TWO_32 ==> LoadedFrom(o) == Root(tree) && Valid(tree)
  {
    hide G.Document, Build, L.HandAll, L.AllHandable, L.Short, Valid, C.Counted, C.StringsFit, C.Cut, C.Climb, C.Lost;
    hide JsonLoad.EventsOf;
    tree := JsonLoad.AcceptedEventsBuild(text, flags, []);
    assert [] + [C.Cut(tree)] == [C.Cut(tree)];
    var events := G.Document(text, flags).events;
    if !JsonReader.Strays(insitu, iterative, events) && !C.Counted(tree) {
      C.BuildClimbs([], L.HandAll(events));
    }
  }

  /** Of an accepted text the table-driven parser with a stack is lost, where the other one is
      not, exactly if a string of the tree that is not its root, or a name, is not readable. */
  lemma {:induction false} AcceptedTextStrays(events: seq<Event>, tree: Json)
    requires JsonLoad.EventsOf(events, tree)
    ensures JsonReader.Strays(false, true, events) <==>
            !L.AllHandable(false, events) || (!tree.JString? && !Readable(tree))
  {
    hide L.AllHandable, L.Marks, Readable;
    C.TreeMarks(events, tree);
  }

  lemma RejectedTextLoads(text: seq<byte>, flags: G.Flags, insitu: bool, iterative: bool, o: JsonReader.Outcome)
    requires G.Document(text, flags).Error? && JsonReader.Reports(text, flags, insitu, iterative, o)
    ensures LoadedFrom(o) ==
            if JsonReader.Strays(insitu, iterative, G.Document(text, flags).events) then Unknown else NotAccepted
    ensures |text| < TWO_32 ==> LoadedFrom(o) == NotAccepted
  {
    hide G.Document, L.AllHandable, L.Short, L.HandAll;
  }

  /** A value written in any style and parsed in either way under any flags, in place or not,
      is the value again: in place always, and otherwise exactly if it is readable. The buffer
      is not found short where what is reserved for each string does not wrap. */
  method WriteAndParse(v: Json, style: W.Style, flags: G.Flags, insitu: bool, iterative: bool)
    returns (text: seq<byte>, short: bool, l: Loaded)
    requires Printable(v) && W.ValidStyle(style)
    ensures W.Roomy(v) ==> !short
    ensures text == W.Text(v, style, 0)
    ensures insitu || Readable(v) ==> l == Root(v)
    ensures !insitu && !Readable(v) ==> l == Unknown
  {
    hide W.Text, G.Document, Build, L.HandAll, L.AllHandable, L.Short, Readable, L.Marks, C.Counted, C.Cut,
        C.StringsFit;
    var os := new StringBuffer();
    var w := new Writer(style, os);
    w.Accept(v);
    text, short := os.data, os.short;
    assert [] + W.Text(v, style, 0) == W.Text(v, style, 0);
    DocumentReadsBack(v, style, flags);
    ghost var o, tree;
    l, o, tree := ParseDocument(text, flags, insitu, iterative);
    ghost var events := G.Document(text, flags).events;
    JsonReader.SameOnlyIfShort(events);
    if Readable(v) {
      L.ShortMarks([], events);
    }
  }
}
