/** The layout of written texts, checked byte by byte: where new lines and spaces come, and how
    far lines are indented. */
module JsonLayout {
  import opened Words
  import opened JsonText
  import opened JsonDocument
  import opened JsonWriter
  import R = JsonRoundTrip

  /** What has been read last: something inside a line, an opening bracket, a comma or colon that
      something has to follow, a new line and `k` characters after it (before an item or before a
      closing bracket), or a part of a string. */
  datatype Mode =
    | Inline
    | Opened
    | Awaiting(b: byte)
    | Indenting(k: nat, last: bool)
    | InString
    | InEscape

  /** The brackets that are open, arrays or objects, and the mode. */
  datatype Scan = Scan(open: seq<bool>, mode: Mode)

  /** Items of such a bracket have lines of their own. */
  predicate Lines(st: Style, inArray: bool) {
    st.Pretty? && !(inArray && st.singleLineArrays)
  }

  predicate Closes(b: byte) {
    b == 0x5D || b == 0x7D
  }

  /** A byte that is not inside a string, where `onNewLine` tells the first one on its line. */
  function Token(st: Style, open: seq<bool>, b: byte, onNewLine: bool): Option<Scan> {
    var n := |open|;
    if b == 0x22 then Some(Scan(open, InString))
    else if b == 0x5B then Some(Scan(open + [true], Opened))
    else if b == 0x7B then Some(Scan(open + [false], Opened))
    else if Closes(b) then
      if n == 0 || open[n - 1] != (b == 0x5D) || Lines(st, open[n - 1]) != onNewLine then None
      else Some(Scan(open[..n - 1], Inline))
    else if b == 0x2C then
      if n == 0 || onNewLine then None
      else if Lines(st, open[n - 1]) then Some(Scan(open, Awaiting(0x0A)))
      else if st.Pretty? then Some(Scan(open, Awaiting(0x20)))
      else Some(Scan(open, Inline))
    else if b == 0x3A then
      if n == 0 || open[n - 1] || onNewLine then None
      else if st.Pretty? then Some(Scan(open, Awaiting(0x20)))
      else Some(Scan(open, Inline))
    else if IsSpace(b) then None
    else Some(Scan(open, Inline))
  }

  /** One more byte; nothing if it is not where it should be. An item is indented once for every
      open bracket, a closing bracket once less. */
  function Check(st: Style, s: Scan, b: byte): Option<Scan> {
    var n := |s.open|;
    match s.mode
    case InString => Some(s.(mode := if b == 0x22 then Inline else if b == 0x5C then InEscape else InString))
    case InEscape => Some(s.(mode := InString))
    case Awaiting(x) =>
      if b != x then None else Some(s.(mode := if x == 0x0A then Indenting(0, false) else Inline))
    case Indenting(k, last) =>
      if st.Compact? || n == 0 then None
      else if b == st.indentChar then Some(s.(mode := Indenting(k + 1, last)))
      else if Closes(b) != last || k != (if last then n - 1 else n) * st.indentCount then None
      else Token(st, s.open, b, true)
    case Opened =>
      if n == 0 then None
      else if Closes(b) then
        (if s.open[n - 1] == (b == 0x5D) then Some(Scan(s.open[..n - 1], Inline)) else None)
      else if Lines(st, s.open[n - 1]) then (if b == 0x0A then Some(s.(mode := Indenting(0, false))) else None)
      else Token(st, s.open, b, false)
    case Inline =>
      if b == 0x0A && n > 0 && Lines(st, s.open[n - 1]) then Some(s.(mode := Indenting(0, true)))
      else Token(st, s.open, b, false)
  }

  function CheckAll(st: Style, s: Scan, t: seq<byte>): Option<Scan>
    decreases |t|
  {
    if t == [] then Some(s)
    else
      match Check(st, s, t[0])
      case None => None
      case Some(s') => CheckAll(st, s', t[1..])
  }

  lemma {:induction false} CheckJoin(st: Style, s: Scan, a: seq<byte>, b: seq<byte>)
    ensures CheckAll(st, s, a + b)
            == if CheckAll(st, s, a).Some? then CheckAll(st, CheckAll(st, s, a).value, b) else None
    decreases |a|
  {
    hide Check;
    if a == [] {
      assert a + b == b;
    } else {
      assert (a + b)[1..] == a[1..] + b;
      if Check(st, s, a[0]).Some? {
        CheckJoin(st, Check(st, s, a[0]).value, a[1..], b);
      }
    }
  }

  lemma {:induction false} CheckOne(st: Style, s: Scan, b: byte)
    ensures CheckAll(st, s, [b]) == Check(st, s, b)
  {
    hide Check;
    assert [b][1..] == [];
  }

  // ---------- Scalars

  /** Where a value or a name may begin. */
  predicate Ready(st: Style, s: Scan) {
    var n := |s.open|;
    || s.mode == Inline
    || (st.Pretty? && n > 0 && s.mode == Indenting(n * st.indentCount, false))
    || (n > 0 && s.mode == Opened && !Lines(st, s.open[n - 1]))
  }

  /** A byte that has no meaning for the layout. */
  predicate Ordinary(b: byte) {
    !IsSpace(b) && !Closes(b) && b !in {0x22, 0x5B, 0x7B, 0x2C, 0x3A}
  }

  lemma FirstByteOf(st: Style, s: Scan, b: byte)
    requires ValidStyle(st) && Ready(st, s)
    ensures Ordinary(b) ==> Check(st, s, b) == Some(Scan(s.open, Inline))
    ensures b == 0x22 ==> Check(st, s, b) == Some(Scan(s.open, InString))
    ensures b == 0x5B ==> Check(st, s, b) == Some(Scan(s.open + [true], Opened))
    ensures b == 0x7B ==> Check(st, s, b) == Some(Scan(s.open + [false], Opened))
  {
  }

  lemma {:induction false} OrdinaryText(st: Style, s: Scan, t: seq<byte>)
    requires ValidStyle(st) && Ready(st, s) && t != [] && forall k :: 0 <= k < |t| ==> Ordinary(t[k])
    ensures CheckAll(st, s, t) == Some(Scan(s.open, Inline))
    decreases |t|
  {
    hide Check, Ordinary;
    FirstByteOf(st, s, t[0]);
    if |t| > 1 {
      OrdinaryText(st, Scan(s.open, Inline), t[1..]);
    }
  }

  lemma {:induction false} EscapedByteText(st: Style, open: seq<bool>, c: byte)
    ensures CheckAll(st, Scan(open, InString), EscapedByte(c)) == Some(Scan(open, InString))
  {
    var e, s := EscapeLetter(c), Scan(open, InString);
    if e.None? {
      CheckOne(st, s, c);
    } else {
      var rest := EscapedByte(c)[2..];
      assert EscapedByte(c) == [BACKSLASH] + ([e.value] + rest);
      CheckJoin(st, s, [BACKSLASH], [e.value] + rest);
      CheckOne(st, s, BACKSLASH);
      CheckJoin(st, Scan(open, InEscape), [e.value], rest);
      CheckOne(st, Scan(open, InEscape), e.value);
      if rest != [] {
        FourInString(st, open, rest);
      }
    }
  }

  lemma {:induction false} FourInString(st: Style, open: seq<bool>, t: seq<byte>)
    requires forall k :: 0 <= k < |t| ==> t[k] != 0x22 && t[k] != 0x5C
    ensures CheckAll(st, Scan(open, InString), t) == Some(Scan(open, InString))
    decreases |t|
  {
    if t != [] {
      FourInString(st, open, t[1..]);
    }
  }

  lemma {:induction false} EscapedText(st: Style, open: seq<bool>, str: seq<byte>)
    ensures CheckAll(st, Scan(open, InString), Escaped(str)) == Some(Scan(open, InString))
    decreases |str|
  {
    hide EscapedByte, Check;
    if str != [] {
      EscapedByteText(st, open, str[0]);
      EscapedText(st, open, str[1..]);
      CheckJoin(st, Scan(open, InString), EscapedByte(str[0]), Escaped(str[1..]));
    }
  }

  lemma {:induction false} QuotedText(st: Style, s: Scan, str: seq<byte>)
    requires ValidStyle(st) && Ready(st, s)
    ensures CheckAll(st, s, Quoted(str)) == Some(Scan(s.open, Inline))
  {
    hide Escaped;
    var inside := Scan(s.open, InString);
    FirstByteOf(st, s, QUOTE);
    CheckOne(st, s, QUOTE);
    EscapedText(st, s.open, str);
    CheckOne(st, inside, QUOTE);
    CheckJoin(st, inside, Escaped(str), [QUOTE]);
    CheckJoin(st, s, [QUOTE], Escaped(str) + [QUOTE]);
    assert Quoted(str) == [QUOTE] + (Escaped(str) + [QUOTE]);
  }

  lemma {:induction false} ScalarText(st: Style, s: Scan, v: Json, d: nat)
    requires ValidStyle(st) && Ready(st, s) && Printable(v) && !v.JArray? && !v.JObject?
    ensures CheckAll(st, s, Text(v, st, d)) == Some(Scan(s.open, Inline))
  {
    hide Check, Quoted, CheckAll;
    match v
    case JString(str) => QuotedText(st, s, str);
    case JNumber(n) =>
      R.DigitsTextValue(if n.value < 0 then -n.value else n.value);
      OrdinaryText(st, s, Text(v, st, d));
    case _ => OrdinaryText(st, s, Text(v, st, d));
  }

  // ---------- Lines

  lemma {:induction false} IndentText(st: Style, open: seq<bool>, k: nat, last: bool, n: nat)
    requires st.Pretty? && |open| > 0
    ensures CheckAll(st, Scan(open, Indenting(k, last)), Repeat(st.indentChar, n))
            == Some(Scan(open, Indenting(k + n, last)))
    decreases n
  {
    if n > 0 {
      IndentText(st, open, k + 1, last, n - 1);
      assert Repeat(st.indentChar, n)[1..] == Repeat(st.indentChar, n - 1);
    }
  }

  /** A new line where it is due. */
  lemma {:induction false} LineText(st: Style, s: Scan, d: nat, last: bool)
    requires st.Pretty? && |s.open| > 0 && Check(st, s, 0x0A) == Some(Scan(s.open, Indenting(0, last)))
    ensures CheckAll(st, s, Line(st, d)) == Some(Scan(s.open, Indenting(d * st.indentCount, last)))
  {
    hide Check, Repeat;
    CheckOne(st, s, 0x0A);
    IndentText(st, s.open, 0, last, d * st.indentCount);
    CheckJoin(st, s, [NEWLINE], Repeat(st.indentChar, d * st.indentCount));
  }

  /** What goes before an item of an array or object: after the opening bracket, or after another
      item. */
  lemma {:induction false} LeadText(st: Style, open: seq<bool>, first: bool)
    requires ValidStyle(st) && |open| > 0
    ensures var d := |open|;
            var lead := if open[d - 1] then ElementLead(st, d, first) else NameLead(st, d, first);
            var r := CheckAll(st, Scan(open, if first then Opened else Inline), lead);
            r.Some? && r.value.open == open && Ready(st, r.value)
  {
    hide Line;
    var d := |open|;
    var s := Scan(open, if first then Opened else Inline);
    var after := if first then s else Scan(open, Awaiting(0x0A));
    CheckOne(st, s, COMMA);
    if Lines(st, open[d - 1]) {
      LineText(st, after, d, false);
      CheckJoin(st, s, [COMMA], Line(st, d));
      assert [] + Line(st, d) == Line(st, d);
    } else if st.Pretty? && !first {
      CheckOne(st, Scan(open, Awaiting(0x20)), 0x20);
      CheckJoin(st, s, [COMMA], [0x20]);
      assert [COMMA] + [0x20] == [COMMA, 0x20];
    }
  }

  /** The end of an array or object that is not empty. */
  lemma {:induction false} CloseText(st: Style, open: seq<bool>, empty: bool)
    requires ValidStyle(st) && |open| > 0
    ensures var d := |open| - 1;
            var lead := if empty then [] else CloseLead(st, d, open[d]);
            CheckAll(st, Scan(open, if empty then Opened else Inline), lead + [if open[d] then RBRACKET else RBRACE])
            == Some(Scan(open[..d], Inline))
  {
    hide Line;
    var d := |open| - 1;
    var s, b := Scan(open, if empty then Opened else Inline), if open[d] then RBRACKET else RBRACE;
    assert [] + [b] == [b];
    if !empty && Lines(st, open[d]) {
      LineText(st, s, d, true);
      CheckJoin(st, s, Line(st, d), [b]);
      CheckOne(st, Scan(open, Indenting(d * st.indentCount, true)), b);
    } else {
      CheckOne(st, s, b);
    }
  }

  lemma {:induction false} ColonIsText(st: Style, open: seq<bool>)
    requires ValidStyle(st) && |open| > 0 && !open[|open| - 1]
    ensures CheckAll(st, Scan(open, Inline), ColonText(st)) == Some(Scan(open, Inline))
  {
    var s := Scan(open, Inline);
    CheckOne(st, s, COLON);
    if st.Pretty? {
      CheckOne(st, Scan(open, Awaiting(0x20)), 0x20);
      CheckJoin(st, s, [COLON], [0x20]);
      assert [COLON] + [0x20] == [COLON, 0x20];
    }
  }

  // ---------- Values

  /** A value written at the depth of the open brackets is laid out as it should be. */
  lemma {:induction false} ValueText(st: Style, s: Scan, v: Json)
    requires ValidStyle(st) && Ready(st, s) && Printable(v)
    ensures CheckAll(st, s, Text(v, st, |s.open|)) == Some(Scan(s.open, Inline))
    decreases v, 5
  {
    hide Check, CheckAll, CloseLead, Ready, Text, Printable;
    if v.JArray? {
      ArrayIsText(st, s, v.elements);
    } else if v.JObject? {
      ObjectIsText(st, s, v.members);
    } else {
      ScalarText(st, s, v, |s.open|);
    }
  }

  lemma {:induction false} ArrayIsText(st: Style, s: Scan, es: seq<Json>)
    requires ValidStyle(st) && Ready(st, s) && Printable(JArray(es))
    ensures CheckAll(st, s, Text(JArray(es), st, |s.open|)) == Some(Scan(s.open, Inline))
    decreases es, 5
  {
    hide Check, CheckAll, CloseLead, Ready, ElementsText;
    ElementsAreText(st, s.open + [true], es, true);
    BracketText(st, s, true, ElementsText(es, st, |s.open| + 1, true), es == []);
  }

  lemma {:induction false} ObjectIsText(st: Style, s: Scan, ms: seq<Member>)
    requires ValidStyle(st) && Ready(st, s) && Printable(JObject(ms))
    ensures CheckAll(st, s, Text(JObject(ms), st, |s.open|)) == Some(Scan(s.open, Inline))
    decreases ms, 5
  {
    hide Check, CheckAll, CloseLead, Ready, MembersText;
    MembersAreText(st, s.open + [false], ms, true);
    BracketText(st, s, false, MembersText(ms, st, |s.open| + 1, true), ms == []);
  }

  lemma {:induction false} BracketText(st: Style, s: Scan, inArray: bool, body: seq<byte>, empty: bool)
    requires ValidStyle(st) && Ready(st, s)
    requires var open := s.open + [inArray];
             CheckAll(st, Scan(open, Opened), body) == Some(Scan(open, if empty then Opened else Inline))
    ensures var lead := if empty then [] else CloseLead(st, |s.open|, inArray);
            CheckAll(st, s, [if inArray then LBRACKET else LBRACE] + body + lead
                            + [if inArray then RBRACKET else RBRACE])
            == Some(Scan(s.open, Inline))
  {
    hide Check, CheckAll, CloseLead;
    var open := s.open + [inArray];
    var lead := if empty then [] else CloseLead(st, |s.open|, inArray);
    var first, last := [if inArray then LBRACKET else LBRACE], [if inArray then RBRACKET else RBRACE];
    FirstByteOf(st, s, first[0]);
    CheckOne(st, s, first[0]);
    CloseText(st, open, empty);
    assert open[..|s.open|] == s.open;
    CheckJoin(st, Scan(open, Opened), body, lead + last);
    CheckJoin(st, s, first, body + (lead + last));
    assert first + body + lead + last == first + (body + (lead + last));
  }

  lemma {:induction false} ElementsAreText(st: Style, open: seq<bool>, es: seq<Json>, first: bool)
    requires ValidStyle(st) && |open| > 0 && open[|open| - 1]
    requires forall k :: 0 <= k < |es| ==> Printable(es[k])
    ensures var s := Scan(open, if first then Opened else Inline);
            CheckAll(st, s, ElementsText(es, st, |open|, first)) == Some(if es == [] then s else Scan(open, Inline))
    decreases es, 4
  {
    hide Check, ElementLead, Ready, Text;
    if es != [] {
      var d, s := |open|, Scan(open, if first then Opened else Inline);
      var lead, text := ElementLead(st, d, first), Text(es[0], st, d);
      LeadText(st, open, first);
      ValueText(st, CheckAll(st, s, lead).value, es[0]);
      ElementsAreText(st, open, es[1..], false);
      CheckJoin(st, s, lead, text);
      CheckJoin(st, s, lead + text, ElementsText(es[1..], st, d, false));
    }
  }

  lemma {:induction false} MembersAreText(st: Style, open: seq<bool>, ms: seq<Member>, first: bool)
    requires ValidStyle(st) && |open| > 0 && !open[|open| - 1]
    requires forall k :: 0 <= k < |ms| ==> Printable(ms[k].value)
    ensures var s := Scan(open, if first then Opened else Inline);
            CheckAll(st, s, MembersText(ms, st, |open|, first)) == Some(if ms == [] then s else Scan(open, Inline))
    decreases ms, 4
  {
    hide Check, NameLead, Ready, Text, Quoted, ColonText;
    if ms != [] {
      var d, s := |open|, Scan(open, if first then Opened else Inline);
      var lead, name, text := NameLead(st, d, first), Quoted(ms[0].name), Text(ms[0].value, st, d);
      LeadText(st, open, first);
      QuotedText(st, CheckAll(st, s, lead).value, ms[0].name);
      ColonIsText(st, open);
      ValueIsReady(st, open);
      ValueText(st, Scan(open, Inline), ms[0].value);
      MembersAreText(st, open, ms[1..], false);
      CheckJoin(st, s, lead, name);
      CheckJoin(st, s, lead + name, ColonText(st));
      CheckJoin(st, s, lead + name + ColonText(st), text);
      CheckJoin(st, s, lead + name + ColonText(st) + text, MembersText(ms[1..], st, d, false));
    }
  }

  lemma ValueIsReady(st: Style, open: seq<bool>)
    ensures Ready(st, Scan(open, Inline))
  {
  }

  /** Every value is written with its layout in place: each item of an object, and of an array
      unless its style has them on one line, on a line of its own, indented for every bracket
      around it; a closing bracket on one of its own; a space after every colon and between
      elements on one line; and in the compact style no white space at all. */
  lemma {:induction false} WrittenIsLaidOut(st: Style, v: Json)
    requires ValidStyle(st) && Printable(v)
    ensures CheckAll(st, Scan([], Inline), Text(v, st, 0)) == Some(Scan([], Inline))
  {
    ValueText(st, Scan([], Inline), v);
  }
}
