/** Strings written for a target that is plain ASCII: everything else is escaped, with
    surrogate pairs beyond the basic plane. */
module JsonAscii {
  import opened Words
  import opened JsonText
  import JsonString
  import JsonLengths
  import Utf8
  import opened JsonBuffer
  import W = JsonWriter
  import R = JsonRoundTrip

  function HexFour(c: nat): (t: seq<byte>)
    requires c < 0x1_0000
    ensures |t| == 4
  {
    [W.HexDigit(c / 0x1000), W.HexDigit(c / 0x100 % 16), W.HexDigit(c / 0x10 % 16), W.HexDigit(c % 16)]
  }

  function OneEscape(c: nat): (t: seq<byte>)
    requires c < 0x1_0000
    ensures |t| == 6
  {
    [BACKSLASH, 0x75] + HexFour(c)
  }

  function LeadOf(c: nat): (l: nat)
    requires 0x1_0000 <= c <= 0x10FFFF
    ensures JsonString.IsLead(l)
  {
    (c - 0x1_0000) / 0x400 + 0xD800
  }

  function TrailOf(c: nat): (t: nat)
    requires 0x1_0000 <= c <= 0x10FFFF
    ensures JsonString.IsTrail(t)
  {
    (c - 0x1_0000) % 0x400 + 0xDC00
  }

  /** The escape, or pair of escapes, of a code point. */
  function Escape(c: nat): seq<byte>
    requires Utf8.Scalar(c)
  {
    if c < 0x1_0000 then OneEscape(c) else OneEscape(LeadOf(c)) + OneEscape(TrailOf(c))
  }

  /** What is written for the character at `i`, and where the next one starts. */
  function StepAt(s: seq<byte>, i: nat): (r: Step)
    requires i < |s|
    ensures r.Step? ==> i < r.next <= |s|
  {
    if s[i] < 0x80 then Step(i + 1, W.EscapedByte(s[i]))
    else
      Utf8.DecodeFollowsGrammar(s, i);
      var d := Utf8.Decode(s, i);
      if d.ok then Step(d.next, Escape(d.value)) else Invalid
  }

  /** The text of a string of `n` bytes from `i` on, and the place reached: characters are read
      from memory whatever the length. Nothing if there is something else. */
  function Text(s: seq<byte>, n: nat, i: nat): (r: Step)
    requires i <= |s| && n <= |s|
    ensures r.Step? ==> i <= r.next <= |s| && n <= r.next
    decreases |s| - i
  {
    if i >= n then Step(i, [])
    else
      match StepAt(s, i)
      case Invalid => Invalid
      case Step(next, text) => Ahead(text, Text(s, n, next))
  }

  // ---------- The writer's loop

  method PutHexFour(os: StringBuffer, c: nat)
    requires c < 0x1_0000
    modifies os`data, os`short
    ensures os.data == old(os.data) + HexFour(c)
    ensures os.short <==> old(os.short) || |os.data| > os.capacity
  {
    os.PutUnsafe(W.HexDigit(c / 0x1000 % 16));
    os.PutUnsafe(W.HexDigit(c / 0x100 % 16));
    os.PutUnsafe(W.HexDigit(c / 0x10 % 16));
    os.PutUnsafe(W.HexDigit(c % 16));
  }

  method PutOneEscape(os: StringBuffer, c: nat)
    requires c < 0x1_0000
    modifies os`data, os`short
    ensures os.data == old(os.data) + OneEscape(c)
    ensures os.short <==> old(os.short) || |os.data| > os.capacity
  {
    hide HexFour;
    os.PutUnsafe(BACKSLASH);
    os.PutUnsafe(0x75);
    PutHexFour(os, c);
  }

  method PutEscape(os: StringBuffer, codepoint: nat)
    requires Utf8.Scalar(codepoint)
    modifies os`data, os`short
    ensures os.data == old(os.data) + Escape(codepoint)
    ensures os.short <==> old(os.short) || |os.data| > os.capacity
  {
    hide OneEscape;
    if codepoint <= 0xD7FF || 0xE000 <= codepoint <= 0xFFFF {
      PutOneEscape(os, codepoint);
    } else {
      var s := codepoint - 0x1_0000;
      var lead, trail := s / 0x400 + 0xD800, s % 0x400 + 0xDC00;
      PutOneEscape(os, lead);
      PutOneEscape(os, trail);
    }
  }

  /** One turn of the loop. */
  method WriteUnit(s: seq<byte>, i: nat, os: StringBuffer) returns (ok: bool, next: nat)
    requires i < |s|
    modifies os`data, os`short
    ensures ok == StepAt(s, i).Step?
    ensures ok ==> next == StepAt(s, i).next && os.data == old(os.data) + StepAt(s, i).text
    ensures ok ==> (os.short <==> old(os.short) || |os.data| > os.capacity)
    ensures !ok ==> os.data == old(os.data) && os.short == old(os.short)
  {
    hide W.EscapedByte, Escape, Utf8.Decode;
    if s[i] >= 0x80 {
      Utf8.DecodeFollowsGrammar(s, i);
      var d := Utf8.Decode(s, i);
      if !d.ok {
        return false, i;
      }
      PutEscape(os, d.value);
      return true, d.next;
    }
    PutEscaped(os, s[i]);
    return true, i + 1;
  }

  /** `WriteString` from UTF-8 to ASCII of a string of `n` bytes, with what lies behind it. */
  method WriteString(s: seq<byte>, n: nat, os: StringBuffer) returns (ok: bool)
    requires n <= |s|
    modifies os
    ensures ok == Text(s, n, 0).Step?
    ensures ok ==> os.data == old(os.data) + [QUOTE] + Text(s, n, 0).text + [QUOTE]
    ensures os.capacity == Expanded(old(os.capacity), |old(os.data)|, W.Reserved(n, W.ASCII_FACTOR))
    ensures os.short <==> old(os.short) || |os.data| > os.capacity
    ensures W.Fits(n, W.ASCII_FACTOR) ==> os.short == old(os.short)
  {
    hide StepAt, Text, W.Reserved, W.Fits, Expanded;
    os.Reserve(W.Reserved(n, W.ASCII_FACTOR));
    os.PutUnsafe(QUOTE);
    ghost var start := os.data;
    ghost var done := [];
    NothingAhead(Text(s, n, 0));
    var i := 0;
    while i < n
      invariant 0 <= i <= |s| && os.data == start + done && Ahead(done, Text(s, n, i)) == Text(s, n, 0)
      invariant |done| <= 6 * i && |done| <= 12 * n
      invariant os.short <==> old(os.short) || |os.data| > os.capacity
      invariant os.capacity == Expanded(old(os.capacity), |old(os.data)|, W.Reserved(n, W.ASCII_FACTOR))
      decreases |s| - i
    {
      TextStep(s, n, i, done);
      ghost var step := StepAt(s, i);
      ok, i := WriteUnit(s, i, os);
      if !ok {
        RoomIsEnough(old(os.capacity), |old(os.data)|, n, 1 + |done|);
        return;
      }
      assert os.data == start + (done + step.text);
      done := done + step.text;
    }
    TextEnd(s, n, i, done);
    os.PutUnsafe(QUOTE);
    RoomIsEnough(old(os.capacity), |old(os.data)|, n, 2 + |done|);
    ok := true;
  }

  lemma RoomIsEnough(capacity: nat, size: nat, n: nat, k: nat)
    requires k <= 2 + 12 * n
    ensures W.Fits(n, W.ASCII_FACTOR) ==> size + k <= Expanded(capacity, size, W.Reserved(n, W.ASCII_FACTOR))
  {
    W.WrapsBelow(n, W.ASCII_FACTOR);
  }

  lemma {:induction false} StepSize(s: seq<byte>, i: nat)
    requires i < |s| && StepAt(s, i).Step?
    ensures var r := StepAt(s, i); i < r.next && |r.text| <= 6 * (r.next - i) && |r.text| <= 12
  {
    hide Utf8.Decode, Utf8.CharAt;
    if s[i] >= 0x80 {
      Utf8.DecodeIsChar(s, i);
      Utf8.DecodeParts(s, i);
    }
  }

  lemma {:induction false} TextStep(s: seq<byte>, n: nat, i: nat, done: seq<byte>)
    requires i < n <= |s|
    ensures StepAt(s, i).Invalid? ==> Text(s, n, i) == Invalid
    ensures StepAt(s, i).Step? ==>
              var r := StepAt(s, i);
              && Ahead(done, Text(s, n, i)) == Ahead(done + r.text, Text(s, n, r.next))
              && |r.text| <= 6 * (r.next - i) && |r.text| <= 12
  {
    hide StepAt;
    var r := StepAt(s, i);
    if r.Step? {
      StepSize(s, i);
      if Text(s, n, r.next).Step? {
        var rest := Text(s, n, r.next).text;
        assert done + (r.text + rest) == done + r.text + rest;
      }
    }
  }

  lemma {:induction false} TextEnd(s: seq<byte>, n: nat, i: nat, done: seq<byte>)
    requires n <= i <= |s|
    ensures Ahead(done, Text(s, n, i)) == Step(i, done)
  {
    assert done + [] == done;
  }

  // ---------- The room for it

  /** A string of zero bytes takes six for each. */
  lemma {:induction false} ZerosSize(s: seq<byte>, i: nat)
    requires i <= |s| && forall k :: 0 <= k < |s| ==> s[k] == NUL
    ensures Text(s, |s|, i).Step? && |Text(s, |s|, i).text| == 6 * (|s| - i)
    decreases |s| - i
  {
    if i < |s| {
      ZerosSize(s, i + 1);
    }
  }

  lemma {:induction false} TextSize(s: seq<byte>, n: nat, i: nat)
    requires i <= |s| && n <= |s| && Text(s, n, i).Step?
    ensures i < n ==> |Text(s, n, i).text| <= 6 * (n - i) + 6
    ensures i >= n ==> Text(s, n, i).text == []
    decreases |s| - i
  {
    hide StepAt;
    if i < n {
      StepSize(s, i);
      TextSize(s, n, StepAt(s, i).next);
    }
  }

  /** What is reserved is enough for every string of a length, whatever lies behind it, exactly
      if the number does not wrap. */
  lemma {:induction false} ReservedIsEnough(n: nat, s: seq<byte>, zeros: seq<byte>)
    requires n <= |s| && Text(s, n, 0).Step? && |zeros| == n && forall k :: 0 <= k < n ==> zeros[k] == NUL
    ensures W.Fits(n, W.ASCII_FACTOR) ==> 2 + |Text(s, n, 0).text| <= W.Reserved(n, W.ASCII_FACTOR)
    ensures Text(zeros, n, 0).Step?
    ensures !W.Fits(n, W.ASCII_FACTOR) ==> 2 + |Text(zeros, n, 0).text| > W.Reserved(n, W.ASCII_FACTOR)
  {
    hide Text;
    TextSize(s, n, 0);
    ZerosSize(zeros, 0);
    W.WrapsBelow(n, W.ASCII_FACTOR);
  }

  // ---------- What is written

  /** A string is written as far as there are characters. */
  lemma {:induction false} TextReaches(s: seq<byte>, n: nat, i: nat)
    requires i <= |s| && n <= |s|
    ensures Text(s, n, i).Step? <==> Utf8.Reached(s, n, i).Some?
    ensures Text(s, n, i).Step? ==> Text(s, n, i).next == Utf8.Reached(s, n, i).value
    decreases |s| - i
  {
    hide W.EscapedByte, Escape, Utf8.Decode, Utf8.CharAt;
    if i < n {
      Utf8.DecodeParts(s, i);
      Utf8.DecodeIsChar(s, i);
      if StepAt(s, i).Step? {
        TextReaches(s, n, StepAt(s, i).next);
      }
    }
  }

  /** A string can be written exactly if from its start there are characters that reach its end;
      and they end there exactly if it is well-formed UTF-8, as it is if nothing but a zero
      byte lies behind it. */
  lemma {:induction false} WrittenIffReaches(s: seq<byte>, n: nat)
    requires n <= |s|
    ensures Text(s, n, 0).Step? <==> Utf8.Reaches(s, n, 0)
    ensures Text(s, n, 0).Step? && Text(s, n, 0).next == n <==> Utf8.WellFormed(s[..n], 0)
    ensures n == |s| && Text(s, n, 0).Step? ==> Utf8.WellFormed(s, 0)
  {
    hide Text, Utf8.Reached, Utf8.Reaches, Utf8.WellFormed;
    TextReaches(s, n, 0);
    Utf8.ReachedIffReaches(s, n, 0);
    Utf8.ReachedStops(s, n, 0);
    assert n == |s| ==> s[..n] == s;
  }

  predicate Ascii(t: seq<byte>) {
    forall k :: 0 <= k < |t| ==> t[k] < 0x80
  }

  lemma {:induction false} StepIsAscii(s: seq<byte>, i: nat)
    requires i < |s| && StepAt(s, i).Step?
    ensures Ascii(StepAt(s, i).text)
  {
    hide Utf8.Decode;
  }

  /** Only ASCII is written. */
  lemma {:induction false} WrittenIsAscii(s: seq<byte>, n: nat, i: nat)
    requires i <= |s| && n <= |s| && Text(s, n, i).Step?
    ensures Ascii(Text(s, n, i).text)
    decreases |s| - i
  {
    hide StepAt;
    if i < n {
      StepIsAscii(s, i);
      WrittenIsAscii(s, n, StepAt(s, i).next);
    }
  }

  // ---------- What is read back

  lemma HexDigitReadsBack(h: nat)
    requires h < 16
    ensures JsonString.HexValue(W.HexDigit(h)) == Some(h)
  {
  }

  lemma {:induction false} HexDigits(s: seq<byte>, i: nat, a: nat, b: nat, c: nat, d: nat)
    requires a < 16 && b < 16 && c < 16 && d < 16 && i + 4 <= |s|
    requires s[i] == W.HexDigit(a) && s[i + 1] == W.HexDigit(b) && s[i + 2] == W.HexDigit(c)
             && s[i + 3] == W.HexDigit(d)
    ensures JsonString.Hex4(s, i) == Some(((a * 16 + b) * 16 + c) * 16 + d)
  {
    hide W.HexDigit, JsonString.HexValue;
    HexDigitReadsBack(a);
    HexDigitReadsBack(b);
    HexDigitReadsBack(c);
    HexDigitReadsBack(d);
    assert JsonString.Hex(s, i, 0) == Some(0);
    assert JsonString.Hex(s, i, 1) == Some(a);
    assert JsonString.Hex(s, i, 2) == Some(a * 16 + b);
    assert JsonString.Hex(s, i, 3) == Some((a * 16 + b) * 16 + c);
  }

  lemma Nibbles(c: nat)
    requires c < 0x1_0000
    ensures ((c / 0x1000 * 16 + c / 0x100 % 16) * 16 + c / 0x10 % 16) * 16 + c % 16 == c
  {
    assert c / 0x10 / 16 == c / 0x100 && c / 0x100 / 16 == c / 0x1000;
  }

  /** An escape is read back by the reader of four digits. */
  lemma {:induction false} EscapeReadsBack(s: seq<byte>, i: nat, c: nat)
    requires c < 0x1_0000 && Occurs(s, i, OneEscape(c))
    ensures i + 6 <= |s| && s[i] == BACKSLASH && s[i + 1] == 0x75 && JsonString.Hex4(s, i + 2) == Some(c)
  {
    hide W.HexDigit, JsonString.Hex4;
    var t := OneEscape(c);
    assert s[i..i + 6] == t;
    assert forall k :: 0 <= k < 6 ==> s[i + k] == t[k];
    HexDigits(s, i + 2, c / 0x1000, c / 0x100 % 16, c / 0x10 % 16, c % 16);
    Nibbles(c);
  }

  lemma PairReadsBack(c: nat)
    requires 0x1_0000 <= c <= 0x10FFFF
    ensures JsonString.PairValue(LeadOf(c), TrailOf(c)) == c
  {
  }

  lemma {:induction false} PointReadsBack(s: seq<byte>, i: nat, c: nat)
    requires Utf8.Scalar(c) && Occurs(s, i, Escape(c))
    ensures JsonString.UnitAt(s, i) == JsonString.Chunk(i + |Escape(c)|, JsonString.Utf8(c))
  {
    hide JsonString.Hex4, JsonString.Utf8, OneEscape, LeadOf, TrailOf, JsonString.PairValue, Occurs;
    if c < 0x1_0000 {
      EscapeReadsBack(s, i, c);
    } else {
      OccursSplit(s, i, OneEscape(LeadOf(c)), OneEscape(TrailOf(c)));
      EscapeReadsBack(s, i, LeadOf(c));
      EscapeReadsBack(s, i + 6, TrailOf(c));
      PairReadsBack(c);
    }
  }

  lemma {:induction false} StepReadsBack(t: seq<byte>, p: nat, s: seq<byte>, i: nat)
    requires i < |s| && StepAt(s, i).Step? && Occurs(t, p, StepAt(s, i).text)
    ensures JsonString.UnitAt(t, p) == JsonString.Chunk(p + |StepAt(s, i).text|, s[i..StepAt(s, i).next])
  {
    hide Utf8.Decode, JsonString.UnitAt, Escape, W.EscapedByte, Occurs;
    if s[i] < 0x80 {
      R.ByteReadsBack(t, p, s[i]);
    } else {
      Utf8.DecodeFollowsGrammar(s, i);
      PointReadsBack(t, p, Utf8.Decode(s, i).value);
    }
  }

  /** What is written is read back byte for byte. */
  lemma {:induction false} AsciiReadsBack(t: seq<byte>, p: nat, s: seq<byte>, n: nat, i: nat)
    requires i <= |s| && n <= |s| && Text(s, n, i).Step? && Occurs(t, p, Text(s, n, i).text + [QUOTE])
    ensures JsonString.Decode(t, p)
            == JsonString.Decoded(p + |Text(s, n, i).text| + 1, s[i..Text(s, n, i).next])
    decreases |s| - i
  {
    hide JsonString.UnitAt, StepAt, Occurs;
    if i >= n {
      R.FirstByte(t, p, [] + [QUOTE]);
      R.ClosingQuote(t, p);
    } else {
      var r := StepAt(s, i);
      var rest := Text(s, n, r.next);
      assert Text(s, n, i).text + [QUOTE] == r.text + (rest.text + [QUOTE]);
      OccursSplit(t, p, r.text, rest.text + [QUOTE]);
      StepReadsBack(t, p, s, i);
      AsciiReadsBack(t, p + |r.text|, s, n, r.next);
      assert s[i..r.next] + s[r.next..rest.next] == s[i..rest.next];
    }
  }

  /** A string of `n` bytes is written for an ASCII target and read back, or refused, exactly if
      its characters do not reach its end. It comes off the reader's stack again exactly if it
      is well-formed UTF-8 and its length and one more fit into 32 bits; and the buffer is not
      found short where what is reserved for it does not wrap. */
  method WriteAndRead(s: seq<byte>, n: nat) returns (ok: bool, text: seq<byte>, short: bool, d: JsonString.OnStack)
    requires n <= |s|
    ensures ok <==> Utf8.Reaches(s, n, 0)
    ensures ok ==> Ascii(text)
    ensures ok ==> Utf8.Reached(s, n, 0).Some?
                   && d == JsonString.TakenOf(JsonString.Decoded(|text|, s[..Utf8.Reached(s, n, 0).value]))
    ensures ok && d == JsonString.Taken(|text|, s[..n], 0) <==> Utf8.WellFormed(s[..n], 0) && n < TWO_32 - 1
    ensures W.Fits(n, W.ASCII_FACTOR) ==> !short
  {
    hide JsonString.Decode, Utf8.WellFormed, Text, Utf8.Reached, Utf8.Reaches, JsonString.TakenOf;
    var os := new StringBuffer();
    ok := WriteString(s, n, os);
    text, short := os.data, os.short;
    WrittenIffReaches(s, n);
    TextReaches(s, n, 0);
    d := JsonString.NoString;
    if ok {
      StringReadsBack(s, n, text);
      d := JsonString.ParseToStack(text, 1);
      WholeIsTaken(s, n, Text(s, n, 0).next, |text|);
    }
  }

  lemma {:induction false} StringReadsBack(s: seq<byte>, n: nat, text: seq<byte>)
    requires n <= |s| && Text(s, n, 0).Step? && text == [] + [QUOTE] + Text(s, n, 0).text + [QUOTE]
    ensures Ascii(text) && JsonString.Decode(text, 1) == JsonString.Decoded(|text|, s[..Text(s, n, 0).next])
  {
    hide JsonString.Decode, Text;
    var t := Text(s, n, 0);
    WrittenIsAscii(s, n, 0);
    assert text == [QUOTE] + (t.text + [QUOTE]) + [];
    OccursParts([QUOTE] + (t.text + [QUOTE]), []);
    OccursSplit(text, 0, [QUOTE], t.text + [QUOTE]);
    AsciiReadsBack(text, 1, s, n, 0);
    assert s[0..t.next] == s[..t.next];
  }

  lemma WholeIsTaken(s: seq<byte>, n: nat, end: nat, k: nat)
    requires n <= end <= |s|
    ensures JsonString.TakenOf(JsonString.Decoded(k, s[..end])) == JsonString.Taken(k, s[..n], 0) <==>
            end == n && n < TWO_32 - 1
  {
    JsonLengths.BothHandIt(s[..end]);
  }
}
