/** The reader: a cursor over a buffer, an error flag, a stack, and the events sent to a
    handler that accepts all of them. One way to parse calls itself for nested values, the
    other keeps its own stack and follows a table. Strings are decoded onto the stack that
    the second way also uses, or in place. */
module JsonReader {
  import opened Words
  import opened JsonText
  import opened JsonEvents
  import opened JsonLengths
  import opened JsonGrammar
  import opened JsonMachine
  import JsonNumber
  import JsonString

  /** A reader goes on, has failed, or is lost: it has come to an assertion that does not
      hold, to memory that is not its own, or to bytes that it takes for something else. */
  datatype Status = Going | Failed | Lost

  /** Every string that was handed out lies where it did, before `low`, with its zero byte. */
  predicate InBuffer(buf: seq<byte>, low: nat, events: seq<Event>, places: seq<nat>) {
    && |places| == |events| && low <= |buf|
    && forall k :: 0 <= k < |events| && IsText(events[k]) ==> LiesAt(buf, low, TextOf(events[k]), places[k])
  }

  predicate LiesAt(buf: seq<byte>, low: nat, b: seq<byte>, p: nat)
    requires low <= |buf|
  {
    p + |b| < low && buf[p..p + |b|] == b && buf[p + |b|] == NUL
  }

  /** What lies below stays there while the buffer changes above. */
  lemma InBufferKept(a: seq<byte>, b: seq<byte>, low: nat, low': nat, events: seq<Event>, places: seq<nat>)
    requires InBuffer(a, low, events, places) && low <= low' <= |b| == |a| && a[..low] == b[..low]
    ensures InBuffer(b, low', events, places)
  {
    forall k | 0 <= k < |events| && IsText(events[k])
      ensures LiesAt(b, low', TextOf(events[k]), places[k])
    {
      LiesAtKept(a, b, low, low', TextOf(events[k]), places[k]);
    }
  }

  lemma LiesAtKept(a: seq<byte>, b: seq<byte>, low: nat, low': nat, t: seq<byte>, p: nat)
    requires low <= low' <= |b| == |a| && a[..low] == b[..low] && LiesAt(a, low, t, p)
    ensures LiesAt(b, low', t, p)
  {
    forall k | 0 <= k < low
      ensures a[k] == b[k]
    {
      assert a[k] == a[..low][k] && b[k] == b[..low][k];
    }
  }

  lemma InBufferMore(buf: seq<byte>, low: nat, events: seq<Event>, places: seq<nat>, e: Event, p: nat)
    requires InBuffer(buf, low, events, places) && (IsText(e) ==> LiesAt(buf, low, TextOf(e), p))
    ensures InBuffer(buf, low, events + [e], places + [p])
  {
    hide LiesAt;
  }

  class Reader {
    ghost const src: seq<byte>  // the text as it was
    const flags: Flags
    const insitu: bool
    const buf: array<byte>
    var pos: nat
    var events: seq<Event>      // as the handler has got them
    var places: seq<nat>        // where the strings among them were handed out, in place
    var status: Status
    var stack: seq<Frame>
    var left: seq<nat>          // the bytes of strings left on the stack, on top of each frame
    ghost var due: seq<Frame>   // the frames as they were if no bytes lay on them
    ghost var raw: seq<Event>   // the events with their strings in full

    constructor (buf: array<byte>, flags: Flags, insitu: bool)
      ensures this.buf == buf && this.src == buf[..] && this.flags == flags && this.insitu == insitu
      ensures Valid() && pos == 0 && raw == [] && status == Going && stack == []
      ensures due == []
    {
      this.src, this.buf, this.flags, this.insitu := buf[..], buf, flags, insitu;
      pos, events, places, status, stack, left, due, raw := 0, [], [], Going, [], [], [], [];
    }

    /** What has not been read is as it was, and so is all of it unless strings are decoded
        in place. */
    ghost predicate Unread()
      reads this`pos, buf
    {
      buf.Length == |src| && forall k :: 0 <= k < |src| && (pos <= k || !insitu) ==> buf[k] == src[k]
    }

    /** The handler has got the events, unless the reader is lost; a short text has only
        short strings. */
    ghost predicate Honest()
      reads this`status, this`raw, this`events
    {
      && (status != Lost ==> AllHandable(insitu, raw) && events == HandAll(raw))
      && (|src| < TWO_32 ==> status != Lost && Short(raw))
    }

    /** A frame is as it should be unless bytes lie on it. */
    ghost predicate Framed()
      reads this`stack, this`left, this`due
    {
      |stack| == |left| == |due| && forall k :: 0 <= k < |stack| && left[k] == 0 ==> stack[k] == due[k]
    }

    ghost predicate Valid()
      reads this, buf
    {
      && pos <= |src| == buf.Length && Framed() && Unread() && Honest()
      && (insitu ==> InBuffer(buf[..], pos, events, places))
    }

    /** The reader has done what a result says, having sent `before` earlier; or it is lost
        at a string of the result that cannot be handed out. */
    ghost predicate Did(before: seq<Event>, r: Result)
      reads this
    {
      match status
      case Going => r.Ok? && pos == r.pos && raw == before + r.events
      case Failed => r.Error? && raw == before + r.events
      case Lost => !AllHandable(insitu, r.events)
    }

    /** The byte at the cursor. */
    function Cursor(): (c: byte)
      requires Valid()
      reads this, buf
      ensures c == Peek(src, pos)
    {
      if pos < buf.Length then buf[pos] else NUL
    }

    method Advance()
      requires Valid() && pos < |src|
      modifies this`pos
      ensures Valid() && pos == old(pos) + 1
    {
      hide Honest;
      if insitu {
        InBufferKept(buf[..], buf[..], pos, pos + 1, events, places);
      }
      pos := pos + 1;
    }

    method Consume(c: byte) returns (ok: bool)
      requires Valid() && c != NUL
      modifies this`pos
      ensures Valid() && ok == (Peek(src, old(pos)) == c)
      ensures pos == old(pos) + if ok then 1 else 0
    {
      hide Valid;
      ok := Cursor() == c;
      if ok {
        Advance();
      }
    }

    method Fail()
      requires Valid() && status == Going
      modifies this`status
      ensures Valid() && status == Failed
    {
      status := Failed;
    }

    /** An event that is not a string. */
    method Emit(e: Event)
      requires Valid() && status == Going && !IsText(e)
      modifies this`events, this`raw, this`places
      ensures Valid() && raw == old(raw) + [e]
    {
      hide Unread, InBuffer, HandAll, AllHandable, Short;
      if insitu {
        InBufferMore(buf[..], pos, events, places, e, 0);
      }
      PlainHands(e);
      HandJoin(raw, [e]);
      HandableJoin(insitu, raw, [e]);
      ShortJoin(raw, [e]);
      events, places, raw := events + [e], places + [0], raw + [e];
    }

    // ---------- White space

    method SkipWhitespace()
      requires Valid()
      modifies this`pos
      ensures Valid() && pos == SkipSpace(src, old(pos))
    {
      hide Unread, Honest, InBuffer;
      while IsSpace(Cursor())
        invariant Valid() && SkipSpace(src, pos) == SkipSpace(src, old(pos))
        decreases |src| - pos
      {
        Advance();
      }
    }

    /** The rest of a block comment, after its opening. */
    method SkipBlockComment()
      requires Valid() && status == Going
      modifies this`pos, this`status
      ensures Valid() && old(pos) <= pos
      ensures match BlockCommentEnd(src, old(pos))
              case Some(j) => status == Going && pos == j
              case None => status == Failed
    {
      hide Unread, Honest, InBuffer;
      while true
        invariant Valid() && old(pos) <= pos && status == Going
        invariant BlockCommentEnd(src, pos) == BlockCommentEnd(src, old(pos))
        decreases |src| - pos
      {
        if Cursor() == NUL {
          Fail();
          return;
        }
        var star := Consume(STAR);
        if star {
          var slash := Consume(SLASH);
          if slash {
            return;
          }
        } else {
          Advance();
        }
      }
    }

    method SkipLineComment()
      requires Valid()
      modifies this`pos
      ensures Valid() && pos == LineEnd(src, old(pos))
    {
      hide Unread, Honest, InBuffer;
      while Cursor() != NUL
        invariant Valid() && LineEnd(src, pos) == LineEnd(src, old(pos))
        decreases |src| - pos
      {
        var c := Cursor();
        Advance();
        if c == NEWLINE {
          return;
        }
      }
    }

    method SkipComment()
      requires Valid() && status == Going && pos < |src| && src[pos] == SLASH
      modifies this`pos, this`status
      ensures Valid() && old(pos) < pos
      ensures match CommentEnd(src, old(pos))
              case Some(j) => status == Going && pos == j
              case None => status == Failed
    {
      hide Unread, Honest, InBuffer;
      Advance();
      var block := Consume(STAR);
      if block {
        SkipBlockComment();
      } else {
        var line := Consume(SLASH);
        if line {
          SkipLineComment();
        } else {
          Fail();
        }
      }
    }

    method SkipWhitespaceAndComments()
      requires Valid() && status == Going
      modifies this`pos, this`status
      ensures Valid() && old(pos) <= pos
      ensures match Skip(src, flags.comments, old(pos))
              case Some(j) => status == Going && pos == j
              case None => status == Failed
    {
      hide Unread, Honest, InBuffer;
      SkipWhitespace();
      if flags.comments {
        ghost var start := old(pos);
        while Cursor() == SLASH
          invariant Valid() && start <= pos && status == Going && !IsSpace(Peek(src, pos))
          invariant Skip(src, true, pos) == Skip(src, true, start)
          decreases |src| - pos
        {
          SkipNoSpace(src, pos);
          SkipComment();
          if status != Going {
            return;
          }
          SkipAfterSpace(src, pos);
          SkipWhitespace();
        }
        SkipNoSpace(src, pos);
      }
    }

    // ---------- Strings

    /** A string is handed out, `full` being all of it. */
    method HandString(isKey: bool, b: seq<byte>, place: nat, ghost full: seq<byte>)
      requires Valid() && status == Going && LengthOk(insitu, full) && b == Handed(full)
      requires |src| < TWO_32 ==> |full| < TWO_32 - 1
      requires insitu ==> LiesAt(buf[..], pos, b, place)
      modifies this`events, this`raw, this`places
      ensures Valid() && raw == old(raw) + [if isKey then Key(full) else String(full)]
    {
      hide Unread, InBuffer, LiesAt, HandAll, AllHandable, Short, Handed, LengthOk;
      var e := if isKey then Key(b) else String(b);
      ghost var whole := if isKey then Key(full) else String(full);
      if insitu {
        InBufferMore(buf[..], pos, events, places, e, place);
      }
      TextHands(insitu, whole);
      HandJoin(raw, [whole]);
      HandableJoin(insitu, raw, [whole]);
      ShortJoin(raw, [whole]);
      events, places, raw := events + [e], places + [place], raw + [whole];
    }

    /** The text of a string decoded onto the stack. */
    method StringOnStack(isKey: bool) returns (extra: nat)
      requires Valid() && status == Going && !insitu && 1 <= pos
      modifies this`pos, this`events, this`raw, this`places, this`status
      ensures Valid() && old(pos) <= pos && Did(old(raw), StringAt(src, old(pos) - 1, isKey))
      ensures status == Going ==> (extra > 0 <==> !Short(StringAt(src, old(pos) - 1, isKey).events))
    {
      hide Handed, LengthOk, LeftOver;
      extra := 0;
      assert buf[..] == src;
      var t := JsonString.ParseToStack(buf[..], pos);
      ghost var d := JsonString.Decode(src, pos);
      match t {
        case NoString =>
          Fail();
        case Beyond(_) =>
          BothHandIt(d.bytes);
          LostAt(false, if isKey then Key(d.bytes) else String(d.bytes));
          LoseWay();
        case Taken(end, bytes, n) =>
          pos := end;
          extra := n;
          HandString(isKey, bytes, 0, d.bytes);
          ShortOne(if isKey then Key(d.bytes) else String(d.bytes));
      }
    }

    /** A string is decoded where it stands, and the cursor goes behind it. */
    method DecodeInPlace() returns (ok: bool, length: nat)
      requires Valid() && insitu
      modifies this`pos, buf
      ensures Valid() && old(pos) <= pos
      ensures var d := JsonString.Decode(src, old(pos));
              && ok == d.Decoded?
              && (ok ==> pos == d.end && length == |d.bytes| && LiesAt(buf[..], pos, d.bytes, old(pos)))
    {
      hide InBuffer, Honest;
      ghost var before := buf[..];
      var head := pos;
      assert before[head..] == src[head..];
      JsonString.DecodeUnread(before, src, head);
      var next;
      ok, next, length := JsonString.ParseInsitu(buf, head);
      assert before[..head] == buf[..][..head];
      InBufferKept(before, buf[..], head, next, events, places);
      pos := next;
    }

    /** The text of a string decoded in place; its length is asserted to fit. */
    method StringInPlace(isKey: bool)
      requires Valid() && status == Going && insitu && 1 <= pos
      modifies this`pos, this`events, this`raw, this`places, this`status, buf
      ensures Valid() && old(pos) <= pos && Did(old(raw), StringAt(src, old(pos) - 1, isKey))
    {
      hide Unread, InBuffer, Honest, LiesAt, Handed, LengthOk, AllHandable;
      ghost var d := JsonString.Decode(src, pos);
      var head := pos;
      var ok, length := DecodeInPlace();
      if ok {
        BothHandIt(d.bytes);
        if length > TWO_32 - 1 {
          LostAt(true, if isKey then Key(d.bytes) else String(d.bytes));
          LoseWay();
        } else {
          LiesThere(buf[..], pos, d.bytes, head);
          HandString(isKey, buf[head..head + length], head, d.bytes);
        }
      } else {
        Fail();
      }
    }

    /** The reader comes to something that only a text of 2^32 bytes or more can lead to. */
    method LoseWay()
      requires Valid() && |src| >= TWO_32
      modifies this`status
      ensures Valid() && status == Lost
    {
      status := Lost;
    }

    /** `ParseString`, with the number of bytes that it leaves on the stack. */
    method ParseString(isKey: bool) returns (extra: nat)
      requires Valid() && status == Going && pos < |src| && src[pos] == QUOTE
      modifies this`pos, this`events, this`raw, this`places, this`status, buf
      ensures Valid() && old(pos) < pos && Did(old(raw), StringAt(src, old(pos), isKey))
      ensures status == Going ==> (extra > 0 <==> !insitu && !Short(StringAt(src, old(pos), isKey).events))
    {
      hide Unread, Honest, InBuffer, StringAt, Short;
      Advance();
      extra := 0;
      if insitu {
        StringInPlace(isKey);
      } else {
        extra := StringOnStack(isKey);
      }
    }

    // ---------- Other scalars

    /** `ParseNull`, `ParseTrue`, `ParseFalse`: the letters after the first one. */
    method ParseWord(word: seq<byte>, e: Event)
      requires Valid() && status == Going && |word| >= 1 && Peek(src, pos) == word[0] && !IsText(e)
      requires forall k :: 0 <= k < |word| ==> word[k] != NUL
      modifies this`pos, this`events, this`raw, this`places, this`status
      ensures Valid() && old(pos) < pos && Did(old(raw), Literal(src, old(pos), word, e))
    {
      hide Unread, Honest, InBuffer;
      var k := 1;
      ghost var start := pos;
      Advance();
      while k < |word|
        invariant Valid() && 1 <= k <= |word| && pos == start + k && raw == old(raw) && status == Going
        invariant src[start..pos] == word[..k]
      {
        var ok := Consume(word[k]);
        if !ok {
          assert start + |word| <= |src| ==> src[start..start + |word|][k] == src[start + k];
          Fail();
          return;
        }
        assert src[start..pos] == src[start..pos - 1] + [src[pos - 1]];
        assert word[..k + 1] == word[..k] + [word[k]];
        k := k + 1;
      }
      assert word[..|word|] == word;
      Emit(e);
    }

    method ParseNumber()
      requires Valid() && status == Going
      modifies this`pos, this`events, this`raw, this`places, this`status
      ensures Valid() && old(pos) <= pos
      ensures match JsonNumber.NumberAt(src, old(pos))
              case Some((end, e)) => status == Going && pos == end && raw == old(raw) + [e]
              case None => status == Failed && raw == old(raw)
    {
      hide Honest, InBuffer, JsonNumber.NumberAt;
      assert buf[..][pos..] == src[pos..];
      JsonNumber.NumberUnread(buf[..], src, pos);
      var n := JsonNumber.ParseNumber(buf[..], pos);
      match n {
        case None =>
          Fail();
        case Some((end, e)) =>
          NumberIsNoText(src, pos);
          MoveTo(end);
          Emit(e);
      }
    }

    method MoveTo(end: nat)
      requires Valid() && pos <= end <= |src|
      modifies this`pos
      ensures Valid() && pos == end
    {
      hide Honest;
      if insitu {
        InBufferKept(buf[..], buf[..], pos, end, events, places);
      }
      pos := end;
    }

    method ParseScalar() returns (extra: nat)
      requires Valid() && status == Going && Peek(src, pos) != LBRACE && Peek(src, pos) != LBRACKET
      modifies this`pos, this`events, this`raw, this`places, this`status, buf
      ensures Valid() && old(pos) <= pos && Did(old(raw), Scalar(src, old(pos)))
      ensures status == Going ==> (extra > 0 <==> !insitu && !Short(Scalar(src, old(pos)).events))
    {
      hide Unread, Honest, InBuffer, JsonNumber.NumberAt, Short, StringAt, Literal;
      extra := 0;
      var c := Cursor();
      WordIsNoText(src, pos);
      if c == NULL_WORD[0] {
        ParseWord(NULL_WORD, Null);
      } else if c == TRUE_WORD[0] {
        ParseWord(TRUE_WORD, Bool(true));
      } else if c == FALSE_WORD[0] {
        ParseWord(FALSE_WORD, Bool(false));
      } else if c == QUOTE {
        extra := ParseString(false);
      } else {
        NumberIsNoText(src, pos);
        ParseNumber();
      }
    }

    // ---------- Parsing by recursion

    /** Doing a result after some events is doing the result that sends them first. */
    lemma DidAfter(before: seq<Event>, sent: seq<Event>, r: Result)
      requires Did(before + sent, r)
      ensures Did(before, Send(sent, r))
    {
      HandableJoin(insitu, sent, r.events);
      assert before + (sent + r.events) == before + sent + r.events;
    }

    /** What is lost in a part of a result is lost in all of it. */
    lemma LostInPart(part: seq<Event>, rest: seq<Event>)
      ensures !AllHandable(insitu, part) ==> !AllHandable(insitu, part + rest)
    {
      HandableJoin(insitu, part, rest);
    }

    /** `ParseArray`. */
    method ParseArray()
      requires Valid() && status == Going && pos < |src| && src[pos] == LBRACKET
      modifies this`pos, this`events, this`raw, this`places, this`status, buf
      ensures Valid() && old(pos) < pos && Did(old(raw), Value(src, flags, old(pos)))
      decreases |src| - pos, 2
    {
      hide Skip, Scalar, Value, ArrayOpened, Element, Unread, Honest, InBuffer, AllHandable;
      ghost var result := Value(src, flags, pos);
      UnfoldArray(src, flags, pos);
      Advance();
      Emit(StartArray);
      SkipWhitespaceAndComments();
      if status != Going {
        return;
      }
      UnfoldArrayOpened(src, flags, pos);
      var empty := Consume(RBRACKET);
      if empty {
        Emit(EndArray(0));
        assert raw == old(raw) + ([StartArray] + [EndArray(0)]);
        return;
      }
      var elementCount: nat, more := 0, true;
      ghost var sent := [StartArray];
      while more
        invariant Valid() && old(pos) < pos
        invariant more ==> status == Going && raw == old(raw) + sent
        invariant more ==> result == Send(sent, Element(src, flags, pos, elementCount))
        invariant !more ==> Did(old(raw), result)
        decreases more, |src| - pos
      {
        ghost var r := Element(src, flags, pos, elementCount);
        ghost var now;
        more, elementCount, now := ParseElement(elementCount);
        if more {
          SendTwice(sent, now, Element(src, flags, pos, elementCount));
          assert old(raw) + (sent + now) == old(raw) + sent + now;
          sent := sent + now;
        } else {
          DidAfter(old(raw), sent, r);
        }
      }
    }

    /** One turn of the loop over the elements; `more` tells whether there is another. */
    method ParseElement(n: nat) returns (more: bool, n': nat, ghost sent: seq<Event>)
      requires Valid() && status == Going
      modifies this`pos, this`events, this`raw, this`places, this`status, buf
      ensures Valid() && old(pos) <= pos
      ensures more ==> status == Going && old(pos) < pos && raw == old(raw) + sent
      ensures more ==> Element(src, flags, old(pos), n) == Send(sent, Element(src, flags, pos, n'))
      ensures !more ==> Did(old(raw), Element(src, flags, old(pos), n))
      decreases |src| - pos, 4
    {
      hide Skip, Scalar, Value, Element, AfterElement, Unread, Honest, InBuffer, AllHandable;
      UnfoldElement(src, flags, pos, n);
      n' := Next(n);
      ghost var v, whole := Value(src, flags, pos), Element(src, flags, pos, n);
      sent := v.events;
      ParseValue();
      if status != Going {
        LostInPart(v.events, whole.events[|v.events|..]);
        assert v.events + whole.events[|v.events|..] == whole.events;
        more := false;
        return;
      }
      SkipWhitespaceAndComments();
      if status != Going {
        more := false;
        return;
      }
      ghost var r := AfterElement(src, flags, pos, n');
      more := AfterValue(n');
      if !more {
        DidAfter(old(raw), sent, r);
      }
    }

    /** After an element: a comma, or the end of the array. */
    method AfterValue(n: nat) returns (more: bool)
      requires Valid() && status == Going
      modifies this`pos, this`events, this`raw, this`places, this`status
      ensures Valid() && old(pos) <= pos
      ensures more ==> status == Going && old(pos) < pos && raw == old(raw)
      ensures more ==> AfterElement(src, flags, old(pos), n) == Element(src, flags, pos, n)
      ensures !more ==> Did(old(raw), AfterElement(src, flags, old(pos), n))
    {
      hide Skip, Scalar, Value, Element, AfterElement, AfterElementComma, Unread, Honest, InBuffer;
      UnfoldAfterElement(src, flags, pos, n);
      more := Consume(COMMA);
      if more {
        SkipWhitespaceAndComments();
        if status != Going {
          more := false;
          return;
        }
        UnfoldAfterElementComma(src, flags, pos, n);
        if flags.trailingCommas && Cursor() == RBRACKET {
          Emit(EndArray(n));
          Advance();
          more := false;
        }
      } else {
        var close := Consume(RBRACKET);
        if close {
          Emit(EndArray(n));
        } else {
          Fail();
        }
      }
    }

    /** `ParseObject`. */
    method ParseObject()
      requires Valid() && status == Going && pos < |src| && src[pos] == LBRACE
      modifies this`pos, this`events, this`raw, this`places, this`status, buf
      ensures Valid() && old(pos) < pos && Did(old(raw), Value(src, flags, old(pos)))
      decreases |src| - pos, 2
    {
      hide Skip, Scalar, Value, ObjectOpened, Name, Unread, Honest, InBuffer, AllHandable;
      ghost var result := Value(src, flags, pos);
      UnfoldObject(src, flags, pos);
      Advance();
      Emit(StartObject);
      SkipWhitespaceAndComments();
      if status != Going {
        return;
      }
      UnfoldObjectOpened(src, flags, pos);
      var empty := Consume(RBRACE);
      if empty {
        Emit(EndObject(0));
        assert raw == old(raw) + ([StartObject] + [EndObject(0)]);
        return;
      }
      var memberCount: nat, more := 0, true;
      ghost var sent := [StartObject];
      while more
        invariant Valid() && old(pos) < pos
        invariant more ==> status == Going && raw == old(raw) + sent
        invariant more ==> result == Send(sent, Name(src, flags, pos, memberCount))
        invariant !more ==> Did(old(raw), result)
        decreases more, |src| - pos
      {
        ghost var r := Name(src, flags, pos, memberCount);
        ghost var now;
        more, memberCount, now := ParseMember(memberCount);
        if more {
          SendTwice(sent, now, Name(src, flags, pos, memberCount));
          assert old(raw) + (sent + now) == old(raw) + sent + now;
          sent := sent + now;
        } else {
          DidAfter(old(raw), sent, r);
        }
      }
    }

    /** One turn of the loop over the members. */
    method ParseMember(n: nat) returns (more: bool, n': nat, ghost sent: seq<Event>)
      requires Valid() && status == Going
      modifies this`pos, this`events, this`raw, this`places, this`status, buf
      ensures Valid() && old(pos) <= pos
      ensures more ==> status == Going && old(pos) < pos && raw == old(raw) + sent
      ensures more ==> Name(src, flags, old(pos), n) == Send(sent, Name(src, flags, pos, n'))
      ensures !more ==> Did(old(raw), Name(src, flags, old(pos), n))
      decreases |src| - pos, 1
    {
      hide Skip, Scalar, Value, Name, AfterName, StringAt, Unread, Honest, InBuffer, AllHandable, Short;
      UnfoldName(src, flags, pos, n);
      more, n', sent := false, n, [];
      if Cursor() != QUOTE {
        Fail();
        return;
      }
      ghost var key, whole := StringAt(src, pos, true).events, Name(src, flags, pos, n);
      var extra := ParseString(true);
      if status != Going {
        LostInPart(key, whole.events[|key|..]);
        assert key + whole.events[|key|..] == whole.events;
        return;
      }
      SkipWhitespaceAndComments();
      if status != Going {
        return;
      }
      ghost var r := AfterName(src, flags, pos, n);
      more, n', sent := ParseMemberValue(n);
      if more {
        SendTwice(key, sent, Name(src, flags, pos, n'));
        sent := key + sent;
      } else {
        DidAfter(old(raw), key, r);
      }
    }

    /** The colon and the value of a member, and what follows them. */
    method ParseMemberValue(n: nat) returns (more: bool, n': nat, ghost sent: seq<Event>)
      requires Valid() && status == Going
      modifies this`pos, this`events, this`raw, this`places, this`status, buf
      ensures Valid() && old(pos) <= pos
      ensures more ==> status == Going && old(pos) < pos && raw == old(raw) + sent
      ensures more ==> AfterName(src, flags, old(pos), n) == Send(sent, Name(src, flags, pos, n'))
      ensures !more ==> Did(old(raw), AfterName(src, flags, old(pos), n))
      decreases |src| - pos, 0
    {
      hide Skip, Scalar, Value, Name, AfterName, MemberValue, AfterMember, Unread, Honest, InBuffer, AllHandable;
      UnfoldAfterName(src, flags, pos, n);
      more, n', sent := false, Next(n), [];
      var colon := Consume(COLON);
      if !colon {
        Fail();
        return;
      }
      SkipWhitespaceAndComments();
      if status != Going {
        return;
      }
      UnfoldMemberValue(src, flags, pos, n);
      ghost var v, whole := Value(src, flags, pos), MemberValue(src, flags, pos, n);
      ParseValue();
      sent := v.events;
      if status != Going {
        LostInPart(v.events, whole.events[|v.events|..]);
        assert v.events + whole.events[|v.events|..] == whole.events;
        return;
      }
      SkipWhitespaceAndComments();
      if status != Going {
        return;
      }
      ghost var r := AfterMember(src, flags, pos, n');
      more := AfterMemberValue(n');
      if !more {
        DidAfter(old(raw), sent, r);
      }
    }

    /** After a member: a comma, or the end of the object. */
    method AfterMemberValue(n: nat) returns (more: bool)
      requires Valid() && status == Going
      modifies this`pos, this`events, this`raw, this`places, this`status
      ensures Valid() && old(pos) <= pos
      ensures more ==> status == Going && old(pos) < pos && raw == old(raw)
      ensures more ==> AfterMember(src, flags, old(pos), n) == Name(src, flags, pos, n)
      ensures !more ==> Did(old(raw), AfterMember(src, flags, old(pos), n))
    {
      hide Skip, Scalar, Value, Name, AfterMember, AfterMemberComma, Unread, Honest, InBuffer;
      UnfoldAfterMember(src, flags, pos, n);
      more := false;
      var c := Cursor();
      if c == COMMA {
        Advance();
        SkipWhitespaceAndComments();
        if status != Going {
          return;
        }
        UnfoldAfterMemberComma(src, flags, pos, n);
        if flags.trailingCommas && Cursor() == RBRACE {
          Emit(EndObject(n));
          Advance();
        } else {
          more := true;
        }
      } else if c == RBRACE {
        Advance();
        Emit(EndObject(n));
      } else {
        Fail();
      }
    }

    /** `ParseValue`. */
    method ParseValue()
      requires Valid() && status == Going
      modifies this`pos, this`events, this`raw, this`places, this`status, buf
      ensures Valid() && old(pos) <= pos && Did(old(raw), Value(src, flags, old(pos)))
      decreases |src| - pos, 3
    {
      hide Unread, Honest, InBuffer, AllHandable, Scalar, Short, ArrayOpened, ObjectOpened, Skip;
      var c := Cursor();
      if c == LBRACKET {
        ParseArray();
      } else if c == LBRACE {
        ParseObject();
      } else {
        var extra := ParseScalar();
      }
    }

    /** `Parse`: the reader does what the grammar says of the whole text, or is lost exactly
        if the text has a string that cannot be handed out. */
    method Parse()
      requires Valid() && pos == 0 && status == Going && raw == []
      modifies this`pos, this`events, this`raw, this`places, this`status, buf
      ensures Valid() && Did([], Document(src, flags))
    {
      hide Skip, Value, Unread, Honest, InBuffer, AllHandable;
      SkipWhitespaceAndComments();
      if status != Going {
        return;
      }
      if Cursor() == NUL {
        Fail();
        return;
      }
      ghost var v, whole := Value(src, flags, pos), Document(src, flags);
      ParseValue();
      if status != Going {
        LostInPart(v.events, whole.events[|v.events|..]);
        assert v.events + whole.events[|v.events|..] == whole.events;
        return;
      }
      if !flags.stopWhenDone {
        SkipWhitespaceAndComments();
        if status != Going {
          return;
        }
        if Cursor() != NUL {
          Fail();
        }
      }
    }

    // ---------- Parsing by table

    /** The marks say on which frames bytes lie. */
    ghost predicate Piled()
      reads this`left, this`raw
    {
      if insitu then forall k :: 0 <= k < |left| ==> left[k] == 0 else Marks([], raw) == Some(Lying(left))
    }

    /** The reader is lost at a string that cannot be handed out, or at the end of an array or
        object on whose frame bytes lie. */
    ghost predicate Strayed(before: seq<Event>, r: Result) {
      !AllHandable(insitu, r.events) || (!insitu && Marks([], before + r.events).None?)
    }

    /** A step of the machine from `state` with `due0` at `p0`, after `before`, has led
        to state `d`: what the grammar had to read is what was sent and what it has still
        to read; or the machine has failed where the grammar fails, or is lost. */
    ghost predicate Stepped(state: IterativeState, p0: nat, due0: seq<Frame>, before: seq<Event>,
                            d: IterativeState, sent: seq<Event>)
      requires p0 <= |src| && Shape(state, due0)
      reads this
    {
      var r := Resume(src, flags, state, p0, due0);
      if status == Lost then d == ErrorState && Strayed(before, r)
      else if d == ErrorState then r.Error? && raw == before + r.events && (!insitu ==> Marks([], raw).Some?)
      else
        && status == Going && d != Start && p0 < pos <= |src| && Shape(d, due) && Piled()
        && raw == before + sent
        && r == Send(sent, Continue(src, flags, d, pos, due))
    }

    /** An array or object is opened. */
    method TransitOpen(state: IterativeState, dst: IterativeState) returns (ghost sent: seq<Event>)
      requires Valid() && status == Going && pos < |src| && Shape(state, due) && Piled() && src[pos] != NUL
      requires dst == Predict(state, Tokenize(src[pos])) && (dst == ObjectInitial || dst == ArrayInitial)
      modifies this`pos, this`stack, this`left, this`due, this`events, this`raw, this`places
      ensures Valid() && Stepped(state, old(pos), old(due), old(raw), dst, sent)
    {
      hide Resume, Continue, Unread, Honest, InBuffer, Framed, Piled, Shape, Predict, Tokenize;
      OpenTransit(src, flags, state, pos, due, dst);
      var n := state;
      if state == ArrayInitial || state == ElementDelimiter {
        n := ElementState;
      } else if state == KeyValueDelimiter {
        n := MemberValueState;
      }
      var e := if dst == ObjectInitial then StartObject else StartArray;
      sent := [e];
      Push(n, e);
    }

    /** Bytes of a string that was sent stay on the stack, on top of the innermost frame. */
    method Leave(extra: nat, ghost before: seq<Event>, ghost e: Event)
      requires Valid() && raw == before + [e]
      requires extra > 0 <==> !insitu && IsText(e) && LeftOver(TextOf(e)) > 0
      requires !IsBracket(e)
      requires if insitu then (forall k :: 0 <= k < |left| ==> left[k] == 0) else Marks([], before) == Some(Lying(left))
      modifies this`left
      ensures Valid() && Piled()
    {
      hide Unread, Honest, InBuffer, Marks, LeftOver;
      if |left| > 0 {
        var n := |left| - 1;
        left := left[n := left[n] + extra];
      }
      if !insitu {
        MarksJoin([], before, [e]);
        MarksOne(Lying(old(left)), e);
        ghost var m, n := Lying(old(left)), |left| - 1;
        assert Lying(left) == if extra > 0 && left != [] then m[n := true] else m;
      }
    }

    /** A value that is neither an array nor an object. */
    method TransitScalar(state: IterativeState, dst: IterativeState) returns (d: IterativeState, ghost sent: seq<Event>)
      requires Valid() && status == Going && pos < |src| && Shape(state, due) && Piled() && src[pos] != NUL
      requires dst == Predict(state, Tokenize(src[pos]))
      requires || dst == SingleValue
               || (AtValue(state, Tokenize(src[pos])) && (dst == ElementState || dst == MemberValueState))
      modifies this`pos, this`left, this`status, this`events, this`raw, this`places, buf
      ensures Valid() && Stepped(state, old(pos), old(due), old(raw), d, sent)
    {
      hide Resume, Continue, Scalar, Unread, Honest, InBuffer, Framed, Marks, Short, AllHandable, Shape, Predict,
        Tokenize, AtValue;
      ScalarStep(src, flags, state, pos, due, dst);
      ghost var v, r := Scalar(src, pos), Resume(src, flags, state, pos, due);
      ScalarIsOne(src, pos);
      sent := v.events;
      var extra := ParseScalar();
      if status != Going {
        Stray(insitu, v.events, r.events);
        assert old(raw) + [] == old(raw);
        return ErrorState, sent;
      }
      OneLeaves(sent[0]);
      Leave(extra, old(raw), sent[0]);
      d := if dst == SingleValue then Finish else dst;
    }

    method TransitKey(state: IterativeState) returns (d: IterativeState, ghost sent: seq<Event>)
      requires Valid() && status == Going && pos < |src| && Shape(state, due) && Piled() && src[pos] == QUOTE
      requires state == ObjectInitial || state == MemberDelimiter
      modifies this`pos, this`left, this`status, this`events, this`raw, this`places, buf
      ensures Valid() && Stepped(state, old(pos), old(due), old(raw), d, sent)
    {
      hide Resume, Continue, StringAt, Unread, Honest, InBuffer, Framed, Marks, Short, AllHandable;
      KeyStep(src, flags, state, pos, due);
      ghost var k, r := StringAt(src, pos, true), Resume(src, flags, state, pos, due);
      StringIsOne(src, pos);
      sent := k.events;
      var extra := ParseString(true);
      if status != Going {
        Stray(insitu, k.events, r.events);
        assert old(raw) + [] == old(raw);
        return ErrorState, sent;
      }
      OneLeaves(sent[0]);
      Leave(extra, old(raw), sent[0]);
      d := MemberKey;
    }

    /** The end of an array or object: its count and the state before it come off the stack,
        if they are what is on top. */
    method TransitClose(state: IterativeState, dst: IterativeState) returns (d: IterativeState, ghost sent: seq<Event>)
      requires Valid() && status == Going && pos < |src| && Shape(state, due) && Piled() && src[pos] != NUL
      requires dst == Predict(state, Tokenize(src[pos])) && (dst == ObjectFinish || dst == ArrayFinish)
      modifies this`pos, this`stack, this`left, this`due, this`status, this`events, this`raw, this`places
      ensures Valid() && Stepped(state, old(pos), old(due), old(raw), d, sent)
    {
      hide Resume, Continue, Predict, Tokenize, Unread, Honest, InBuffer, Marks, Frames;
      PredictFacts(state, src[pos]);
      ShapeStack(state, due);
      sent := [];
      if !flags.trailingCommas && (state == MemberDelimiter || state == ElementDelimiter) {
        ErrorStep(src, flags, state, pos, due);
        assert raw + [] == raw;
        Fail();
        return ErrorState, sent;
      }
      CloseTransit(src, flags, state, pos, due, dst);
      if left[|stack| - 1] > 0 {
        Misread(Resume(src, flags, state, pos, due));
        return ErrorState, sent;
      }
      d, sent := PopFrame(state, dst);
    }

    method PopFrame(state: IterativeState, dst: IterativeState) returns (d: IterativeState, ghost sent: seq<Event>)
      requires Valid() && status == Going && pos < |src| && Shape(state, due) && Piled() && src[pos] != NUL
      requires dst == Predict(state, Tokenize(src[pos])) && (dst == ObjectFinish || dst == ArrayFinish)
      requires flags.trailingCommas || (state != MemberDelimiter && state != ElementDelimiter)
      requires stack != [] && left[|stack| - 1] == 0
      modifies this`pos, this`stack, this`left, this`due, this`events, this`raw, this`places
      ensures Valid() && Stepped(state, old(pos), old(due), old(raw), d, sent)
    {
      hide Resume, Continue, Predict, Tokenize, Unread, Honest, InBuffer, Piled, Shape;
      CloseTransit(src, flags, state, pos, due, dst);
      var n := |stack| - 1;
      var top := stack[n];
      var c := top.count;
      if state == MemberValueState || state == ElementState {
        c := Next(c);
      }
      var e := if dst == ObjectFinish then EndObject(c) else EndArray(c);
      d := if top.state == Start then Finish else top.state;
      sent := [e];
      Drop(e);
    }

    /** A frame for an array or object goes onto the stack, and its start is passed. */
    method Push(n: IterativeState, e: Event)
      requires Valid() && status == Going && pos < |src| && (e.StartArray? || e.StartObject?) && Piled()
      modifies this`pos, this`stack, this`left, this`due, this`events, this`raw, this`places
      ensures Valid() && pos == old(pos) + 1 && raw == old(raw) + [e] && Piled()
      ensures due == old(due) + [Frame(n, 0)]
    {
      hide Unread, Honest, InBuffer, Marks;
      MarksJoin([], raw, [e]);
      MarksOne(Lying(left), e);
      stack, left, due := stack + [Frame(n, 0)], left + [0], due + [Frame(n, 0)];
      assert Lying(left) == Lying(old(left)) + [false];
      Emit(e);
      Advance();
    }

    /** The innermost frame comes off the stack, and its end is passed. */
    method Drop(e: Event)
      requires Valid() && status == Going && pos < |src| && (e.EndArray? || e.EndObject?) && Piled()
      requires stack != [] && left[|stack| - 1] == 0
      modifies this`pos, this`stack, this`left, this`due, this`events, this`raw, this`places
      ensures Valid() && pos == old(pos) + 1 && raw == old(raw) + [e] && Piled()
      ensures due == old(due)[..|old(due)| - 1]
    {
      hide Unread, Honest, InBuffer, Marks;
      var n := |stack| - 1;
      MarksJoin([], raw, [e]);
      MarksOne(Lying(left), e);
      stack, left, due := stack[..n], left[..n], due[..n];
      assert Lying(left) == Lying(old(left))[..n];
      Emit(e);
      Advance();
    }

    /** The bytes of a string are taken for a count and a state. */
    method Misread(ghost r: Result)
      requires Valid() && status == Going && Piled() && stack != [] && left[|stack| - 1] > 0
      requires r.events != [] && (r.events[0].EndArray? || r.events[0].EndObject?)
      modifies this`status
      ensures Valid() && status == Lost && Strayed(old(raw), r)
    {
      hide Unread, InBuffer, AllHandable, HandAll;
      MarksJoin([], raw, r.events);
      ghost var n := |left| - 1;
      assert Lying(left)[n];
      if |src| < TWO_32 {
        ShortMarks([], raw);
        assert false;
      }
      LoseWay();
    }

    /** What is on top of the stack is counted up: the count of the innermost frame, unless
        bytes lie on it. */
    method CountUp()
      requires Valid() && due != []
      modifies this`stack, this`due
      ensures Valid() && |due| == |old(due)|
      ensures var n := |due| - 1; due == old(due)[n := old(due)[n].(count := Next(old(due)[n].count))]
    {
      hide Unread, Honest, InBuffer;
      var n := |stack| - 1;
      if left[n] == 0 {
        stack := stack[n := stack[n].(count := Next(stack[n].count))];
      }
      due := due[n := due[n].(count := Next(due[n].count))];
    }

    method TransitComma(state: IterativeState, dst: IterativeState) returns (d: IterativeState)
      requires Valid() && status == Going && pos < |src| && Shape(state, due) && Piled() && src[pos] == COMMA
      requires dst == Predict(state, Tokenize(src[pos])) && (dst == MemberDelimiter || dst == ElementDelimiter)
      modifies this`pos, this`stack, this`due
      ensures Valid() && Stepped(state, old(pos), old(due), old(raw), d, [])
    {
      hide Resume, Continue, Unread, Honest, InBuffer, Piled, Shape, Predict, Tokenize, Framed, Strayed, Send;
      CommaTransit(src, flags, state, pos, due, dst);
      CountUp();
      Advance();
      assert raw + [] == raw;
      d := dst;
    }

    /** `Transit`. */
    method Transit(state: IterativeState, dst: IterativeState) returns (d: IterativeState, ghost sent: seq<Event>)
      requires Valid() && status == Going && pos < |src| && Shape(state, due) && Piled() && src[pos] != NUL
      requires dst == Predict(state, Tokenize(src[pos]))
      modifies this, buf
      ensures Valid() && Stepped(state, old(pos), old(due), old(raw), d, sent)
    {
      hide Resume, Continue, Predict, Tokenize, Unread, Honest, InBuffer, Framed, Marks, AllHandable;
      PredictFacts(state, src[pos]);
      sent := [];
      if dst == ErrorState {
        ErrorStep(src, flags, state, pos, due);
        assert raw + [] == raw;
        d := ErrorState;
      } else if dst == ObjectInitial || dst == ArrayInitial {
        sent := TransitOpen(state, dst);
        d := dst;
      } else if dst == MemberKey {
        d, sent := TransitKey(state);
      } else if dst == KeyValueDelimiter {
        ColonStep(src, flags, pos, due);
        SendNothing(Continue(src, flags, dst, pos + 1, due));
        Advance();
        assert raw + [] == raw;
        d := dst;
      } else if dst == MemberDelimiter || dst == ElementDelimiter {
        d := TransitComma(state, dst);
      } else if dst == ObjectFinish || dst == ArrayFinish {
        d, sent := TransitClose(state, dst);
      } else {
        d, sent := TransitScalar(state, dst);
      }
    }

    /** `IterativeParse`: it does what `Parse` does unless it is lost. In place it is lost
        exactly if `Parse` is. Otherwise it also is, exactly if an array or object ends in
        which a string or name reached 2^32 - 1 bytes. */
    method IterativeParse()
      requires Valid() && pos == 0 && status == Going && raw == [] && stack == [] && due == []
      modifies this, buf
      ensures Valid()
      ensures status != Lost ==> Did([], Document(src, flags))
      ensures status == Lost <==> Strayed([], Document(src, flags))
    {
      assert left == [] && Shape(Start, due);
      hide Shape, Skip, Resume, Document, Unread, Honest, InBuffer, Framed, Marks, Predict, Tokenize, Strayed;
      DocumentIsResume(src, flags);
      NothingLies();
      var state := Start;
      SkipWhitespaceAndComments();
      ghost var doc := Document(src, flags);
      if status != Going {
        NotStrayed(doc);
        return;
      }
      SendNothing(doc);
      while Cursor() != NUL
        invariant Valid() && status == Going && Shape(state, due) && Piled()
        invariant doc == Send(raw, Resume(src, flags, state, pos, due))
        decreases |src| - pos
      {
        ghost var sent, before, r := [], raw, Resume(src, flags, state, pos, due);
        var d;
        d, sent := Transit(state, Predict(state, Tokenize(Cursor())));
        if d == ErrorState {
          if status == Lost {
            StrayedInAll(before, r, doc);
          }
          if status == Going {
            Fail();
          }
          if status != Lost {
            NotStrayed(doc);
          }
          return;
        }
        SendTwice(before, sent, Continue(src, flags, d, pos, due));
        state := d;
        if flags.stopWhenDone && state == Finish {
          assert raw + [] == raw;
          NotStrayed(doc);
          return;
        }
        SkipWhitespaceAndComments();
        if status != Going {
          assert raw + [] == raw;
          NotStrayed(doc);
          return;
        }
      }
      ErrorStep(src, flags, state, pos, due);
      assert raw + [] == raw;
      if state != Finish {
        Fail();
      }
      NotStrayed(doc);
    }

    lemma StrayedInAll(before: seq<Event>, r: Result, doc: Result)
      requires Strayed(before, r) && doc.events == before + r.events
      ensures Strayed([], doc)
    {
      hide AllHandable, Marks;
      StrayInAll(insitu, before, r.events);
    }

    lemma NotStrayed(r: Result)
      requires Honest() && status != Lost && raw == r.events && (!insitu ==> Marks([], raw).Some?)
      ensures !Strayed([], r) && [] + r.events == r.events
    {
      hide Marks, AllHandable, HandAll;
      assert [] + r.events == r.events;
    }
  }

  lemma PlainHands(e: Event)
    requires !IsText(e)
    ensures HandAll([e]) == [e] && Short([e]) && AllHandable(true, [e]) && AllHandable(false, [e])
  {
  }

  lemma TextHands(insitu: bool, e: Event)
    requires IsText(e) && LengthOk(insitu, TextOf(e))
    ensures HandAll([e]) == [Hand(e)] && AllHandable(insitu, [e])
    ensures |TextOf(e)| < TWO_32 - 1 ==> Short([e])
  {
  }

  lemma LostAt(insitu: bool, e: Event)
    requires IsText(e) && !LengthOk(insitu, TextOf(e))
    ensures !AllHandable(insitu, [e])
  {
    assert !Handable(insitu, [e][0]);
  }

  lemma ShortOne(e: Event)
    requires IsText(e)
    ensures Short([e]) <==> |TextOf(e)| < TWO_32 - 1
  {
    assert Short([e]) ==> |TextOf([e][0])| < TWO_32 - 1;
  }

  lemma {:induction false} SkipNoSpace(s: seq<byte>, i: nat)
    requires i <= |s| && !IsSpace(Peek(s, i))
    ensures SkipSpace(s, i) == i
  {
  }

  /** Skipping again after the white space is skipped changes nothing. */
  lemma {:induction false} SkipAfterSpace(s: seq<byte>, i: nat)
    requires i <= |s|
    ensures Skip(s, true, SkipSpace(s, i)) == Skip(s, true, i)
  {
    SkipNoSpace(s, SkipSpace(s, i));
  }

  lemma {:induction false} NumberIsNoText(s: seq<byte>, i: nat)
    requires i <= |s|
    ensures JsonNumber.NumberAt(s, i).Some? ==>
              !IsText(JsonNumber.NumberAt(s, i).value.1) && Short([JsonNumber.NumberAt(s, i).value.1])
  {
    hide JsonNumber.Scan;
  }

  lemma WordIsNoText(s: seq<byte>, i: nat)
    requires i <= |s|
    ensures Short(Literal(s, i, NULL_WORD, Null).events)
    ensures Short(Literal(s, i, TRUE_WORD, Bool(true)).events) && Short(Literal(s, i, FALSE_WORD, Bool(false)).events)
  {
  }

  lemma LiesThere(buf: seq<byte>, low: nat, b: seq<byte>, p: nat)
    requires low <= |buf| && LiesAt(buf, low, b, p)
    ensures p + |b| < low && buf[p..p + |b|] == b
  {
  }

  // ---------- Bytes that stay on the stack

  function Lying(left: seq<nat>): (m: seq<bool>)
    ensures |m| == |left| && forall k :: 0 <= k < |left| ==> m[k] == (left[k] > 0)
  {
    seq(|left|, k requires 0 <= k < |left| => left[k] > 0)
  }

  lemma NothingLies()
    ensures Marks([], []) == Some(Lying([]))
  {
  }

  lemma OneLeaves(e: Event)
    ensures !Short([e]) <==> IsText(e) && LeftOver(TextOf(e)) > 0
  {
    if IsText(e) {
      ShortOne(e);
    }
  }

  /** A string or name that is read is one event. */
  lemma {:induction false} StringIsOne(s: seq<byte>, i: nat)
    requires i < |s|
    ensures var r := StringAt(s, i, true);
            && (r.Ok? ==> |r.events| == 1 && IsText(r.events[0]) && r.events == [r.events[0]])
            && (r.Error? ==> r.events == [])
  {
    hide JsonString.Decode;
  }

  lemma {:induction false} ScalarIsOne(s: seq<byte>, i: nat)
    requires i <= |s|
    ensures var r := Scalar(s, i);
            && (r.Ok? ==> |r.events| == 1 && r.events == [r.events[0]] && !IsBracket(r.events[0]))
            && (r.Error? ==> r.events == [])
  {
    hide JsonNumber.Scan, JsonString.Decode;
  }

  predicate IsBracket(e: Event) {
    e.StartArray? || e.StartObject? || e.EndArray? || e.EndObject?
  }

  /** What cannot be handed out of a part makes the whole stray. */
  lemma Stray(insitu: bool, part: seq<Event>, all: seq<Event>)
    requires part <= all
    ensures !AllHandable(insitu, part) ==> !AllHandable(insitu, all)
  {
    hide AllHandable;
    var rest := all[|part|..];
    assert part + rest == all;
    HandableJoin(insitu, part, rest);
  }

  lemma StrayInAll(insitu: bool, before: seq<Event>, events: seq<Event>)
    ensures !AllHandable(insitu, events) ==> !AllHandable(insitu, before + events)
    ensures [] + (before + events) == before + events
  {
    hide AllHandable;
    HandableJoin(insitu, before, events);
  }

  // ---------- What comes of a text

  /** What the handler has got, and where the reader stopped; nothing is known of a reader
      that was lost. */
  datatype Outcome = Accepted(pos: nat, events: seq<Event>) | Rejected(events: seq<Event>) | Undefined

  /** A result of the grammar as it reaches the handler. */
  function Shown(insitu: bool, r: Result): Outcome {
    if !AllHandable(insitu, r.events) then Undefined
    else
      match r
      case Ok(p, ev) => Accepted(p, HandAll(ev))
      case Error(ev) => Rejected(HandAll(ev))
  }

  /** A reader of this kind is lost in a text with these events: at a string that cannot be
      handed out, or at the end of an array or object on whose frame bytes of a string lie. */
  predicate Strays(insitu: bool, iterative: bool, events: seq<Event>) {
    !AllHandable(insitu, events) || (iterative && !insitu && Marks([], events).None?)
  }

  /** What each kind of reader makes of a text. */
  predicate Reports(text: seq<byte>, flags: Flags, insitu: bool, iterative: bool, o: Outcome) {
    var r := Document(text, flags);
    && (if Strays(insitu, iterative, r.events) then o.Undefined? else !o.Undefined? && o == Shown(insitu, r))
    && (|text| < TWO_32 ==> !o.Undefined? && Short(r.events))
  }

  /** A text is parsed, in place or not, in either way. In place every string that was handed
      out is still where it was at the end; otherwise the text is left alone. */
  method ParseBuffer(buf: array<byte>, flags: Flags, insitu: bool, iterative: bool)
    returns (o: Outcome, places: seq<nat>)
    modifies buf
    ensures Reports(old(buf[..]), flags, insitu, iterative, o)
    ensures insitu && !o.Undefined? ==> InBuffer(buf[..], buf.Length, o.events, places)
    ensures !insitu ==> buf[..] == old(buf[..])
  {
    hide Document, AllHandable, Short, InBuffer;
    var reader := new Reader(buf, flags, insitu);
    ghost var doc := Document(buf[..], flags);
    if iterative {
      reader.IterativeParse();
    } else {
      reader.Parse();
    }
    assert [] + doc.events == doc.events;
    places := reader.places;
    o := match reader.status
         case Lost => Undefined
         case Failed => Rejected(reader.events)
         case Going => Accepted(reader.pos, reader.events);
    if insitu && reader.status != Lost {
      InBufferKept(buf[..], buf[..], reader.pos, buf.Length, reader.events, reader.places);
    }
  }

  method ToBuffer(text: seq<byte>) returns (buf: array<byte>)
    ensures fresh(buf) && buf[..] == text
  {
    buf := new byte[|text|](k requires 0 <= k < |text| => text[k]);
  }

  /** Both ways to parse one text: the same verdict, the same events with the same counts,
      and the same place reached when it is accepted, unless the table-driven one is lost.
      That is so exactly if the other one is, or an array or object ends in which a string or
      name has 2^32 - 1 bytes or more; and never for a text of fewer than 2^32 bytes. */
  method ParseBothWays(text: seq<byte>, flags: Flags) returns (recursive: Outcome, iterative: Outcome)
    ensures recursive == Shown(false, Document(text, flags))
    ensures !iterative.Undefined? ==> iterative == recursive
    ensures iterative.Undefined? <==> Strays(false, true, Document(text, flags).events)
    ensures |text| < TWO_32 ==> !iterative.Undefined? && Short(Document(text, flags).events)
  {
    hide Document, AllHandable, Short;
    var a := ToBuffer(text);
    var places;
    recursive, places := ParseBuffer(a, flags, false, false);
    var b := ToBuffer(text);
    iterative, places := ParseBuffer(b, flags, false, true);
  }

  /** A whole text parsed in place, in either way, and once more the other way for comparison.
      The events are the same, and every string lies in the buffer where it was handed out,
      exactly if no string reaches 2^32 - 1 bytes; one of just that length is handed out only
      in place, and a longer one by neither as it is. */
  method ParseInPlace(buf: array<byte>, flags: Flags, iterative: bool)
    returns (inPlace: Outcome, places: seq<nat>, copied: Outcome)
    modifies buf
    ensures copied == Shown(false, Document(old(buf[..]), flags))
    ensures inPlace == Shown(true, Document(old(buf[..]), flags))
    ensures !inPlace.Undefined? ==> InBuffer(buf[..], buf.Length, inPlace.events, places)
    ensures Short(Document(old(buf[..]), flags).events) <==> !inPlace.Undefined? && inPlace == copied
    ensures buf.Length < TWO_32 ==> !inPlace.Undefined?
  {
    hide Document, InBuffer;
    ghost var doc := Document(buf[..], flags);
    var text := ToBuffer(buf[..]);
    var other;
    copied, other := ParseBuffer(text, flags, false, false);
    inPlace, places := ParseBuffer(buf, flags, true, iterative);
    SameOnlyIfShort(doc.events);
    if Short(doc.events) {
      ShortHands(doc.events);
    }
  }

  lemma SameOnlyIfShort(events: seq<Event>)
    ensures AllHandable(true, events) && AllHandable(false, events) ==> Short(events)
  {
    hide LengthOk;
    forall k | 0 <= k < |events| && IsText(events[k])
      ensures AllHandable(true, events) && AllHandable(false, events) ==> |TextOf(events[k])| < TWO_32 - 1
    {
      BothHandIt(TextOf(events[k]));
      assert AllHandable(true, events) ==> Handable(true, events[k]);
      assert AllHandable(false, events) ==> Handable(false, events[k]);
    }
  }
}
