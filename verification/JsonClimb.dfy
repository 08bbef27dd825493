/** The height of a document's stack over every text, accepted or not and of any length: no
    event ever takes more than is there. */
module JsonClimb {
  import opened Words
  import opened JsonText
  import opened JsonEvents
  import opened JsonLengths
  import opened JsonGrammar
  import opened JsonCounts
  import JsonNumber

  /** From `h`, the events of a result can be followed, and if it is one of success they lead
      at least to `top`. */
  predicate Climbs(h: nat, r: Result, top: nat) {
    var c := Climb(h, r.events);
    c.Some? && (r.Ok? ==> c.value >= top)
  }

  lemma {:induction false} NothingClimbs(h: nat, top: nat)
    ensures Climbs(h, Error([]), top)
  {
  }

  /** Events that have been followed, before those of a result. */
  lemma {:induction false} SendClimbs(h: nat, a: seq<Event>, h': nat, r: Result, top: nat)
    requires Climb(h, a) == Some(h') && Climbs(h', r, top)
    ensures Climbs(h, Send(a, r), top) && Climbs(h, Error(a), top)
  {
    hide Climb;
    ClimbJoin(h, a, r.events);
  }

  lemma {:induction false} ScalarClimbs(s: seq<byte>, i: nat, h: nat)
    requires i <= |s|
    ensures Climbs(h, Scalar(s, i), h + 1)
  {
    hide JsonNumber.Scan, Climb;
    NothingClimbs(h, h + 1);
    var r := Scalar(s, i);
    if r.Ok? {
      ClimbOne(h, r.events[0]);
      assert r.events == [r.events[0]];
    }
  }

  /** An array that has been opened at height `base`, with at least `n` elements on it. */
  lemma {:induction false} ElementClimbs(s: seq<byte>, f: Flags, i: nat, n: nat, base: nat, h: nat)
    requires i <= |s| && h >= base + 1 + n
    ensures Climbs(h, Element(s, f, i, n), base + 1)
    decreases |s| - i, 2
  {
    hide Skip, Value, Element, AfterElement, AfterElementComma, Climb;
    UnfoldElement(s, f, i, n);
    var v := Value(s, f, i);
    ValueClimbs(s, f, i, h);
    if v.Ok? {
      var skip, h' := Skip(s, f.comments, v.pos), Climb(h, v.events).value;
      NothingClimbs(h', base + 1);
      SendClimbs(h, v.events, h', Error([]), base + 1);
      if skip.Some? {
        AfterElementClimbs(s, f, skip.value, Next(n), base, h');
        SendClimbs(h, v.events, h', AfterElement(s, f, skip.value, Next(n)), base + 1);
      }
    }
  }

  lemma {:induction false} AfterElementClimbs(s: seq<byte>, f: Flags, i: nat, n: nat, base: nat, h: nat)
    requires i <= |s| && h >= base + 1 + n
    ensures Climbs(h, AfterElement(s, f, i, n), base + 1)
    decreases |s| - i, 0
  {
    hide Skip, Element, AfterElement, AfterElementComma, Climb;
    UnfoldAfterElement(s, f, i, n);
    NothingClimbs(h, base + 1);
    ClimbOne(h, EndArray(n));
    if Peek(s, i) == COMMA && Skip(s, f.comments, i + 1).Some? {
      var j := Skip(s, f.comments, i + 1).value;
      UnfoldAfterElementComma(s, f, j, n);
      ElementClimbs(s, f, j, n, base, h);
    }
  }

  lemma {:induction false} NameClimbs(s: seq<byte>, f: Flags, i: nat, n: nat, base: nat, h: nat)
    requires i <= |s| && h >= base + 1 + 2 * n
    ensures Climbs(h, Name(s, f, i, n), base + 1)
    decreases |s| - i, 3
  {
    hide Skip, Name, AfterName, MemberValue, Climb;
    UnfoldName(s, f, i, n);
    NothingClimbs(h, base + 1);
    if Peek(s, i) == QUOTE && StringAt(s, i, true).Ok? {
      var k := StringAt(s, i, true);
      assert k.events == [k.events[0]];
      ClimbOne(h, k.events[0]);
      NothingClimbs(h + 1, base + 1);
      SendClimbs(h, k.events, h + 1, Error([]), base + 1);
      var skip := Skip(s, f.comments, k.pos);
      if skip.Some? {
        var j := skip.value;
        UnfoldAfterName(s, f, j, n);
        if Peek(s, j) == COLON && Skip(s, f.comments, j + 1).Some? {
          MemberClimbs(s, f, Skip(s, f.comments, j + 1).value, n, base, h + 1);
        }
        SendClimbs(h, k.events, h + 1, AfterName(s, f, j, n), base + 1);
      }
    }
  }

  lemma {:induction false} MemberClimbs(s: seq<byte>, f: Flags, i: nat, n: nat, base: nat, h: nat)
    requires i <= |s| && h >= base + 1 + 2 * n + 1
    ensures Climbs(h, MemberValue(s, f, i, n), base + 1)
    decreases |s| - i, 2
  {
    hide Skip, Value, MemberValue, AfterMember, Climb;
    UnfoldMemberValue(s, f, i, n);
    var v := Value(s, f, i);
    ValueClimbs(s, f, i, h);
    if v.Ok? {
      var skip, h' := Skip(s, f.comments, v.pos), Climb(h, v.events).value;
      NothingClimbs(h', base + 1);
      SendClimbs(h, v.events, h', Error([]), base + 1);
      if skip.Some? {
        AfterMemberClimbs(s, f, skip.value, Next(n), base, h');
        SendClimbs(h, v.events, h', AfterMember(s, f, skip.value, Next(n)), base + 1);
      }
    }
  }

  lemma {:induction false} AfterMemberClimbs(s: seq<byte>, f: Flags, i: nat, n: nat, base: nat, h: nat)
    requires i <= |s| && h >= base + 1 + 2 * n
    ensures Climbs(h, AfterMember(s, f, i, n), base + 1)
    decreases |s| - i, 0
  {
    hide Skip, Name, AfterMember, AfterMemberComma, Climb;
    UnfoldAfterMember(s, f, i, n);
    NothingClimbs(h, base + 1);
    ClimbOne(h, EndObject(n));
    if Peek(s, i) == COMMA && Skip(s, f.comments, i + 1).Some? {
      var j := Skip(s, f.comments, i + 1).value;
      UnfoldAfterMemberComma(s, f, j, n);
      NameClimbs(s, f, j, n, base, h);
    }
  }

  lemma {:induction false} ArrayOpenedClimbs(s: seq<byte>, f: Flags, i: nat, h: nat)
    requires i <= |s|
    ensures Climbs(h + 1, ArrayOpened(s, f, i), h + 1)
    decreases |s| - i, 4
  {
    hide Element, ArrayOpened, Climb;
    UnfoldArrayOpened(s, f, i);
    ClimbOne(h + 1, EndArray(0));
    ElementClimbs(s, f, i, 0, h, h + 1);
  }

  lemma {:induction false} ObjectOpenedClimbs(s: seq<byte>, f: Flags, i: nat, h: nat)
    requires i <= |s|
    ensures Climbs(h + 1, ObjectOpened(s, f, i), h + 1)
    decreases |s| - i, 4
  {
    hide Name, ObjectOpened, Climb;
    UnfoldObjectOpened(s, f, i);
    ClimbOne(h + 1, EndObject(0));
    NameClimbs(s, f, i, 0, h, h + 1);
  }

  /** A value that is read leaves at least itself on the stack, and one that is not takes
      nothing away that was there before. */
  lemma {:induction false} ValueClimbs(s: seq<byte>, f: Flags, i: nat, h: nat)
    requires i <= |s|
    ensures Climbs(h, Value(s, f, i), h + 1)
    decreases |s| - i, 1
  {
    hide Skip, Value, Scalar, ArrayOpened, ObjectOpened, Climb;
    if Peek(s, i) == LBRACKET || Peek(s, i) == LBRACE {
      var inArray := Peek(s, i) == LBRACKET;
      var e := if inArray then StartArray else StartObject;
      ClimbOne(h, e);
      NothingClimbs(h + 1, h + 1);
      SendClimbs(h, [e], h + 1, Error([]), h + 1);
      var skip := Skip(s, f.comments, i + 1);
      if inArray {
        UnfoldArray(s, f, i);
      } else {
        UnfoldObject(s, f, i);
      }
      if skip.Some? {
        if inArray {
          ArrayOpenedClimbs(s, f, skip.value, h);
          SendClimbs(h, [e], h + 1, ArrayOpened(s, f, skip.value), h + 1);
        } else {
          ObjectOpenedClimbs(s, f, skip.value, h);
          SendClimbs(h, [e], h + 1, ObjectOpened(s, f, skip.value), h + 1);
        }
      }
    } else {
      UnfoldScalar(s, f, i);
      ScalarClimbs(s, i, h);
    }
  }

  /** Whatever the text, no event takes more from the stack than is there, and what is
      accepted leaves at least one value, also where counts wrap and strings are cut. */
  lemma {:induction false} EveryTextClimbs(s: seq<byte>, f: Flags)
    ensures Climbs(0, Document(s, f), 1) && Climb(0, HandAll(Document(s, f).events)).Some?
  {
    hide Skip, Value, Climb, AfterRoot, HandAll;
    NothingClimbs(0, 1);
    var skip := Skip(s, f.comments, 0);
    if skip.Some? && Peek(s, skip.value) != NUL {
      var v := Value(s, f, skip.value);
      ValueClimbs(s, f, skip.value, 0);
      if v.Ok? {
        RootSendsNothing(s, f, v.pos);
        assert v.events + [] == v.events;
      }
    }
    ClimbHanded(0, Document(s, f).events);
  }
}
