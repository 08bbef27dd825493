/** What the recursive reader accepts and which events it sends, over values. */
module JsonGrammar {
  import opened Words
  import opened JsonText
  import opened JsonEvents
  import JsonNumber
  import JsonString

  /** The parse flags that change the language. */
  datatype Flags = Flags(comments: bool, trailingCommas: bool, stopWhenDone: bool)

  /** The events sent, and the place reached unless there was an error. */
  datatype Result = Ok(pos: nat, events: seq<Event>) | Error(events: seq<Event>)

  /** Puts events before those of a result. */
  function Send(events: seq<Event>, r: Result): Result {
    r.(events := events + r.events)
  }

  lemma SendNothing(r: Result)
    ensures Send([], r) == r
  {
    assert [] + r.events == r.events;
  }

  lemma SendTwice(a: seq<Event>, b: seq<Event>, r: Result)
    ensures Send(a, Send(b, r)) == Send(a + b, r)
  {
    assert a + (b + r.events) == a + b + r.events;
  }

  /** Counters have 32 bits. */
  function Next(n: nat): nat {
    (n + 1) % TWO_32
  }

  /** A word of the language, such as the three letters after `n`. */
  function Literal(s: seq<byte>, i: nat, word: seq<byte>, e: Event): (r: Result)
    requires i <= |s|
    ensures r.Ok? ==> i + |word| == r.pos <= |s|
  {
    if i + |word| <= |s| && s[i..i + |word|] == word then Ok(i + |word|, [e]) else Error([])
  }

  const NULL_WORD: seq<byte> := [0x6E, 0x75, 0x6C, 0x6C]
  const TRUE_WORD: seq<byte> := [0x74, 0x72, 0x75, 0x65]
  const FALSE_WORD: seq<byte> := [0x66, 0x61, 0x6C, 0x73, 0x65]

  /** A string at `i`, where its opening quote stands. */
  function StringAt(s: seq<byte>, i: nat, key: bool): (r: Result)
    requires i < |s|
    ensures r.Ok? ==> i < r.pos <= |s|
  {
    match JsonString.Decode(s, i + 1)
    case Decoded(end, bytes) => Ok(end, [if key then Key(bytes) else String(bytes)])
    case Malformed => Error([])
  }

  /** A value that is neither an object nor an array. */
  function Scalar(s: seq<byte>, i: nat): (r: Result)
    requires i <= |s|
    ensures r.Ok? ==> i < r.pos <= |s|
  {
    var c := Peek(s, i);
    if c == NULL_WORD[0] then Literal(s, i, NULL_WORD, Null)
    else if c == TRUE_WORD[0] then Literal(s, i, TRUE_WORD, Bool(true))
    else if c == FALSE_WORD[0] then Literal(s, i, FALSE_WORD, Bool(false))
    else if c == QUOTE then StringAt(s, i, false)
    else
      match JsonNumber.NumberAt(s, i)
      case Some((end, e)) => Ok(end, [e])
      case None => Error([])
  }

  /** A value at `i`. */
  function Value(s: seq<byte>, f: Flags, i: nat): (r: Result)
    requires i <= |s|
    ensures r.Ok? ==> i < r.pos <= |s|
    decreases |s| - i, 1
  {
    if Peek(s, i) == LBRACE then
      match Skip(s, f.comments, i + 1)
      case None => Error([StartObject])
      case Some(j) => Send([StartObject], ObjectOpened(s, f, j))
    else if Peek(s, i) == LBRACKET then
      match Skip(s, f.comments, i + 1)
      case None => Error([StartArray])
      case Some(j) => Send([StartArray], ArrayOpened(s, f, j))
    else Scalar(s, i)
  }

  // ---------- Arrays: at the first element or the end, at an element, after an
  // element, after a comma

  function ArrayOpened(s: seq<byte>, f: Flags, i: nat): (r: Result)
    requires i <= |s|
    ensures r.Ok? ==> i < r.pos <= |s|
    decreases |s| - i, 3
  {
    if Peek(s, i) == RBRACKET then Ok(i + 1, [EndArray(0)]) else Element(s, f, i, 0)
  }

  function Element(s: seq<byte>, f: Flags, i: nat, n: nat): (r: Result)
    requires i <= |s|
    ensures r.Ok? ==> i < r.pos <= |s|
    decreases |s| - i, 2
  {
    var v := Value(s, f, i);
    if v.Error? then v
    else
      match Skip(s, f.comments, v.pos)
      case None => Error(v.events)
      case Some(j) => Send(v.events, AfterElement(s, f, j, Next(n)))
  }

  function AfterElement(s: seq<byte>, f: Flags, i: nat, n: nat): (r: Result)
    requires i <= |s|
    ensures r.Ok? ==> i < r.pos <= |s|
    decreases |s| - i, 0
  {
    if Peek(s, i) == COMMA then
      match Skip(s, f.comments, i + 1)
      case None => Error([])
      case Some(j) => AfterElementComma(s, f, j, n)
    else if Peek(s, i) == RBRACKET then Ok(i + 1, [EndArray(n)])
    else Error([])
  }

  function AfterElementComma(s: seq<byte>, f: Flags, i: nat, n: nat): (r: Result)
    requires i <= |s|
    ensures r.Ok? ==> i < r.pos <= |s|
    decreases |s| - i, 3
  {
    if f.trailingCommas && Peek(s, i) == RBRACKET then Ok(i + 1, [EndArray(n)]) else Element(s, f, i, n)
  }

  // ---------- Objects: at the first name or the end, at a name, after a name, at the
  // value of a member, after a member, after a comma

  function ObjectOpened(s: seq<byte>, f: Flags, i: nat): (r: Result)
    requires i <= |s|
    ensures r.Ok? ==> i < r.pos <= |s|
    decreases |s| - i, 3
  {
    if Peek(s, i) == RBRACE then Ok(i + 1, [EndObject(0)]) else Name(s, f, i, 0)
  }

  function Name(s: seq<byte>, f: Flags, i: nat, n: nat): (r: Result)
    requires i <= |s|
    ensures r.Ok? ==> i < r.pos <= |s|
    decreases |s| - i, 2
  {
    if Peek(s, i) != QUOTE then Error([])
    else
      var k := StringAt(s, i, true);
      if k.Error? then k
      else
        match Skip(s, f.comments, k.pos)
        case None => Error(k.events)
        case Some(j) => Send(k.events, AfterName(s, f, j, n))
  }

  function AfterName(s: seq<byte>, f: Flags, i: nat, n: nat): (r: Result)
    requires i <= |s|
    ensures r.Ok? ==> i < r.pos <= |s|
    decreases |s| - i, 0
  {
    if Peek(s, i) != COLON then Error([])
    else
      match Skip(s, f.comments, i + 1)
      case None => Error([])
      case Some(j) => MemberValue(s, f, j, n)
  }

  function MemberValue(s: seq<byte>, f: Flags, i: nat, n: nat): (r: Result)
    requires i <= |s|
    ensures r.Ok? ==> i < r.pos <= |s|
    decreases |s| - i, 2
  {
    var v := Value(s, f, i);
    if v.Error? then v
    else
      match Skip(s, f.comments, v.pos)
      case None => Error(v.events)
      case Some(j) => Send(v.events, AfterMember(s, f, j, Next(n)))
  }

  function AfterMember(s: seq<byte>, f: Flags, i: nat, n: nat): (r: Result)
    requires i <= |s|
    ensures r.Ok? ==> i < r.pos <= |s|
    decreases |s| - i, 0
  {
    if Peek(s, i) == COMMA then
      match Skip(s, f.comments, i + 1)
      case None => Error([])
      case Some(j) => AfterMemberComma(s, f, j, n)
    else if Peek(s, i) == RBRACE then Ok(i + 1, [EndObject(n)])
    else Error([])
  }

  function AfterMemberComma(s: seq<byte>, f: Flags, i: nat, n: nat): (r: Result)
    requires i <= |s|
    ensures r.Ok? ==> i < r.pos <= |s|
    decreases |s| - i, 3
  {
    if f.trailingCommas && Peek(s, i) == RBRACE then Ok(i + 1, [EndObject(n)]) else Name(s, f, i, n)
  }

  // ---------- Documents

  /** What follows the root value. */
  function AfterRoot(s: seq<byte>, f: Flags, i: nat): Result
    requires i <= |s|
  {
    if f.stopWhenDone then Ok(i, [])
    else
      match Skip(s, f.comments, i)
      case None => Error([])
      case Some(j) => if Peek(s, j) == NUL then Ok(j, []) else Error([])
  }

  /** A whole text. */
  function Document(s: seq<byte>, f: Flags): Result {
    match Skip(s, f.comments, 0)
    case None => Error([])
    case Some(i) =>
      if Peek(s, i) == NUL then Error([])
      else
        var v := Value(s, f, i);
        if v.Error? then v else Send(v.events, AfterRoot(s, f, v.pos))
  }

  lemma RootSendsNothing(s: seq<byte>, f: Flags, i: nat)
    requires i <= |s|
    ensures AfterRoot(s, f, i).events == []
  {
  }

  // ---------- The grammar's functions unfolded once

  lemma {:induction false} UnfoldScalar(s: seq<byte>, f: Flags, i: nat)
    requires i <= |s| && Peek(s, i) != LBRACKET && Peek(s, i) != LBRACE
    ensures Value(s, f, i) == Scalar(s, i)
  {
    hide Scalar;
  }

  lemma {:induction false} UnfoldArray(s: seq<byte>, f: Flags, i: nat)
    requires i < |s| && s[i] == LBRACKET
    ensures Value(s, f, i) == match Skip(s, f.comments, i + 1)
                              case None => Error([StartArray])
                              case Some(j) => Send([StartArray], ArrayOpened(s, f, j))
  {
  }

  lemma {:induction false} UnfoldArrayOpened(s: seq<byte>, f: Flags, i: nat)
    requires i <= |s|
    ensures ArrayOpened(s, f, i) == if Peek(s, i) == RBRACKET then Ok(i + 1, [EndArray(0)]) else Element(s, f, i, 0)
  {
  }

  lemma {:induction false} UnfoldElement(s: seq<byte>, f: Flags, i: nat, n: nat)
    requires i <= |s|
    ensures Element(s, f, i, n) ==
            (var v := Value(s, f, i);
             if v.Error? then v
             else match Skip(s, f.comments, v.pos)
                  case None => Error(v.events)
                  case Some(j) => Send(v.events, AfterElement(s, f, j, Next(n))))
  {
  }

  lemma {:induction false} UnfoldAfterElement(s: seq<byte>, f: Flags, i: nat, n: nat)
    requires i <= |s|
    ensures AfterElement(s, f, i, n) ==
            if Peek(s, i) == COMMA then
              (match Skip(s, f.comments, i + 1)
               case None => Error([])
               case Some(j) => AfterElementComma(s, f, j, n))
            else if Peek(s, i) == RBRACKET then Ok(i + 1, [EndArray(n)])
            else Error([])
  {
  }

  lemma {:induction false} UnfoldAfterElementComma(s: seq<byte>, f: Flags, i: nat, n: nat)
    requires i <= |s|
    ensures AfterElementComma(s, f, i, n) ==
            if f.trailingCommas && Peek(s, i) == RBRACKET then Ok(i + 1, [EndArray(n)]) else Element(s, f, i, n)
  {
  }

  lemma {:induction false} UnfoldObject(s: seq<byte>, f: Flags, i: nat)
    requires i < |s| && s[i] == LBRACE
    ensures Value(s, f, i) == match Skip(s, f.comments, i + 1)
                              case None => Error([StartObject])
                              case Some(j) => Send([StartObject], ObjectOpened(s, f, j))
  {
  }

  lemma {:induction false} UnfoldObjectOpened(s: seq<byte>, f: Flags, i: nat)
    requires i <= |s|
    ensures ObjectOpened(s, f, i) == if Peek(s, i) == RBRACE then Ok(i + 1, [EndObject(0)]) else Name(s, f, i, 0)
  {
  }

  lemma {:induction false} UnfoldName(s: seq<byte>, f: Flags, i: nat, n: nat)
    requires i <= |s|
    ensures Name(s, f, i, n) ==
            if Peek(s, i) != QUOTE then Error([])
            else
              (var k := StringAt(s, i, true);
               if k.Error? then k
               else match Skip(s, f.comments, k.pos)
                    case None => Error(k.events)
                    case Some(j) => Send(k.events, AfterName(s, f, j, n)))
  {
  }

  lemma {:induction false} UnfoldAfterName(s: seq<byte>, f: Flags, i: nat, n: nat)
    requires i <= |s|
    ensures AfterName(s, f, i, n) ==
            if Peek(s, i) != COLON then Error([])
            else
              match Skip(s, f.comments, i + 1)
              case None => Error([])
              case Some(j) => MemberValue(s, f, j, n)
  {
  }

  lemma {:induction false} UnfoldMemberValue(s: seq<byte>, f: Flags, i: nat, n: nat)
    requires i <= |s|
    ensures MemberValue(s, f, i, n) ==
            (var v := Value(s, f, i);
             if v.Error? then v
             else match Skip(s, f.comments, v.pos)
                  case None => Error(v.events)
                  case Some(j) => Send(v.events, AfterMember(s, f, j, Next(n))))
  {
  }

  lemma {:induction false} UnfoldAfterMember(s: seq<byte>, f: Flags, i: nat, n: nat)
    requires i <= |s|
    ensures AfterMember(s, f, i, n) ==
            if Peek(s, i) == COMMA then
              (match Skip(s, f.comments, i + 1)
               case None => Error([])
               case Some(j) => AfterMemberComma(s, f, j, n))
            else if Peek(s, i) == RBRACE then Ok(i + 1, [EndObject(n)])
            else Error([])
  {
  }

  lemma {:induction false} UnfoldAfterMemberComma(s: seq<byte>, f: Flags, i: nat, n: nat)
    requires i <= |s|
    ensures AfterMemberComma(s, f, i, n) ==
            if f.trailingCommas && Peek(s, i) == RBRACE then Ok(i + 1, [EndObject(n)]) else Name(s, f, i, n)
  {
  }
}
