/** The table-driven reader: its tokens, its table, and what a configuration of it still
    has to read, told by the grammar of the recursive reader. */
module JsonMachine {
  import opened Words
  import opened JsonText
  import opened JsonEvents
  import opened JsonGrammar
  import JsonNumber

  datatype IterativeState =
    | Start | Finish | ErrorState
    | ObjectInitial | MemberKey | KeyValueDelimiter | MemberValueState | MemberDelimiter | ObjectFinish
    | ArrayInitial | ElementState | ElementDelimiter | ArrayFinish
    | SingleValue

  /** The two words pushed for each open array or object. */
  datatype Frame = Frame(state: IterativeState, count: nat)

  datatype Token =
    | LeftBracket | RightBracket | LeftCurly | RightCurly | Comma | Colon
    | StringToken | FalseToken | TrueToken | NullToken | NumberToken

  function Tokenize(c: byte): Token {
    if c == LBRACKET then LeftBracket
    else if c == RBRACKET then RightBracket
    else if c == LBRACE then LeftCurly
    else if c == RBRACE then RightCurly
    else if c == COMMA then Comma
    else if c == COLON then Colon
    else if c == QUOTE then StringToken
    else if c == FALSE_WORD[0] then FalseToken
    else if c == TRUE_WORD[0] then TrueToken
    else if c == NULL_WORD[0] then NullToken
    else NumberToken
  }

  /** A row of the table where a value may start; scalars lead to `scalar`. */
  function ValueRow(token: Token, scalar: IterativeState): IterativeState {
    match token
    case LeftBracket => ArrayInitial
    case LeftCurly => ObjectInitial
    case RightBracket => ErrorState
    case RightCurly => ErrorState
    case Comma => ErrorState
    case Colon => ErrorState
    case _ => scalar
  }

  /** The table: a state and the next token give the state to go to. */
  function Predict(state: IterativeState, token: Token): IterativeState {
    match state
    case Start => ValueRow(token, SingleValue)
    case ObjectInitial =>
      if token.RightCurly? then ObjectFinish else if token.StringToken? then MemberKey else ErrorState
    case MemberKey => if token.Colon? then KeyValueDelimiter else ErrorState
    case KeyValueDelimiter => ValueRow(token, MemberValueState)
    case MemberValueState =>
      if token.RightCurly? then ObjectFinish else if token.Comma? then MemberDelimiter else ErrorState
    case MemberDelimiter =>
      if token.RightCurly? then ObjectFinish else if token.StringToken? then MemberKey else ErrorState
    case ArrayInitial => if token.RightBracket? then ArrayFinish else ValueRow(token, ElementState)
    case ElementState =>
      if token.RightBracket? then ArrayFinish else if token.Comma? then ElementDelimiter else ErrorState
    case ElementDelimiter => if token.RightBracket? then ArrayFinish else ValueRow(token, ElementState)
    case _ => ErrorState
  }

  /** Which state and byte lead to which state. */
  lemma PredictFacts(state: IterativeState, c: byte)
    ensures var dst := Predict(state, Tokenize(c));
      && (dst == MemberKey ==> c == QUOTE && (state == ObjectInitial || state == MemberDelimiter))
      && (dst == KeyValueDelimiter ==> c == COLON && state == MemberKey)
      && (dst == MemberDelimiter ==> c == COMMA && state == MemberValueState)
      && (dst == ElementDelimiter ==> c == COMMA && state == ElementState)
      && (dst == ObjectFinish ==> c == RBRACE && InObject(state))
      && (dst == ArrayFinish ==> c == RBRACKET && InArray(state))
      && (dst == SingleValue ==> state == Start)
      && (dst == ElementState || dst == MemberValueState ==> AtValue(state, Tokenize(c)))
      && (dst == ElementState || dst == MemberValueState || dst == SingleValue ==> c != LBRACKET && c != LBRACE)
      && dst != Start && dst != Finish
  {
  }

  // ---------- Configurations

  predicate InArray(state: IterativeState) {
    state == ArrayInitial || state == ElementState || state == ElementDelimiter
  }

  predicate InObject(state: IterativeState) {
    state == ObjectInitial || state == MemberKey || state == KeyValueDelimiter
    || state == MemberValueState || state == MemberDelimiter
  }

  /** The frames under which a state can occur: the outermost one was inner at the
      start, every other one inside an array or as the value of a member. */
  predicate Frames(stack: seq<Frame>) {
    && |stack| >= 1 && stack[0].state == Start
    && forall k :: 1 <= k < |stack| ==> stack[k].state == ElementState || stack[k].state == MemberValueState
  }

  predicate Shape(state: IterativeState, stack: seq<Frame>) {
    if state == Start || state == Finish then stack == []
    else
      && (InArray(state) || InObject(state))
      && Frames(stack)
      && (state == ArrayInitial || state == ObjectInitial ==> stack[|stack| - 1].count == 0)
  }

  lemma ShapeStack(state: IterativeState, stack: seq<Frame>)
    requires Shape(state, stack)
    ensures stack == [] <==> state == Start || state == Finish
  {
  }

  /** The state in which a closed array or object leaves the machine. */
  function Restored(n: IterativeState): IterativeState {
    if n == Start then Finish else n
  }

  /** What the grammar has still to read in a state, at a token. */
  ghost function Resume(s: seq<byte>, f: Flags, state: IterativeState, i: nat, stack: seq<Frame>): Result
    requires i <= |s| && Shape(state, stack)
    decreases |stack|, if state == Start then 5 else 2
  {
    if state == Start then
      if Peek(s, i) == NUL then Error([]) else Follow(s, f, Value(s, f, i), Finish, stack)
    else if state == Finish then
      if Peek(s, i) == NUL then Ok(i, []) else Error([])
    else
      var n := stack[|stack| - 1].count;
      Leave(s, f, Rest(s, f, state, i, n), stack)
  }

  /** What is left of the array or object that the machine is in. */
  ghost function Rest(s: seq<byte>, f: Flags, state: IterativeState, i: nat, n: nat): (r: Result)
    requires i <= |s| && (InArray(state) || InObject(state))
    ensures r.Ok? ==> r.pos <= |s|
  {
    match state
    case ArrayInitial => ArrayOpened(s, f, i)
    case ElementState => AfterElement(s, f, i, Next(n))
    case ElementDelimiter => AfterElementComma(s, f, i, n)
    case ObjectInitial => ObjectOpened(s, f, i)
    case MemberKey => AfterName(s, f, i, n)
    case KeyValueDelimiter => MemberValue(s, f, i, n)
    case MemberValueState => AfterMember(s, f, i, Next(n))
    case MemberDelimiter => AfterMemberComma(s, f, i, n)
  }

  /** A result followed by what comes after the innermost array or object. */
  ghost function Leave(s: seq<byte>, f: Flags, r: Result, stack: seq<Frame>): Result
    requires (r.Ok? ==> r.pos <= |s|) && Frames(stack)
    decreases |stack|, 1
  {
    var n := |stack| - 1;
    LeaveShape(stack);
    if r.Error? then r else Send(r.events, Continue(s, f, Restored(stack[n].state), r.pos, stack[..n]))
  }

  /** A result followed by what comes in a state after it. */
  ghost function Follow(s: seq<byte>, f: Flags, r: Result, state: IterativeState, stack: seq<Frame>): Result
    requires (r.Ok? ==> r.pos <= |s|) && Shape(state, stack) && state != Start
    decreases |stack|, 4
  {
    if r.Error? then r else Send(r.events, Continue(s, f, state, r.pos, stack))
  }

  /** What comes in a state before white space is skipped. */
  ghost function Continue(s: seq<byte>, f: Flags, state: IterativeState, i: nat, stack: seq<Frame>): Result
    requires i <= |s| && Shape(state, stack) && state != Start
    decreases |stack|, 3
  {
    if f.stopWhenDone && state == Finish then Ok(i, [])
    else
      match Skip(s, f.comments, i)
      case None => Error([])
      case Some(j) => Resume(s, f, state, j, stack)
  }

  lemma LeaveShape(stack: seq<Frame>)
    requires Frames(stack)
    ensures var n := |stack| - 1; Shape(Restored(stack[n].state), stack[..n])
  {
  }

  // ---------- The steps of the machine against the grammar

  /** A whole text, as the machine's first configuration after white space. */
  lemma {:induction false} DocumentIsResume(s: seq<byte>, f: Flags)
    ensures Document(s, f) == match Skip(s, f.comments, 0)
                              case None => Error([])
                              case Some(i) => Resume(s, f, Start, i, [])
  {
    hide Skip, Value;
  }

  /** Where a value may start, and the state in which it leaves the machine. */
  predicate AtValue(state: IterativeState, token: Token) {
    || state == Start || state == KeyValueDelimiter
    || (state == ArrayInitial && !token.RightBracket?)
    || state == ElementDelimiter
  }

  function AfterValueState(state: IterativeState): IterativeState {
    if state == Start then Finish else if state == KeyValueDelimiter then MemberValueState else ElementState
  }

  lemma {:induction false} LeaveSend(s: seq<byte>, f: Flags, ev: seq<Event>, r: Result, stack: seq<Frame>)
    requires (r.Ok? ==> r.pos <= |s|) && Frames(stack)
    ensures Leave(s, f, Send(ev, r), stack) == Send(ev, Leave(s, f, r, stack))
  {
    hide Continue;
    LeaveShape(stack);
    if r.Ok? {
      var n := |stack| - 1;
      SendTwice(ev, r.events, Continue(s, f, Restored(stack[n].state), r.pos, stack[..n]));
    }
  }

  /** What is left at the start of a value is the value and what follows it. */
  lemma {:induction false} ValueFirst(s: seq<byte>, f: Flags, state: IterativeState, i: nat, stack: seq<Frame>)
    requires i <= |s| && Shape(state, stack) && Peek(s, i) != NUL && AtValue(state, Tokenize(Peek(s, i)))
    requires state == ElementDelimiter && Peek(s, i) == RBRACKET ==> !f.trailingCommas
    ensures Shape(AfterValueState(state), stack)
    ensures Resume(s, f, state, i, stack) == Follow(s, f, Value(s, f, i), AfterValueState(state), stack)
  {
    hide Skip, Value, Element, AfterElement, AfterMember, MemberValue, Leave, Scalar;
    if state != Start {
      var n := stack[|stack| - 1].count;
      var v := Value(s, f, i);
      UnfoldElement(s, f, i, n);
      UnfoldMemberValue(s, f, i, n);
      LeaveError(s, f, v, stack);
      if v.Ok? {
        var j := Skip(s, f.comments, v.pos);
        LeaveError(s, f, Error(v.events), stack);
        if j.Some? {
          if state == KeyValueDelimiter {
            LeaveSend(s, f, v.events, AfterMember(s, f, j.value, Next(n)), stack);
            assert Resume(s, f, MemberValueState, j.value, stack)
                == Leave(s, f, AfterMember(s, f, j.value, Next(n)), stack);
          } else {
            LeaveSend(s, f, v.events, AfterElement(s, f, j.value, Next(n)), stack);
            assert Resume(s, f, ElementState, j.value, stack)
                == Leave(s, f, AfterElement(s, f, j.value, Next(n)), stack);
          }
        }
      }
    }
  }

  lemma {:induction false} LeaveError(s: seq<byte>, f: Flags, r: Result, stack: seq<Frame>)
    requires (r.Ok? ==> r.pos <= |s|) && Frames(stack)
    ensures r.Error? ==> Leave(s, f, r, stack) == r
  {
  }

  /** A value that is neither an array nor an object leads to the state after it. */
  lemma {:induction false} ScalarStep(s: seq<byte>, f: Flags, state: IterativeState, i: nat, stack: seq<Frame>,
                                      dst: IterativeState)
    requires i < |s| && Shape(state, stack) && s[i] != NUL && dst == Predict(state, Tokenize(s[i]))
    requires dst == SingleValue || (AtValue(state, Tokenize(s[i])) && (dst == ElementState || dst == MemberValueState))
    ensures s[i] != LBRACKET && s[i] != LBRACE
    ensures var d := if dst == SingleValue then Finish else dst;
            && d != Start && state != Finish && Shape(d, stack)
            && (stack == [] <==> state == Start) && (stack == [] <==> d == Finish)
            && Resume(s, f, state, i, stack) == Follow(s, f, Scalar(s, i), d, stack)
  {
    hide Resume, Follow, Scalar;
    ValueFirst(s, f, state, i, stack);
    UnfoldScalar(s, f, i);
  }

  /** Opening an array or object sends its event and pushes a frame. */
  lemma OpenStep(s: seq<byte>, f: Flags, after: IterativeState, i: nat, stack: seq<Frame>, n: IterativeState)
    requires i < |s| && (s[i] == LBRACKET || s[i] == LBRACE)
    requires Shape(after, stack) && after != Start && after == Restored(n) && (n == Start <==> stack == [])
    requires n == Start || n == ElementState || n == MemberValueState
    ensures var inner := if s[i] == LBRACE then ObjectInitial else ArrayInitial;
            var e := if s[i] == LBRACE then StartObject else StartArray;
            var stack' := stack + [Frame(n, 0)];
            && Shape(inner, stack')
            && Follow(s, f, Value(s, f, i), after, stack) == Send([e], Continue(s, f, inner, i + 1, stack'))
  {
    hide Skip, Value, ArrayOpened, ObjectOpened, Resume;
    var stack' := stack + [Frame(n, 0)];
    assert stack'[..|stack|] == stack && stack'[|stack|] == Frame(n, 0);
    var inner := if s[i] == LBRACE then ObjectInitial else ArrayInitial;
    var e := if s[i] == LBRACE then StartObject else StartArray;
    assert Shape(inner, stack');
    if s[i] == LBRACE {
      UnfoldObject(s, f, i);
    } else {
      UnfoldArray(s, f, i);
    }
    var j := Skip(s, f.comments, i + 1);
    if j.Some? {
      var r := if s[i] == LBRACE then ObjectOpened(s, f, j.value) else ArrayOpened(s, f, j.value);
      ResumeOpened(s, f, inner, j.value, stack', r);
      if r.Ok? {
        SendTwice([e], r.events, Continue(s, f, after, r.pos, stack));
      }
    }
  }

  lemma {:induction false} ResumeOpened(s: seq<byte>, f: Flags, inner: IterativeState, i: nat, stack: seq<Frame>,
                                        r: Result)
    requires i <= |s| && (inner == ArrayInitial || inner == ObjectInitial) && Shape(inner, stack)
    requires r == Rest(s, f, inner, i, 0)
    ensures Resume(s, f, inner, i, stack) == Leave(s, f, r, stack)
  {
    hide Leave, ArrayOpened, ObjectOpened;
  }

  /** Punctuation and the end of the text start no value. */
  lemma {:induction false} NoValue(s: seq<byte>, f: Flags, i: nat)
    requires i <= |s| && Peek(s, i) in {NUL, RBRACKET, RBRACE, COMMA, COLON}
    ensures Value(s, f, i) == Error([]) && Scalar(s, i) == Error([])
  {
    assert JsonNumber.Scan(s, i) == JsonNumber.Bad;
  }

  /** Where the table has an error, or the text ends, so has the grammar, without
      another event. */
  lemma {:induction false} ErrorStep(s: seq<byte>, f: Flags, state: IterativeState, i: nat, stack: seq<Frame>)
    requires i <= |s| && Shape(state, stack)
    requires || Predict(state, Tokenize(Peek(s, i))) == ErrorState
             || Peek(s, i) == NUL
             || (!f.trailingCommas && state == ElementDelimiter && Peek(s, i) == RBRACKET)
             || (!f.trailingCommas && state == MemberDelimiter && Peek(s, i) == RBRACE)
    ensures state == Finish && Peek(s, i) == NUL ==> Resume(s, f, state, i, stack) == Ok(i, [])
    ensures !(state == Finish && Peek(s, i) == NUL) ==> Resume(s, f, state, i, stack) == Error([])
  {
    hide Skip, Value, Scalar, Element, Name, MemberValue, Continue;
    if Peek(s, i) in {NUL, RBRACKET, RBRACE, COMMA, COLON} {
      NoValue(s, f, i);
    }
    if state != Start && state != Finish {
      var n := stack[|stack| - 1].count;
      UnfoldElement(s, f, i, n);
      UnfoldMemberValue(s, f, i, n);
      UnfoldName(s, f, i, n);
    }
  }

  /** The events and the state after the end of an array or object. */
  lemma CloseStep(s: seq<byte>, f: Flags, state: IterativeState, i: nat, stack: seq<Frame>, e: Event)
    requires i < |s| && Shape(state, stack) && (InArray(state) || InObject(state))
    requires Predict(state, Tokenize(s[i])) == if InArray(state) then ArrayFinish else ObjectFinish
    requires f.trailingCommas || (state != ElementDelimiter && state != MemberDelimiter)
    requires var c := stack[|stack| - 1].count;
             var c' := if state == ElementState || state == MemberValueState then Next(c) else c;
             e == if InArray(state) then EndArray(c') else EndObject(c')
    ensures var n := |stack| - 1;
            && Shape(Restored(stack[n].state), stack[..n])
            && Resume(s, f, state, i, stack) == Send([e], Continue(s, f, Restored(stack[n].state), i + 1, stack[..n]))
  {
    hide Skip, Value, Element, Name, Continue;
    LeaveShape(stack);
    assert Rest(s, f, state, i, stack[|stack| - 1].count) == Ok(i + 1, [e]);
  }

  /** The state that is pushed with the frame of an array or object. */
  function Pushed(state: IterativeState): IterativeState {
    if state == ArrayInitial || state == ElementDelimiter then ElementState
    else if state == KeyValueDelimiter then MemberValueState
    else state
  }

  /** The transition into an array or object. */
  lemma {:induction false} OpenTransit(s: seq<byte>, f: Flags, state: IterativeState, i: nat, stack: seq<Frame>,
                                       dst: IterativeState)
    requires i < |s| && Shape(state, stack) && s[i] != NUL && dst == Predict(state, Tokenize(s[i]))
    requires dst == ObjectInitial || dst == ArrayInitial
    ensures var e := if dst == ObjectInitial then StartObject else StartArray;
            var stack' := stack + [Frame(Pushed(state), 0)];
            && state != Finish && dst != Start && Shape(dst, stack')
            && Resume(s, f, state, i, stack) == Send([e], Continue(s, f, dst, i + 1, stack'))
  {
    hide Resume, Continue, Value, Follow;
    ValueFirst(s, f, state, i, stack);
    OpenStep(s, f, AfterValueState(state), i, stack, Pushed(state));
  }

  /** The count with which an array or object ends. */
  function Final(state: IterativeState, n: nat): nat {
    if state == MemberValueState || state == ElementState then Next(n) else n
  }

  /** The transition out of an array or object. */
  lemma CloseTransit(s: seq<byte>, f: Flags, state: IterativeState, i: nat, stack: seq<Frame>, dst: IterativeState)
    requires i < |s| && Shape(state, stack) && stack != [] && dst == Predict(state, Tokenize(s[i]))
    requires dst == ObjectFinish || dst == ArrayFinish
    requires f.trailingCommas || (state != ElementDelimiter && state != MemberDelimiter)
    ensures var n := |stack| - 1;
            var c := Final(state, stack[n].count);
            var e := if dst == ObjectFinish then EndObject(c) else EndArray(c);
            var d := Restored(stack[n].state);
            && state != Finish && state != Start && d != Start && d != ErrorState
            && Shape(d, stack[..n]) && (d == Finish <==> n == 0)
            && Resume(s, f, state, i, stack) == Send([e], Continue(s, f, d, i + 1, stack[..n]))
  {
    hide Resume, Continue, Predict, Tokenize;
    PredictFacts(state, s[i]);
    var c := Final(state, stack[|stack| - 1].count);
    CloseStep(s, f, state, i, stack, if dst == ObjectFinish then EndObject(c) else EndArray(c));
    LeaveShape(stack);
  }

  lemma {:induction false} KeyStep(s: seq<byte>, f: Flags, state: IterativeState, i: nat, stack: seq<Frame>)
    requires i < |s| && Shape(state, stack) && s[i] == QUOTE && (state == ObjectInitial || state == MemberDelimiter)
    ensures Shape(MemberKey, stack)
    ensures Resume(s, f, state, i, stack) == Follow(s, f, StringAt(s, i, true), MemberKey, stack)
  {
    hide Skip, Value, Name, AfterName, StringAt, Leave;
    var n := stack[|stack| - 1].count;
    UnfoldName(s, f, i, n);
    var k := StringAt(s, i, true);
    LeaveError(s, f, k, stack);
    if k.Ok? {
      var j := Skip(s, f.comments, k.pos);
      LeaveError(s, f, Error(k.events), stack);
      if j.Some? {
        LeaveSend(s, f, k.events, AfterName(s, f, j.value, n), stack);
        assert Resume(s, f, MemberKey, j.value, stack) == Leave(s, f, AfterName(s, f, j.value, n), stack);
      }
    }
  }

  lemma {:induction false} ColonStep(s: seq<byte>, f: Flags, i: nat, stack: seq<Frame>)
    requires i < |s| && Shape(MemberKey, stack) && s[i] == COLON
    ensures Shape(KeyValueDelimiter, stack)
    ensures Resume(s, f, MemberKey, i, stack) == Continue(s, f, KeyValueDelimiter, i + 1, stack)
  {
    hide Skip, Value, AfterName, MemberValue, Leave;
    var n := stack[|stack| - 1].count;
    UnfoldAfterName(s, f, i, n);
    LeaveError(s, f, Error([]), stack);
    var j := Skip(s, f.comments, i + 1);
    if j.Some? {
      assert Resume(s, f, KeyValueDelimiter, j.value, stack) == Leave(s, f, MemberValue(s, f, j.value, n), stack);
    }
  }

  /** The transition over a comma. */
  lemma CommaTransit(s: seq<byte>, f: Flags, state: IterativeState, i: nat, stack: seq<Frame>, dst: IterativeState)
    requires i < |s| && Shape(state, stack) && dst == Predict(state, Tokenize(s[i]))
    requires dst == MemberDelimiter || dst == ElementDelimiter
    ensures stack != []
    ensures var n := |stack| - 1;
            var stack' := stack[n := stack[n].(count := Next(stack[n].count))];
            && Shape(dst, stack')
            && Resume(s, f, state, i, stack) == Send([], Continue(s, f, dst, i + 1, stack'))
  {
    hide Resume, Continue, Predict, Tokenize;
    PredictFacts(state, s[i]);
    ShapeStack(state, stack);
    var n := |stack| - 1;
    var stack' := stack[n := stack[n].(count := Next(stack[n].count))];
    CommaStep(s, f, state, i, stack, stack');
    SendNothing(Continue(s, f, dst, i + 1, stack'));
  }

  /** A comma counts what it follows. */
  lemma CommaStep(s: seq<byte>, f: Flags, state: IterativeState, i: nat, stack: seq<Frame>, stack': seq<Frame>)
    requires i < |s| && Shape(state, stack) && s[i] == COMMA && (state == ElementState || state == MemberValueState)
    requires var n := |stack| - 1; stack' == stack[n := stack[n].(count := Next(stack[n].count))]
    ensures var delimiter := if state == ElementState then ElementDelimiter else MemberDelimiter;
            && Shape(delimiter, stack')
            && Resume(s, f, state, i, stack) == Continue(s, f, delimiter, i + 1, stack')
  {
    hide Skip, Value, AfterElement, AfterMember, AfterElementComma, AfterMemberComma, Leave;
    var n := |stack| - 1;
    var c := Next(stack[n].count);
    UnfoldAfterElement(s, f, i, c);
    UnfoldAfterMember(s, f, i, c);
    LeaveError(s, f, Error([]), stack);
    var j := Skip(s, f.comments, i + 1);
    if j.Some? {
      var r := if state == ElementState then AfterElementComma(s, f, j.value, c)
          else AfterMemberComma(s, f, j.value, c);
      LeaveSameTop(s, f, r, stack, stack');
      var delimiter := if state == ElementState then ElementDelimiter else MemberDelimiter;
      assert Resume(s, f, delimiter, j.value, stack') == Leave(s, f, r, stack');
    }
  }

  /** The count of the innermost frame does not matter once it is left. */
  lemma {:induction false} LeaveSameTop(s: seq<byte>, f: Flags, r: Result, stack: seq<Frame>, stack': seq<Frame>)
    requires (r.Ok? ==> r.pos <= |s|) && Frames(stack) && Frames(stack')
    requires var n := |stack| - 1; |stack'| == n + 1 && stack'[..n] == stack[..n] && stack'[n].state == stack[n].state
    ensures Leave(s, f, r, stack) == Leave(s, f, r, stack')
  {
  }
}
