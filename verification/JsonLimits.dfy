/** Texts with a string of 2^32 bytes, at which the readers show that its length has 32 bits. */
module JsonLimits {
  import opened Words
  import opened JsonText
  import opened JsonEvents
  import opened JsonLengths
  import opened JsonGrammar
  import opened JsonReader
  import opened JsonDocument
  import R = JsonRoundTrip
  import JsonString

  const LETTER: byte := 0x61

  function Letters(k: nat): (t: seq<byte>)
    ensures |t| == k && forall j :: 0 <= j < k ==> t[j] == LETTER
  {
    seq(k, _ => LETTER)
  }

  /** The text has `k` letters at `i` and a quote after them. */
  predicate LettersAt(s: seq<byte>, i: nat, k: nat) {
    i + k < |s| && (forall j :: i <= j < i + k ==> s[j] == LETTER) && s[i + k] == QUOTE
  }

  lemma {:induction false} LettersDecode(s: seq<byte>, i: nat, k: nat)
    requires LettersAt(s, i, k)
    ensures JsonString.Decode(s, i) == JsonString.Decoded(i + k + 1, s[i..i + k])
    decreases k
  {
    hide JsonString.UnicodeEscape;
    if k == 0 {
      R.ClosingQuote(s, i);
      assert s[i..i] == [];
    } else {
      LettersDecode(s, i + 1, k - 1);
      assert [s[i]] + s[i + 1..i + k] == s[i..i + k];
    }
  }

  lemma {:induction false} LettersString(s: seq<byte>, i: nat, k: nat)
    requires i < |s| && s[i] == QUOTE && LettersAt(s, i + 1, k)
    ensures Scalar(s, i) == Ok(i + k + 2, [String(Letters(k))])
  {
    hide JsonString.Decode;
    LettersDecode(s, i + 1, k);
    assert s[i + 1..i + 1 + k] == Letters(k);
  }

  /** A byte that is neither white space nor the start of a comment stays where it is. */
  lemma {:induction false} SkipsNothing(s: seq<byte>, comments: bool, i: nat)
    requires i <= |s| && !IsSpace(Peek(s, i)) && Peek(s, i) != SLASH
    ensures Skip(s, comments, i) == Some(i)
  {
    R.NoSpace();
    R.OccursNothing(s, i);
    R.Skipped(s, comments, i, []);
  }

  function RootText(k: nat): (s: seq<byte>)
    ensures |s| == k + 2 && s[0] == QUOTE && LettersAt(s, 1, k)
  {
    [QUOTE] + Letters(k) + [QUOTE]
  }

  lemma {:induction false} RootReads(f: Flags, k: nat)
    ensures Document(RootText(k), f) == Ok(k + 2, [String(Letters(k))])
  {
    hide Skip, Value, Scalar, Letters, RootText;
    var s := RootText(k);
    SkipsNothing(s, f.comments, 0);
    SkipsNothing(s, f.comments, |s|);
    LettersString(s, 0, k);
    UnfoldScalar(s, f, 0);
    var e := String(Letters(k));
    assert [e] + [] == [e];
  }

  /** A text that is one string of 2^32 - 1 letters: in place the handler is given all of it,
      otherwise the reader is lost. */
  lemma {:induction false} LostRoot(f: Flags, k: nat)
    requires k == TWO_32 - 1
    ensures Document(RootText(k), f).Ok?
    ensures Shown(false, Document(RootText(k), f)) == Undefined
    ensures Shown(true, Document(RootText(k), f)) == Accepted(k + 2, [String(Letters(k))])
  {
    hide Document, Letters, RootText;
    RootReads(f, k);
    var e := String(Letters(k));
    HandOne(e);
    assert !Handable(false, [e][0]);
  }

  /** One of 2^32 letters: in place the reader is lost, otherwise the handler is given the
      end of it, which is nothing. */
  lemma {:induction false} LongRoot(f: Flags, k: nat)
    requires k == TWO_32
    ensures Document(RootText(k), f).Ok?
    ensures Shown(false, Document(RootText(k), f)) == Accepted(k + 2, [String([])])
    ensures Shown(true, Document(RootText(k), f)) == Undefined
    ensures Build([], HandAll(Document(RootText(k), f).events)) == Some([JString([])])
  {
    hide Document, Letters, RootText;
    RootReads(f, k);
    var e := String(Letters(k));
    HandOne(e);
    assert !Handable(true, [e][0]);
    BuildOne([], String([]));
    assert [] + [JString([])] == [JString([])];
  }

  function NestedText(k: nat): (s: seq<byte>)
    ensures |s| == k + 4 && s[0] == LBRACKET && s[1] == QUOTE && LettersAt(s, 2, k) && s[k + 3] == RBRACKET
  {
    [LBRACKET, QUOTE] + Letters(k) + [QUOTE, RBRACKET]
  }

  lemma {:induction false} NestedReads(f: Flags, k: nat)
    ensures Document(NestedText(k), f) == Ok(k + 4, [StartArray, String(Letters(k)), EndArray(1)])
  {
    hide Skip, Value, Scalar, Letters, NestedText, Element, AfterElement, ArrayOpened;
    var s := NestedText(k);
    SkipsNothing(s, f.comments, 0);
    SkipsNothing(s, f.comments, 1);
    SkipsNothing(s, f.comments, k + 3);
    SkipsNothing(s, f.comments, |s|);
    LettersString(s, 1, k);
    UnfoldScalar(s, f, 1);
    UnfoldArray(s, f, 0);
    UnfoldArrayOpened(s, f, 1);
    UnfoldElement(s, f, 1, 0);
    UnfoldAfterElement(s, f, k + 3, 1);
    var events := [StartArray, String(Letters(k)), EndArray(1)];
    assert [StartArray] + ([String(Letters(k))] + [EndArray(1)]) == events && events + [] == events;
  }

  /** The same string inside an array: one parser goes on and accepts the text, the other takes
      letters that were left on the stack for a count and a state. */
  method ParsersPart(f: Flags, k: nat) returns (recursive: Outcome, iterative: Outcome)
    requires k == TWO_32
    ensures recursive == Accepted(k + 4, [StartArray, String([]), EndArray(1)])
    ensures iterative == Undefined
  {
    hide Document, Letters, NestedText;
    NestedReads(f, k);
    LongEvents(k);
    recursive, iterative := ParseBothWays(NestedText(k), f);
  }

  lemma LongEvents(k: nat)
    requires k == TWO_32
    ensures var events := [StartArray, String(Letters(k)), EndArray(1)];
            && HandAll(events) == [StartArray, String([]), EndArray(1)]
            && AllHandable(false, events) && Strays(false, true, events)
  {
    hide Letters;
    var events := [StartArray, String(Letters(k)), EndArray(1)];
    assert IsText(events[1]) && |TextOf(events[1])| == k;
    assert events == [events[0]] + ([events[1]] + [events[2]]);
    MarksJoin([], [events[0]], [events[1]] + [events[2]]);
    MarksOne([], events[0]);
    assert [] + [false] == [false] && [false][0 := true] == [true];
    MarksJoin([false], [events[1]], [events[2]]);
    MarksOne([false], events[1]);
    MarksOne([true], events[2]);
  }
}
