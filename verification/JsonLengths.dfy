/** The lengths of strings. A reader hands a decoded string to its handler with a length of
    32 bits: in place after an assertion, otherwise by taking as many bytes off its stack as
    a 32-bit counter says it has put there. */
module JsonLengths {
  import opened Words
  import opened JsonText
  import opened JsonEvents

  /** What the handler is given of a decoded string: its last bytes, as many as the length
      reduced to 32 bits. */
  function Handed(b: seq<byte>): (r: seq<byte>)
    ensures |r| == |b| % TWO_32 && (|b| < TWO_32 ==> r == b)
  {
    b[|b| - |b| % TWO_32..]
  }

  /** In place the length has to fit. On the stack, where a zero byte is put after the string,
      the counter must not come out as zero; the reader would then go on from the top of its
      stack, where nothing is. */
  predicate LengthOk(insitu: bool, b: seq<byte>) {
    if insitu then |b| < TWO_32 else (|b| + 1) % TWO_32 != 0
  }

  /** The bytes of a string that are not taken off the stack again. */
  function LeftOver(b: seq<byte>): (n: nat)
    ensures n > 0 <==> |b| >= TWO_32 - 1
  {
    |b| + 1 - (|b| + 1) % TWO_32
  }

  // ---------- Events

  predicate IsText(e: Event) {
    e.String? || e.Key?
  }

  function TextOf(e: Event): seq<byte>
    requires IsText(e)
  {
    if e.String? then e.str else e.name
  }

  /** The event as it reaches the handler. */
  function Hand(e: Event): Event {
    match e
    case String(b) => String(Handed(b))
    case Key(b) => Key(Handed(b))
    case _ => e
  }

  function HandAll(events: seq<Event>): (r: seq<Event>)
    ensures |r| == |events| && forall k :: 0 <= k < |events| ==> r[k] == Hand(events[k])
  {
    seq(|events|, k requires 0 <= k < |events| => Hand(events[k]))
  }

  predicate Handable(insitu: bool, e: Event) {
    IsText(e) ==> LengthOk(insitu, TextOf(e))
  }

  predicate AllHandable(insitu: bool, events: seq<Event>) {
    forall k :: 0 <= k < |events| ==> Handable(insitu, events[k])
  }

  /** No string reaches 2^32 - 1 bytes. */
  predicate Short(events: seq<Event>) {
    forall k :: 0 <= k < |events| && IsText(events[k]) ==> |TextOf(events[k])| < TWO_32 - 1
  }

  // ---------- Bytes that lie on the stack

  /** For each array or object that is open, whether bytes of a string lie on its frame. Its end
      takes the frame off, unless there are such bytes to be taken for it. */
  function Mark(m: seq<bool>, e: Event): Option<seq<bool>> {
    if e.StartArray? || e.StartObject? then Some(m + [false])
    else if m == [] then Some(m)
    else
      var n := |m| - 1;
      if e.EndArray? || e.EndObject? then (if m[n] then None else Some(m[..n]))
      else if IsText(e) && LeftOver(TextOf(e)) > 0 then Some(m[n := true])
      else Some(m)
  }

  function Marks(m: seq<bool>, events: seq<Event>): Option<seq<bool>>
    decreases |events|
  {
    if events == [] then Some(m)
    else
      match Mark(m, events[0])
      case None => None
      case Some(m') => Marks(m', events[1..])
  }

  lemma {:induction false} MarksJoin(m: seq<bool>, a: seq<Event>, b: seq<Event>)
    ensures Marks(m, a + b) == if Marks(m, a).Some? then Marks(Marks(m, a).value, b) else None
    decreases |a|
  {
    hide Mark;
    if a == [] {
      assert a + b == b;
    } else {
      assert (a + b)[1..] == a[1..] + b;
      if Mark(m, a[0]).Some? {
        MarksJoin(Mark(m, a[0]).value, a[1..], b);
      }
    }
  }

  lemma {:induction false} MarksOne(m: seq<bool>, e: Event)
    ensures Marks(m, [e]) == Mark(m, e)
  {
    hide Mark;
    assert [e][1..] == [];
  }

  predicate Unmarked(m: seq<bool>) {
    forall k :: 0 <= k < |m| ==> !m[k]
  }

  /** Short strings leave nothing. */
  lemma {:induction false} ShortMarks(m: seq<bool>, events: seq<Event>)
    requires Short(events) && Unmarked(m)
    ensures Marks(m, events).Some? && Unmarked(Marks(m, events).value)
    decreases |events|
  {
    if events != [] {
      ShortMarks(Mark(m, events[0]).value, events[1..]);
    }
  }

  lemma HandJoin(a: seq<Event>, b: seq<Event>)
    ensures HandAll(a + b) == HandAll(a) + HandAll(b)
  {
  }

  lemma HandOne(e: Event)
    ensures HandAll([e]) == [Hand(e)]
  {
  }

  lemma HandableJoin(insitu: bool, a: seq<Event>, b: seq<Event>)
    ensures AllHandable(insitu, a + b) <==> AllHandable(insitu, a) && AllHandable(insitu, b)
  {
    forall k | 0 <= k < |b|
      ensures b[k] == (a + b)[|a| + k]
    {
    }
    forall k | 0 <= k < |a|
      ensures a[k] == (a + b)[k]
    {
    }
  }

  lemma ShortJoin(a: seq<Event>, b: seq<Event>)
    ensures Short(a + b) <==> Short(a) && Short(b)
  {
    forall k | 0 <= k < |b|
      ensures b[k] == (a + b)[|a| + k]
    {
    }
    forall k | 0 <= k < |a|
      ensures a[k] == (a + b)[k]
    {
    }
  }

  /** Short strings reach the handler as they are, whichever way they are decoded. */
  lemma ShortHands(events: seq<Event>)
    requires Short(events)
    ensures HandAll(events) == events && AllHandable(true, events) && AllHandable(false, events)
  {
    hide Hand, Handable;
    forall k | 0 <= k < |events|
      ensures Hand(events[k]) == events[k] && Handable(true, events[k]) && Handable(false, events[k])
    {
      ShortHand(events[k]);
    }
  }

  lemma ShortHand(e: Event)
    requires IsText(e) ==> |TextOf(e)| < TWO_32 - 1
    ensures Hand(e) == e && Handable(true, e) && Handable(false, e)
  {
  }

  /** Both ways hand out a string, and all of it, exactly if it is shorter than 2^32 - 1
      bytes; one of just that length only the way in place. */
  lemma BothHandIt(b: seq<byte>)
    ensures LengthOk(true, b) && LengthOk(false, b) <==> |b| < TWO_32 - 1
    ensures LengthOk(true, b) ==> Handed(b) == b
    ensures Handed(b) == b <==> |b| < TWO_32
    ensures |b| == TWO_32 - 1 ==> LengthOk(true, b) && !LengthOk(false, b)
  {
    if Handed(b) == b {
      assert |b| % TWO_32 == |b|;
    }
  }
}
