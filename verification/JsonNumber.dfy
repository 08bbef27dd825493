/** The numbers of JSON (section 2.4 of RFC 4627) as the reader takes them: integers
    by their exact value, everything else as the text of a double. */
module JsonNumber {
  import opened Words
  import opened JsonText
  import opened JsonEvents

  const TWO_31 := 0x8000_0000
  const TWO_63 := 0x8000_0000_0000_0000
  const TWO_53 := 0x20_0000_0000_0000

  /** The end of the run of digits that starts at `i`. */
  function DigitsEnd(s: seq<byte>, i: nat): (j: nat)
    requires i <= |s|
    ensures i <= j <= |s| && !IsDigit(Peek(s, j))
    ensures forall k :: i <= k < j ==> IsDigit(s[k])
    decreases |s| - i
  {
    if IsDigit(Peek(s, i)) then DigitsEnd(s, i + 1) else i
  }

  function DigitValue(c: byte): (d: nat)
    requires IsDigit(c)
    ensures d <= 9
  {
    (c as int) - 0x30
  }

  /** The value of digits read after a value `v`. */
  function Decimal(v: nat, digits: seq<byte>): nat
    requires forall k :: 0 <= k < |digits| ==> IsDigit(digits[k])
  {
    if digits == [] then v
    else Decimal(v, digits[..|digits| - 1]) * 10 + DigitValue(digits[|digits| - 1])
  }

  /** The largest magnitude that an integer of a sign and a width can have. */
  function Largest32(minus: bool): nat {
    if minus then TWO_31 else TWO_32 - 1
  }

  function Largest64(minus: bool): nat {
    if minus then TWO_63 else TWO_64 - 1
  }

  /** The digits of the integer part, a lone zero or a run without a leading zero. */
  function IntegerEnd(s: seq<byte>, i: nat): (r: Option<nat>)
    requires i <= |s|
    ensures r.Some? ==> i < r.value <= |s|
    ensures r.Some? ==> forall k :: i <= k < r.value ==> IsDigit(s[k])
  {
    if Peek(s, i) == ZERO then Some(i + 1)
    else if IsDigit(Peek(s, i)) then Some(DigitsEnd(s, i))
    else None
  }

  function Pow10(k: nat): (p: nat)
    ensures p >= 1
  {
    if k == 0 then 1 else 10 * Pow10(k - 1)
  }

  /** A tenth of the largest double, the limit for reading another digit into one. */
  const TOO_BIG := 17976931348623157 * Pow10(291)

  predicate TooBig(v: nat) {
    v >= TOO_BIG
  }

  /** How many digits of a fraction scale the exponent: those read while the
      significand `v` is below 2^53, and then as many as make seventeen with the
      `sig` significant digits before them. */
  function ScalingDigits(digits: seq<byte>, v: nat, sig: nat, exact: bool): nat
    requires forall k :: 0 <= k < |digits| ==> IsDigit(digits[k])
    decreases |digits|, exact
  {
    if digits == [] then 0
    else if exact then
      if v >= TWO_53 then ScalingDigits(digits, v, sig, false)
      else
        var v' := v * 10 + DigitValue(digits[0]);
        1 + ScalingDigits(digits[1..], v', if v' != 0 then sig + 1 else sig, true)
    else if sig < 17 then 1 + ScalingDigits(digits[1..], v, sig + 1, false)
    else ScalingDigits(digits[1..], v, sig, false)
  }

  /** Whether a positive exponent stays within a limit after each digit but the first. */
  predicate ExponentFits(digits: seq<byte>, e: nat, limit: nat)
    requires forall k :: 0 <= k < |digits| ==> IsDigit(digits[k])
  {
    digits == [] ||
    (var e' := e * 10 + DigitValue(digits[0]); e' <= limit && ExponentFits(digits[1..], e', limit))
  }

  /** What the reader makes of a number: an integer with its magnitude, the text of a
      double, or an error. */
  datatype Number =
    | Whole(end: nat, minus: bool, magnitude: nat)
    | Floating(end: nat)
    | Bad

  /** The exponent at `c`, if there is one; `scale` digits of fraction were counted. */
  function Exponent(s: seq<byte>, c: nat, scale: nat): (r: Number)
    requires c <= |s|
    ensures r.Floating? ==> c < r.end <= |s|
    ensures !r.Whole?
  {
    var q := if Peek(s, c + 1) == PLUS || Peek(s, c + 1) == MINUS then c + 2 else c + 1;
    if c >= |s| || !IsDigit(Peek(s, q)) then Bad
    else if Peek(s, c + 1) != MINUS && !ExponentFits(s[q + 1..DigitsEnd(s, q)], DigitValue(s[q]), 308 + scale) then Bad
    else Floating(DigitsEnd(s, q))
  }

  predicate IsExponentMark(c: byte) {
    c == 0x65 || c == 0x45
  }

  /** What follows the integer part `s[a..b]`. */
  function AfterInteger(s: seq<byte>, minus: bool, a: nat, b: nat): (r: Number)
    requires a < b <= |s| && forall k :: a <= k < b ==> IsDigit(s[k])
    ensures !r.Bad? ==> b <= r.end <= |s|
  {
    var v := Decimal(0, s[a..b]);
    var big := v > Largest64(minus);
    if big && TooBig(Decimal(0, s[a..b - 1])) then Bad
    else if Peek(s, b) == DOT then
      if !IsDigit(Peek(s, b + 1)) then Bad
      else
        var c := DigitsEnd(s, b + 1);
        var scale := if big then 0 else ScalingDigits(s[b + 1..c], v, b - a - 1, true);
        if IsExponentMark(Peek(s, c)) then Exponent(s, c, scale) else Floating(c)
    else if IsExponentMark(Peek(s, b)) then Exponent(s, b, 0)
    else if big then Floating(b)
    else Whole(b, minus, v)
  }

  /** A number at `i`. */
  function Scan(s: seq<byte>, i: nat): (r: Number)
    requires i <= |s|
    ensures !r.Bad? ==> i < r.end <= |s|
  {
    var minus := Peek(s, i) == MINUS;
    var a := if minus then i + 1 else i;
    match IntegerEnd(s, a)
    case None => Bad
    case Some(b) => AfterInteger(s, minus, a, b)
  }

  /** The narrowest event for an integer: 32-bit if it fits, else 64-bit. */
  function IntegerEvent(minus: bool, v: nat): Event {
    if v <= Largest32(minus) then (if minus then Int(0 - v) else Uint(v))
    else (if minus then Int64(0 - v) else Uint64(v))
  }

  /** The event of a number at `i` and the place after it. */
  function NumberAt(s: seq<byte>, i: nat): (r: Option<(nat, Event)>)
    requires i <= |s|
    ensures r.Some? ==> i < r.value.0 <= |s|
  {
    match Scan(s, i)
    case Whole(end, minus, v) => Some((end, IntegerEvent(minus, v)))
    case Floating(end) => Some((end, Double(s[i..end])))
    case Bad => None
  }

  // ---------- A number depends only on the text that is still unread

  lemma {:induction false} DigitsUnread(s: seq<byte>, t: seq<byte>, i: nat, a: nat)
    requires |s| == |t| && i <= a <= |s| && s[i..] == t[i..]
    ensures DigitsEnd(s, a) == DigitsEnd(t, a) && Peek(s, a) == Peek(t, a)
    ensures s[a..DigitsEnd(s, a)] == t[a..DigitsEnd(t, a)]
    decreases |s| - a
  {
    UnreadSlice(s, t, i, a, |s|);
    if a < |s| {
      assert s[a] == s[i..][a - i] && t[a] == t[i..][a - i];
      DigitsUnread(s, t, i, a + 1);
    }
    UnreadSlice(s, t, i, a, DigitsEnd(s, a));
  }

  lemma UnreadSlice(s: seq<byte>, t: seq<byte>, i: nat, a: nat, b: nat)
    requires |s| == |t| && i <= a <= b <= |s| && s[i..] == t[i..]
    ensures s[a..b] == t[a..b]
  {
    forall k | a <= k < b
      ensures s[k] == t[k]
    {
      assert s[k] == s[i..][k - i] && t[k] == t[i..][k - i];
    }
  }

  lemma UnreadPeek(s: seq<byte>, t: seq<byte>, i: nat, a: nat)
    requires |s| == |t| && i <= a && i <= |s| && s[i..] == t[i..]
    ensures Peek(s, a) == Peek(t, a)
  {
    if a < |s| {
      assert s[a] == s[i..][a - i] && t[a] == t[i..][a - i];
    }
  }

  lemma {:induction false} ExponentUnread(s: seq<byte>, t: seq<byte>, i: nat, c: nat, scale: nat)
    requires |s| == |t| && i <= c <= |s| && s[i..] == t[i..]
    ensures Exponent(s, c, scale) == Exponent(t, c, scale)
  {
    UnreadPeek(s, t, i, c + 1);
    UnreadPeek(s, t, i, c + 2);
    var q := if Peek(s, c + 1) == PLUS || Peek(s, c + 1) == MINUS then c + 2 else c + 1;
    UnreadPeek(s, t, i, q);
    if q < |s| {
      DigitsUnread(s, t, i, q);
      if IsDigit(s[q]) {
        UnreadSlice(s, t, i, q + 1, DigitsEnd(s, q));
      }
    }
  }

  lemma {:induction false} AfterIntegerUnread(s: seq<byte>, t: seq<byte>, i: nat, minus: bool, a: nat, b: nat)
    requires |s| == |t| && i <= a < b <= |s| && s[i..] == t[i..] && forall k :: a <= k < b ==> IsDigit(s[k])
    ensures forall k :: a <= k < b ==> IsDigit(t[k])
    ensures AfterInteger(s, minus, a, b) == AfterInteger(t, minus, a, b)
  {
    hide Decimal, Exponent, ScalingDigits, TooBig;
    UnreadSlice(s, t, i, a, b);
    UnreadSlice(s, t, i, a, b - 1);
    forall k | a <= k < b
      ensures IsDigit(t[k])
    {
      assert s[k] == s[a..b][k - a] && t[k] == t[a..b][k - a];
    }
    UnreadPeek(s, t, i, b);
    UnreadPeek(s, t, i, b + 1);
    ExponentUnread(s, t, i, b, 0);
    if b < |s| {
      DigitsUnread(s, t, i, b + 1);
      var c := DigitsEnd(s, b + 1);
      UnreadPeek(s, t, i, c);
      if Peek(s, b) == DOT {
        var v := Decimal(0, s[a..b]);
        var scale := if v > Largest64(minus) then 0 else ScalingDigits(s[b + 1..c], v, b - a - 1, true);
        ExponentUnread(s, t, i, c, scale);
      }
    }
  }

  lemma {:induction false} NumberUnread(s: seq<byte>, t: seq<byte>, i: nat)
    requires |s| == |t| && i <= |s| && s[i..] == t[i..]
    ensures NumberAt(s, i) == NumberAt(t, i)
  {
    hide AfterInteger;
    UnreadPeek(s, t, i, i);
    var minus := Peek(s, i) == MINUS;
    var a := if minus then i + 1 else i;
    UnreadPeek(s, t, i, a);
    DigitsUnread(s, t, i, a);
    if IntegerEnd(s, a).Some? {
      AfterIntegerUnread(s, t, i, minus, a, IntegerEnd(s, a).value);
    }
    if Scan(s, i).Floating? {
      UnreadSlice(s, t, i, i, Scan(s, i).end);
    }
  }

  // ---------- The reader's loops

  predicate Digits(s: seq<byte>, a: nat, b: nat)
    requires b <= |s|
  {
    forall k :: a <= k < b ==> IsDigit(s[k])
  }

  lemma DecimalNext(s: seq<byte>, a: nat, p: nat)
    requires a <= p < |s| && Digits(s, a, p + 1)
    ensures Decimal(0, s[a..p + 1]) == Decimal(0, s[a..p]) * 10 + DigitValue(s[p])
  {
    assert s[a..p + 1][..p - a] == s[a..p];
  }

  lemma {:induction false} DecimalGrows(s: seq<byte>, a: nat, p: nat, q: nat)
    requires a <= p <= q <= |s| && Digits(s, a, q)
    ensures Decimal(0, s[a..p]) <= Decimal(0, s[a..q])
    decreases q
  {
    if p < q {
      DecimalNext(s, a, q - 1);
      DecimalGrows(s, a, p, q - 1);
    }
  }

  lemma {:induction false} DecimalBound(s: seq<byte>, a: nat, p: nat)
    requires a <= p <= |s| && Digits(s, a, p)
    ensures Decimal(0, s[a..p]) < Pow10(p - a)
    decreases p
  {
    if a < p {
      DecimalNext(s, a, p - 1);
      DecimalBound(s, a, p - 1);
    }
  }

  lemma {:induction false} DigitsEndIs(s: seq<byte>, a: nat, p: nat)
    requires a <= p <= |s| && Digits(s, a, p) && !IsDigit(Peek(s, p))
    ensures DigitsEnd(s, a) == p
    decreases p - a
  {
    if a < p {
      DigitsEndIs(s, a + 1, p);
    }
  }

  /** Reads digits into an unsigned word of 32 bits until there are no more or the next
      one would not fit. */
  method Take32(s: seq<byte>, a: nat, minus: bool) returns (p: nat, i: nat, sig: nat)
    requires a < |s| && IsDigit(s[a])
    ensures a < p <= |s| && Digits(s, a, p) && sig == p - a - 1
    ensures i == Decimal(0, s[a..p]) <= Largest32(minus)
    ensures IsDigit(Peek(s, p)) ==> Decimal(0, s[a..p + 1]) > Largest32(minus)
  {
    hide Decimal;
    FirstDigit(s, a);
    p, i, sig := a + 1, DigitValue(s[a]), 0;
    while IsDigit(Peek(s, p))
      invariant a < p <= |s| && Digits(s, a, p) && sig == p - a - 1
      invariant i == Decimal(0, s[a..p]) <= Largest32(minus)
      decreases |s| - p
    {
      DecimalNext(s, a, p);
      if minus {
        if i >= 214748364 && (i != 214748364 || s[p] > 0x38) {
          return;
        }
      } else {
        if i >= 429496729 && (i != 429496729 || s[p] > 0x35) {
          return;
        }
      }
      i := (i * 10 + DigitValue(s[p])) % TWO_32;
      p, sig := p + 1, sig + 1;
    }
  }

  lemma FirstDigit(s: seq<byte>, a: nat)
    requires a < |s| && IsDigit(s[a])
    ensures Decimal(0, s[a..a + 1]) == DigitValue(s[a])
  {
    assert s[a..a + 1] == [s[a]];
    assert Decimal(0, [s[a]][..0]) == 0;
  }

  /** Goes on in a word of 64 bits. */
  method Take64(s: seq<byte>, a: nat, minus: bool, p0: nat, i0: nat, sig0: nat) returns (p: nat, i: nat, sig: nat)
    requires a < p0 <= |s| && Digits(s, a, p0) && sig0 == p0 - a - 1
    requires i0 == Decimal(0, s[a..p0]) <= Largest32(minus)
    ensures p0 <= p <= |s| && Digits(s, a, p) && sig == p - a - 1
    ensures i == Decimal(0, s[a..p]) <= Largest64(minus)
    ensures IsDigit(Peek(s, p)) ==> Decimal(0, s[a..p + 1]) > Largest64(minus) && sig >= 17
  {
    hide Decimal;
    p, i, sig := p0, i0, sig0;
    while IsDigit(Peek(s, p))
      invariant p0 <= p <= |s| && Digits(s, a, p) && sig == p - a - 1
      invariant i == Decimal(0, s[a..p]) <= Largest64(minus)
      decreases |s| - p
    {
      DecimalNext(s, a, p);
      if minus {
        if i >= 0x0CCCCCCCCCCCCCCC && (i != 0x0CCCCCCCCCCCCCCC || s[p] > 0x38) {
          Eighteen(s, a, p);
          return;
        }
      } else {
        if i >= 0x1999999999999999 && (i != 0x1999999999999999 || s[p] > 0x35) {
          Eighteen(s, a, p);
          return;
        }
      }
      i := Wrap64(i * 10 + DigitValue(s[p]));
      p, sig := p + 1, sig + 1;
    }
  }

  /** A value that large has at least eighteen digits. */
  lemma Eighteen(s: seq<byte>, a: nat, p: nat)
    requires a <= p <= |s| && Digits(s, a, p) && Decimal(0, s[a..p]) >= 0x0CCCCCCCCCCCCCCC
    ensures p - a >= 18
  {
    hide Decimal;
    DecimalBound(s, a, p);
    Seventeen();
    Pow10Grows(p - a, 17);
  }

  lemma Seventeen()
    ensures Pow10(17) == 10_0000_0000_0000_0000
  {
    assert Pow10(5) == 100000;
    assert Pow10(9) == 10000 * Pow10(5);
    assert Pow10(13) == 10000 * Pow10(9);
    assert Pow10(17) == 10000 * Pow10(13);
  }

  lemma {:induction false} Pow10Grows(m: nat, n: nat)
    ensures m <= n ==> Pow10(m) <= Pow10(n)
    decreases n
  {
    if m < n {
      Pow10Grows(m, n - 1);
    }
  }

  /** Goes on reading digits into a double, `d` being its value. */
  method TakeDouble(s: seq<byte>, a: nat, p0: nat, d0: nat) returns (p: nat, ok: bool)
    requires a < p0 < |s| && Digits(s, a, p0) && IsDigit(s[p0]) && d0 == Decimal(0, s[a..p0])
    ensures ok ==> p0 < p <= |s| && Digits(s, a, p) && !IsDigit(Peek(s, p))
    ensures ok ==> !TooBig(Decimal(0, s[a..p - 1]))
    ensures !ok ==> DigitsEnd(s, a) > p0 && TooBig(Decimal(0, s[a..DigitsEnd(s, a) - 1]))
  {
    hide Decimal, TooBig;
    var d := d0;
    p, ok := p0, true;
    while IsDigit(Peek(s, p))
      invariant p0 <= p <= |s| && Digits(s, a, p) && d == Decimal(0, s[a..p])
      invariant p == p0 || !TooBig(Decimal(0, s[a..p - 1]))
      decreases |s| - p
    {
      if TooBig(d) {
        ok := false;
        DigitsEndBeyond(s, a, p);
        DecimalGrows(s, a, p, DigitsEnd(s, a) - 1);
        TooBigGrows(d, Decimal(0, s[a..DigitsEnd(s, a) - 1]));
        return;
      }
      DecimalNext(s, a, p);
      d := d * 10 + DigitValue(s[p]);
      p := p + 1;
    }
  }

  lemma {:induction false} DigitsEndBeyond(s: seq<byte>, a: nat, p: nat)
    requires a <= p < |s| && Digits(s, a, p) && IsDigit(s[p])
    ensures DigitsEnd(s, a) > p
    decreases p - a
  {
    if a < p {
      DigitsEndBeyond(s, a + 1, p);
    }
  }

  lemma TooBigGrows(v: nat, w: nat)
    requires TooBig(v) && v <= w
    ensures TooBig(w)
  {
  }

  /** The digits of a fraction: first into the 64-bit significand, then into the double
      as long as it has fewer than seventeen significant digits. */
  method TakeFraction(s: seq<byte>, b: nat, v: nat, sig0: nat, useDouble: bool) returns (p: nat, scale: nat)
    requires b <= |s| && (if useDouble then sig0 >= 17 else v < TWO_64)
    ensures p == DigitsEnd(s, b)
    ensures scale == if useDouble then 0 else ScalingDigits(s[b..p], v, sig0, true)
  {
    hide ScalingDigits, Decimal;
    ghost var end := DigitsEnd(s, b);
    var i: nat, sig: nat := v, sig0;
    p, scale := b, 0;
    if !useDouble {
      while IsDigit(Peek(s, p)) && i < TWO_53
        invariant b <= p <= end && i < TWO_64
        invariant scale + ScalingDigits(s[p..end], i, sig, true) == ScalingDigits(s[b..end], v, sig0, true)
        decreases |s| - p
      {
        InsideDigits(s, b, p, end);
        ScaleExact(s, p, end, i, sig);
        i := Wrap64(i * 10 + DigitValue(s[p]));
        scale := scale + 1;
        if i != 0 {
          sig := sig + 1;
        }
        p := p + 1;
      }
      InsideDigits(s, b, p, end);
      ScaleSwitch(s, p, end, i, sig);
    }
    ghost var rest := scale + ScalingDigits(s[p..end], i, sig, false);
    while IsDigit(Peek(s, p))
      invariant b <= p <= end
      invariant scale + ScalingDigits(s[p..end], i, sig, false) == rest
      invariant useDouble ==> sig >= 17 && scale == 0
      decreases |s| - p
    {
      InsideDigits(s, b, p, end);
      ScaleRounded(s, p, end, i, sig);
      if sig < 17 {
        scale, sig := scale + 1, sig + 1;
      }
      p := p + 1;
    }
    InsideDigits(s, b, p, end);
    assert s[end..end] == [];
    ScaleNothing(i, sig);
  }

  lemma {:induction false} InsideDigits(s: seq<byte>, b: nat, p: nat, end: nat)
    requires b <= p <= end && b <= |s| && end == DigitsEnd(s, b)
    ensures end <= |s| && (IsDigit(Peek(s, p)) <==> p < end)
  {
    assert p < end ==> IsDigit(s[p]);
  }

  lemma {:induction false} ScaleExact(s: seq<byte>, p: nat, end: nat, v: nat, sig: nat)
    requires p < end <= |s| && Digits(s, p, end) && v < TWO_53
    ensures (var v' := v * 10 + DigitValue(s[p]);
             ScalingDigits(s[p..end], v, sig, true)
             == 1 + ScalingDigits(s[p + 1..end], v', if v' != 0 then sig + 1 else sig, true))
  {
    assert s[p..end][1..] == s[p + 1..end];
  }

  lemma {:induction false} ScaleRounded(s: seq<byte>, p: nat, end: nat, v: nat, sig: nat)
    requires p < end <= |s| && Digits(s, p, end)
    ensures ScalingDigits(s[p..end], v, sig, false)
         == if sig < 17 then 1 + ScalingDigits(s[p + 1..end], v, sig + 1, false)
            else ScalingDigits(s[p + 1..end], v, sig, false)
  {
    assert s[p..end][1..] == s[p + 1..end];
  }

  lemma {:induction false} ScaleSwitch(s: seq<byte>, p: nat, end: nat, v: nat, sig: nat)
    requires p <= end <= |s| && Digits(s, p, end) && (p == end || v >= TWO_53)
    ensures ScalingDigits(s[p..end], v, sig, true) == ScalingDigits(s[p..end], v, sig, false)
  {
    assert p == end ==> s[p..end] == [];
  }

  lemma {:induction false} ScaleNothing(v: nat, sig: nat)
    ensures ScalingDigits([], v, sig, false) == 0
  {
  }

  /** The exponent after its mark. */
  method TakeExponent(s: seq<byte>, c: nat, scale: nat) returns (r: Number)
    requires c < |s| && IsExponentMark(s[c])
    ensures r == Exponent(s, c, scale)
  {
    var p, expMinus := c + 1, false;
    if Peek(s, p) == PLUS {
      p := p + 1;
    } else if Peek(s, p) == MINUS {
      expMinus := true;
      p := p + 1;
    }
    if !IsDigit(Peek(s, p)) {
      return Bad;
    }
    if expMinus {
      p := SkipNegative(s, p);
    } else {
      var fits;
      p, fits := ReadPositive(s, p, 308 + scale);
      if !fits {
        return Bad;
      }
    }
    return Floating(p);
  }

  /** The digits of a negative exponent; once it is large the rest is passed over. */
  method SkipNegative(s: seq<byte>, q: nat) returns (p: nat)
    requires q < |s| && IsDigit(s[q])
    ensures p == DigitsEnd(s, q)
  {
    ghost var end := DigitsEnd(s, q);
    var exp: nat := DigitValue(s[q]);
    p := q + 1;
    while IsDigit(Peek(s, p))
      invariant q + 1 <= p <= end
      decreases |s| - p
    {
      InsideDigits(s, q, p, end);
      exp := exp * 10 + DigitValue(s[p]);
      p := p + 1;
      if exp >= 214748364 {
        while IsDigit(Peek(s, p))
          invariant q + 1 <= p <= end
          decreases |s| - p
        {
          InsideDigits(s, q, p, end);
          p := p + 1;
        }
      }
    }
    InsideDigits(s, q, p, end);
  }

  /** The digits of a positive exponent, which must not pass `limit`. */
  method ReadPositive(s: seq<byte>, q: nat, limit: nat) returns (p: nat, fits: bool)
    requires q < |s| && IsDigit(s[q])
    ensures Digits(s, q, DigitsEnd(s, q)) && fits == ExponentFits(s[q + 1..DigitsEnd(s, q)], DigitValue(s[q]), limit)
    ensures fits ==> p == DigitsEnd(s, q)
  {
    ghost var end := DigitsEnd(s, q);
    assert Digits(s, q, end);
    var exp: nat := DigitValue(s[q]);
    p := q + 1;
    while IsDigit(Peek(s, p))
      invariant q + 1 <= p <= end
      invariant ExponentFits(s[p..end], exp, limit) == ExponentFits(s[q + 1..end], DigitValue(s[q]), limit)
      decreases |s| - p
    {
      InsideDigits(s, q, p, end);
      assert s[p..end][1..] == s[p + 1..end];
      exp := exp * 10 + DigitValue(s[p]);
      p := p + 1;
      if exp > limit {
        return p, false;
      }
    }
    InsideDigits(s, q, p, end);
    assert s[end..end] == [];
    return p, true;
  }

  /** What the loops over the integer part leave behind. */
  datatype Taken = Taken(p: nat, v: nat, use64: bool, useDouble: bool, sig: nat) | Overflow

  ghost predicate TakenRight(s: seq<byte>, a: nat, minus: bool, t: Taken)
    requires a < |s| && IsDigit(s[a])
  {
    var b := IntegerEnd(s, a).value;
    var v := Decimal(0, s[a..b]);
    match t
    case Overflow => v > Largest64(minus) && TooBig(Decimal(0, s[a..b - 1]))
    case Taken(p, w, use64, useDouble, sig) =>
      && p == b
      && (useDouble <==> v > Largest64(minus))
      && (if useDouble then sig >= 17 && !TooBig(Decimal(0, s[a..b - 1]))
          else w == v && (use64 <==> v > Largest32(minus)) && sig == b - a - 1)
  }

  /** The integer part: 32 bits as long as they hold it, then 64, then a double. */
  method TakeInteger(s: seq<byte>, a: nat, minus: bool) returns (t: Taken)
    requires a < |s| && IsDigit(s[a]) && s[a] != ZERO
    ensures TakenRight(s, a, minus, t)
  {
    hide Decimal, TooBig;
    ghost var b := DigitsEnd(s, a);
    var p, i, sig := Take32(s, a, minus);
    if !IsDigit(Peek(s, p)) {
      DigitsEndIs(s, a, p);
      return Taken(p, i, false, false, sig);
    }
    ghost var p32 := p;
    DigitsEndBeyond(s, a, p);
    DecimalGrows(s, a, p + 1, b);
    p, i, sig := Take64(s, a, minus, p, i, sig);
    if !IsDigit(Peek(s, p)) {
      DigitsEndIs(s, a, p);
      return Taken(p, i, true, false, sig);
    }
    DigitsEndBeyond(s, a, p);
    DecimalGrows(s, a, p + 1, b);
    var ok;
    p, ok := TakeDouble(s, a, p, i);
    if !ok {
      return Overflow;
    }
    DigitsEndIs(s, a, p);
    return Taken(p, 0, true, true, sig);
  }

  /** Two's complement negation of an unsigned word, read as signed. */
  function Negate(v: nat, modulus: nat): int
    requires v < modulus
  {
    var w := (modulus - 1 - v + 1) % modulus;
    if w >= modulus / 2 then w - modulus else w
  }

  lemma NegateIsMinus(v: nat)
    ensures v <= TWO_31 ==> Negate(v, TWO_32) == 0 - v
    ensures v <= TWO_63 ==> Negate(v, TWO_64) == 0 - v
  {
  }

  /** The event of an integer that was read into 32 or 64 bits. */
  method SendInteger(minus: bool, use64: bool, v: nat) returns (e: Event)
    requires v <= Largest64(minus) && (use64 <==> v > Largest32(minus))
    ensures e == IntegerEvent(minus, v)
  {
    hide Negate;
    NegateIsMinus(v);
    if use64 {
      e := if minus then Int64(Negate(v, TWO_64)) else Uint64(v);
    } else {
      e := if minus then Int(Negate(v, TWO_32)) else Uint(v);
    }
  }

  /** What comes after the integer part. */
  method TakeRest(s: seq<byte>, minus: bool, a: nat, t: Taken) returns (r: Number)
    requires a < |s| && IsDigit(s[a]) && t.Taken? && TakenRight(s, a, minus, t)
    ensures r == AfterInteger(s, minus, a, t.p)
  {
    hide Decimal, TooBig, ScalingDigits, Exponent;
    var p, useDouble, scale := t.p, t.useDouble, 0;
    if Peek(s, p) == DOT {
      p := p + 1;
      if !IsDigit(Peek(s, p)) {
        return Bad;
      }
      p, scale := TakeFraction(s, p, t.v, t.sig, useDouble);
      useDouble := true;
    }
    if IsExponentMark(Peek(s, p)) {
      r := TakeExponent(s, p, scale);
      return;
    }
    return if useDouble then Floating(p) else Whole(p, minus, t.v);
  }

  /** `ParseNumber`: the event and the place after the number, or nothing. */
  method ParseNumber(s: seq<byte>, i: nat) returns (r: Option<(nat, Event)>)
    requires i <= |s|
    ensures r == NumberAt(s, i)
  {
    hide Decimal, TooBig, AfterInteger;
    var minus := Peek(s, i) == MINUS;
    var a := if minus then i + 1 else i;
    var t;
    if Peek(s, a) == ZERO {
      FirstDigit(s, a);
      t := Taken(a + 1, 0, false, false, 0);
    } else if IsDigit(Peek(s, a)) {
      t := TakeInteger(s, a, minus);
    } else {
      return None;
    }
    if t.Overflow? {
      AfterOverflow(s, minus, a);
      return None;
    }
    var n := TakeRest(s, minus, a, t);
    if n.Bad? {
      return None;
    }
    if n.Floating? {
      return Some((n.end, Double(s[i..n.end])));
    }
    AfterWhole(s, minus, a, t.p);
    var e := SendInteger(minus, t.use64, t.v);
    return Some((n.end, e));
  }

  lemma AfterOverflow(s: seq<byte>, minus: bool, a: nat)
    requires a < |s| && IsDigit(s[a]) && TakenRight(s, a, minus, Overflow)
    ensures AfterInteger(s, minus, a, IntegerEnd(s, a).value) == Bad
  {
  }

  lemma AfterWhole(s: seq<byte>, minus: bool, a: nat, b: nat)
    requires a < b <= |s| && Digits(s, a, b) && AfterInteger(s, minus, a, b).Whole?
    ensures Decimal(0, s[a..b]) <= Largest64(minus)
    ensures AfterInteger(s, minus, a, b) == Whole(b, minus, Decimal(0, s[a..b]))
  {
  }
}
