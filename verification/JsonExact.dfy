/** The readers accept exactly the texts of syntax trees, and send their events. */
module JsonExact {
  import opened Words
  import opened JsonText
  import opened JsonEvents
  import opened JsonSyntax
  import opened JsonSpelling
  import S = JsonString
  import N = JsonNumber
  import G = JsonGrammar
  import R = JsonRoundTrip

  // ---------- Comments

  lemma {:induction false} BlockReads(s: seq<byte>, p: nat, q: nat)
    requires p <= q && q + 2 <= |s| && s[q] == 0x2A && s[q + 1] == 0x2F
    requires forall k :: p <= k < q ==> s[k] != 0 && !(s[k] == 0x2A && s[k + 1] == 0x2F)
    ensures BlockCommentEnd(s, p) == Some(q + 2)
    decreases q - p
  {
    if p < q {
      BlockReads(s, p + 1, q);
    }
  }

  lemma {:induction false} BlockSpelled(s: seq<byte>, p: nat) returns (q: nat)
    requires p <= |s| && BlockCommentEnd(s, p).Some?
    ensures p <= q && q + 2 <= |s| && s[q] == 0x2A && s[q + 1] == 0x2F && BlockCommentEnd(s, p) == Some(q + 2)
    ensures forall k :: p <= k < q ==> s[k] != 0 && !(s[k] == 0x2A && s[k + 1] == 0x2F)
    decreases |s| - p
  {
    if s[p] == STAR && Peek(s, p + 1) == SLASH {
      q := p;
    } else {
      q := BlockSpelled(s, p + 1);
    }
  }

  lemma {:induction false} LineReads(s: seq<byte>, p: nat, q: nat)
    requires p <= q <= |s| && forall k :: p <= k < q ==> s[k] != 0 && s[k] != 0x0A
    ensures Peek(s, q) == 0 ==> LineEnd(s, p) == q
    ensures Peek(s, q) == 0x0A ==> LineEnd(s, p) == q + 1
    decreases q - p
  {
    if p < q {
      LineReads(s, p + 1, q);
    }
  }

  lemma {:induction false} LineSpelled(s: seq<byte>, p: nat) returns (q: nat)
    requires p <= |s|
    ensures p <= q <= |s| && (Peek(s, q) == 0 || Peek(s, q) == 0x0A)
    ensures forall k :: p <= k < q ==> s[k] != 0 && s[k] != 0x0A
    decreases |s| - p
  {
    if Peek(s, p) == 0 || s[p] == 0x0A {
      q := p;
    } else {
      q := LineSpelled(s, p + 1);
    }
  }

  lemma {:induction false} BytesOf(s: seq<byte>, i: nat, t: seq<byte>)
    requires Occurs(s, i, t)
    ensures forall k :: 0 <= k < |t| ==> s[i + k] == t[k]
  {
    forall k | 0 <= k < |t|
      ensures s[i + k] == t[k]
    {
      assert s[i..i + |t|][k] == s[i + k];
    }
  }

  lemma {:induction false} CommentReads(s: seq<byte>, i: nat, c: seq<byte>)
    requires IsComment(c) && Occurs(s, i, c)
    ensures i < |s| && s[i] == SLASH && CommentEnd(s, i) == Some(i + |c|)
  {
    var n := |c|;
    BytesOf(s, i, c);
    assert s[i + 0] == c[0] && s[i + 1] == c[1];
    if c[1] == 0x2A {
      assert s[i + (n - 2)] == c[n - 2] && s[i + (n - 1)] == c[n - 1];
      forall k | i + 2 <= k < i + n - 2
        ensures s[k] != 0 && !(s[k] == 0x2A && s[k + 1] == 0x2F)
      {
        assert s[i + (k - i)] == c[k - i] && s[i + (k - i + 1)] == c[k - i + 1];
      }
      BlockReads(s, i + 2, i + n - 2);
    } else {
      assert s[i + (n - 1)] == c[n - 1];
      forall k | i + 2 <= k < i + n - 1
        ensures s[k] != 0 && s[k] != 0x0A
      {
        assert s[i + (k - i)] == c[k - i];
      }
      LineReads(s, i + 2, i + n - 1);
    }
  }

  lemma {:induction false} LastCommentReads(s: seq<byte>, i: nat, c: seq<byte>)
    requires IsLastComment(c) && Occurs(s, i, c) && Peek(s, i + |c|) == 0
    ensures i < |s| && s[i] == SLASH && CommentEnd(s, i) == Some(i + |c|)
  {
    BytesOf(s, i, c);
    assert s[i + 0] == c[0] && s[i + 1] == c[1];
    forall k | i + 2 <= k < i + |c|
      ensures s[k] != 0 && s[k] != 0x0A
    {
      assert s[i + (k - i)] == c[k - i];
    }
    LineReads(s, i + 2, i + |c|);
  }

  lemma {:induction false} CommentSpelled(s: seq<byte>, i: nat)
    requires i < |s| && s[i] == SLASH && CommentEnd(s, i).Some?
    ensures var j := CommentEnd(s, i).value; IsComment(s[i..j]) || (IsLastComment(s[i..j]) && Peek(s, j) == 0)
  {
    var j := CommentEnd(s, i).value;
    var c := s[i..j];
    if Peek(s, i + 1) == STAR {
      var q := BlockSpelled(s, i + 2);
      assert c[|c| - 2] == s[q] && c[|c| - 1] == s[q + 1];
    } else {
      var q := LineSpelled(s, i + 2);
      LineReads(s, i + 2, q);
    }
  }

  // ---------- Gaps

  lemma {:induction false} SpaceSkips(s: seq<byte>, comments: bool, i: nat)
    requires i < |s| && IsSpace(s[i])
    ensures Skip(s, comments, i) == Skip(s, comments, i + 1)
  {
    assert SkipSpace(s, i) == SkipSpace(s, i + 1);
  }

  lemma {:induction false} CommentSkips(s: seq<byte>, i: nat)
    requires i < |s| && s[i] == SLASH
    ensures Skip(s, true, i) == match CommentEnd(s, i)
                                case None => None
                                case Some(k) => Skip(s, true, k)
  {
    assert SkipSpace(s, i) == i;
  }

  lemma {:induction false} NothingSkips(s: seq<byte>, comments: bool, i: nat)
    requires i <= |s| && !IsSpace(Peek(s, i)) && (comments ==> Peek(s, i) != SLASH)
    ensures Skip(s, comments, i) == Some(i)
  {
    assert SkipSpace(s, i) == i;
  }

  lemma {:induction false} GapParts(t: seq<byte>, comments: bool) returns (n: nat)
    requires IsGap(t, comments) && t != []
    ensures 1 <= n <= |t| && IsGap(t[n..], comments)
    ensures (n == 1 && IsSpace(t[0])) || (comments && IsComment(t[..n]))
  {
    hide IsComment;
    if t[0] in {0x20, 0x09, 0x0A, 0x0D} && IsGap(t[1..], comments) {
      n := 1;
    } else {
      n :| 1 <= n <= |t| && IsComment(t[..n]) && IsGap(t[n..], comments);
    }
  }

  lemma {:induction false} GapSkips(s: seq<byte>, comments: bool, i: nat, t: seq<byte>)
    requires IsGap(t, comments) && Occurs(s, i, t)
    ensures Skip(s, comments, i) == Skip(s, comments, i + |t|)
    decreases |t|
  {
    hide Skip, IsComment, IsGap, Occurs;
    if t != [] {
      var n := GapParts(t, comments);
      R.FirstByte(s, i, t);
      assert t == t[..n] + t[n..];
      OccursSplit(s, i, t[..n], t[n..]);
      if n == 1 && IsSpace(t[0]) {
        SpaceSkips(s, comments, i);
      } else {
        CommentReads(s, i, t[..n]);
        CommentSkips(s, i);
      }
      GapSkips(s, comments, i + n, t[n..]);
    }
  }

  /** A gap is skipped, up to what is none. */
  lemma {:induction false} GapReads(s: seq<byte>, comments: bool, i: nat, t: seq<byte>)
    requires IsGap(t, comments) && Occurs(s, i, t)
    requires !IsSpace(Peek(s, i + |t|)) && (comments ==> Peek(s, i + |t|) != SLASH)
    ensures Skip(s, comments, i) == Some(i + |t|)
  {
    hide Skip, IsGap;
    GapSkips(s, comments, i, t);
    NothingSkips(s, comments, i + |t|);
  }

  lemma {:induction false} TailReads(s: seq<byte>, comments: bool, i: nat, t: seq<byte>)
    requires IsTail(t, comments) && Occurs(s, i, t) && Peek(s, i + |t|) == 0
    ensures Skip(s, comments, i) == Some(i + |t|)
  {
    hide Skip, IsGap;
    NothingSkips(s, comments, i + |t|);
    if IsGap(t, comments) {
      GapSkips(s, comments, i, t);
    } else {
      var n :| 0 <= n <= |t| && IsGap(t[..n], comments) && IsLastComment(t[n..]);
      assert t == t[..n] + t[n..];
      OccursSplit(s, i, t[..n], t[n..]);
      GapSkips(s, comments, i, t[..n]);
      LastCommentReads(s, i + n, t[n..]);
      CommentSkips(s, i + n);
    }
  }

  lemma {:induction false} GapAfterSpace(t: seq<byte>, comments: bool)
    requires t != [] && IsSpace(t[0])
    ensures IsGap(t[1..], comments) ==> IsGap(t, comments)
    ensures IsTail(t[1..], comments) ==> IsTail(t, comments)
  {
    hide IsComment, IsLastComment;
    if IsTail(t[1..], comments) && !IsGap(t[1..], comments) {
      var n :| 0 <= n <= |t[1..]| && IsGap(t[1..][..n], comments) && IsLastComment(t[1..][n..]);
      assert t[..n + 1][1..] == t[1..][..n] && t[n + 1..] == t[1..][n..];
      assert IsGap(t[..n + 1], comments);
    }
  }

  lemma {:induction false} GapAfterComment(c: seq<byte>, t: seq<byte>)
    requires IsComment(c)
    ensures IsGap(t, true) ==> IsGap(c + t, true)
    ensures IsTail(t, true) ==> IsTail(c + t, true)
  {
    hide IsComment, IsLastComment, IsGap;
    CommentFirst(c, t);
    if IsTail(t, true) && !IsGap(t, true) {
      var n :| 0 <= n <= |t| && IsGap(t[..n], true) && IsLastComment(t[n..]);
      CommentFirst(c, t[..n]);
      var all := c + t;
      assert all[..|c| + n] == c + t[..n] && all[|c| + n..] == t[n..];
    }
  }

  lemma {:induction false} CommentFirst(c: seq<byte>, t: seq<byte>)
    requires IsComment(c)
    ensures IsGap(t, true) ==> IsGap(c + t, true)
  {
    CommentSize(c);
    hide IsComment;
    var all := c + t;
    assert all[..|c|] == c && all[|c|..] == t;
  }

  lemma CommentSize(c: seq<byte>)
    requires IsComment(c)
    ensures |c| >= 3
  {
  }

  /** What is skipped is a gap, or at the end of a text what may come there. */
  lemma {:induction false} SkipSpelled(s: seq<byte>, comments: bool, i: nat)
    requires i <= |s| && Skip(s, comments, i).Some?
    ensures var j := Skip(s, comments, i).value;
            && !IsSpace(Peek(s, j)) && (comments ==> Peek(s, j) != SLASH)
            && IsTail(s[i..j], comments) && (Peek(s, j) != 0 ==> IsGap(s[i..j], comments))
    decreases |s| - i
  {
    hide IsComment, IsLastComment, CommentEnd;
    var j := Skip(s, comments, i).value;
    if IsSpace(Peek(s, i)) {
      SpaceSkips(s, comments, i);
      SkipSpelled(s, comments, i + 1);
      assert s[i..j][1..] == s[i + 1..j];
      GapAfterSpace(s[i..j], comments);
    } else if comments && Peek(s, i) == SLASH {
      CommentSkips(s, i);
      CommentSpelled(s, i);
      CommentThenGap(s, i, j);
    } else {
      NothingSkips(s, comments, i);
      assert s[i..j] == [];
    }
  }

  lemma {:induction false} CommentThenGap(s: seq<byte>, i: nat, j: nat)
    requires i < |s| && s[i] == SLASH && Skip(s, true, i) == Some(j) && CommentEnd(s, i).Some?
    ensures !IsSpace(Peek(s, j)) && Peek(s, j) != SLASH
    ensures IsTail(s[i..j], true) && (Peek(s, j) != 0 ==> IsGap(s[i..j], true))
    decreases |s| - i, 0
  {
    hide IsComment, IsLastComment, CommentEnd, Skip;
    CommentSkips(s, i);
    CommentSpelled(s, i);
    var k := CommentEnd(s, i).value;
    if IsComment(s[i..k]) {
      SkipSpelled(s, true, k);
      assert s[i..j] == s[i..k] + s[k..j];
      GapAfterComment(s[i..k], s[k..j]);
    } else {
      NothingSkips(s, true, k);
      assert s[i..j][..0] == [] && s[i..j][0..] == s[i..k];
      assert IsGap([], true);
    }
  }

  // ---------- Numbers

  /** Where the parts of a number lie. */
  predicate PartsAt(s: seq<byte>, a: nat, m: Number) {
    var b := a + |m.whole|;
    var c := b + |FractionText(m.fraction)|;
    && Occurs(s, a, m.whole) && Occurs(s, b, FractionText(m.fraction)) && Occurs(s, c, ExponentText(m.exponent))
    && NumberStops(m, Peek(s, c + |ExponentText(m.exponent)|))
  }

  lemma {:induction false} DigitsHere(s: seq<byte>, a: nat, t: seq<byte>)
    requires Occurs(s, a, t) && AllDigits(t)
    ensures forall k :: a <= k < a + |t| ==> IsDigit(s[k])
    ensures a + |t| <= |s| && s[a..a + |t|] == t
    ensures !IsDigit(Peek(s, a + |t|)) ==> N.DigitsEnd(s, a) == a + |t|
  {
    BytesOf(s, a, t);
    forall k | a <= k < a + |t|
      ensures IsDigit(s[k])
    {
      assert s[a + (k - a)] == t[k - a];
    }
    if !IsDigit(Peek(s, a + |t|)) {
      N.DigitsEndIs(s, a, a + |t|);
    }
  }

  /** The first bytes of the parts. */
  lemma {:induction false} PartsStart(s: seq<byte>, b: nat, m: Number)
    requires ValidNumber(m) && Occurs(s, b, FractionText(m.fraction))
    requires Occurs(s, b + |FractionText(m.fraction)|, ExponentText(m.exponent))
    ensures m.fraction.Some? ==> Peek(s, b) == DOT
    ensures m.exponent.Some? ==> N.IsExponentMark(Peek(s, b + |FractionText(m.fraction)|))
    ensures m.fraction.None? ==> |FractionText(m.fraction)| == 0
    ensures m.exponent.None? ==> |ExponentText(m.exponent)| == 0
  {
    hide SignText, AllDigits, Occurs;
    if m.fraction.Some? {
      R.FirstByte(s, b, FractionText(m.fraction));
    }
    if m.exponent.Some? {
      R.FirstByte(s, b + |FractionText(m.fraction)|, ExponentText(m.exponent));
    }
  }

  lemma {:induction false} WholeReads(s: seq<byte>, a: nat, m: Number)
    requires ValidNumber(m) && PartsAt(s, a, m)
    ensures N.IntegerEnd(s, a) == Some(a + |m.whole|) && s[a..a + |m.whole|] == m.whole
    ensures var b := a + |m.whole|;
            && (m.fraction.Some? <==> Peek(s, b) == DOT)
            && (m.fraction.None? ==> (m.exponent.Some? <==> N.IsExponentMark(Peek(s, b))))
  {
    hide FractionText, ExponentText, Occurs;
    var b := a + |m.whole|;
    PartsStart(s, b, m);
    hide ValidNumber;
    WholeDigits(s, a, m);
  }

  /** What follows the integer part, if it is more than a zero, is no digit. */
  lemma {:induction false} WholeDigits(s: seq<byte>, a: nat, m: Number)
    requires ValidNumber(m) && Occurs(s, a, m.whole)
    requires m.whole != [0x30] ==> !IsDigit(Peek(s, a + |m.whole|))
    ensures N.IntegerEnd(s, a) == Some(a + |m.whole|) && s[a..a + |m.whole|] == m.whole
  {
    hide FractionText, ExponentText, Occurs, AllDigits;
    DigitsHere(s, a, m.whole);
    R.FirstByte(s, a, m.whole);
    FirstIsDigit(m.whole);
    if |m.whole| == 1 && m.whole[0] == 0x30 {
      assert m.whole == [0x30];
    }
  }

  lemma FirstIsDigit(t: seq<byte>)
    requires t != [] && AllDigits(t)
    ensures IsDigit(t[0])
  {
  }

  lemma {:induction false} FractionReads(s: seq<byte>, b: nat, m: Number)
    requires ValidNumber(m) && m.fraction.Some? && Occurs(s, b, FractionText(m.fraction))
    requires var c := b + |FractionText(m.fraction)|;
             Occurs(s, c, ExponentText(m.exponent)) && NumberStops(m, Peek(s, c + |ExponentText(m.exponent)|))
    ensures var c := b + |FractionText(m.fraction)|;
            && IsDigit(Peek(s, b + 1)) && N.DigitsEnd(s, b + 1) == c && s[b + 1..c] == m.fraction.value
            && (m.exponent.Some? <==> N.IsExponentMark(Peek(s, c)))
  {
    hide ExponentText, Occurs, AllDigits;
    PartsStart(s, b, m);
    OccursSplit(s, b, [0x2E], m.fraction.value);
    FirstIsDigit(m.fraction.value);
    R.FirstByte(s, b + 1, m.fraction.value);
    DigitsHere(s, b + 1, m.fraction.value);
  }

  /** The parts of an exponent. */
  lemma {:induction false} ExponentParts(s: seq<byte>, c: nat, e: Exponent)
    requires (e.sign.Some? ==> e.sign.value in {0x2B, 0x2D}) && e.digits != [] && AllDigits(e.digits)
    requires Occurs(s, c, ExponentText(Some(e)))
    ensures c < |s| && Occurs(s, c + 1 + |SignText(e.sign)|, e.digits)
    ensures Peek(s, c + 1) == PLUS <==> e.sign == Some(0x2B)
    ensures Peek(s, c + 1) == MINUS <==> e.sign == Some(0x2D)
  {
    hide Occurs, AllDigits, SignText;
    OccursSplit(s, c, [e.mark], SignText(e.sign) + e.digits);
    R.FirstByte(s, c, [e.mark]);
    SignParts(s, c + 1, e.sign, e.digits);
  }

  lemma {:induction false} SignParts(s: seq<byte>, p: nat, sign: Option<byte>, digits: seq<byte>)
    requires (sign.Some? ==> sign.value in {0x2B, 0x2D}) && digits != [] && AllDigits(digits)
    requires Occurs(s, p, SignText(sign) + digits)
    ensures Occurs(s, p + |SignText(sign)|, digits)
    ensures (Peek(s, p) == PLUS <==> sign == Some(0x2B)) && (Peek(s, p) == MINUS <==> sign == Some(0x2D))
  {
    hide Occurs, AllDigits;
    FirstIsDigit(digits);
    if sign.Some? {
      OccursSplit(s, p, [sign.value], digits);
      R.FirstByte(s, p, [sign.value]);
    } else {
      assert SignText(sign) + digits == digits;
      R.FirstByte(s, p, digits);
    }
  }

  lemma {:induction false} ExponentReads(s: seq<byte>, c: nat, e: Exponent, scale: nat)
    requires e.mark in {0x65, 0x45} && (e.sign.Some? ==> e.sign.value in {0x2B, 0x2D})
    requires e.digits != [] && AllDigits(e.digits) && Occurs(s, c, ExponentText(Some(e)))
    requires !IsDigit(Peek(s, c + |ExponentText(Some(e))|))
    ensures N.Exponent(s, c, scale)
            == if e.sign != Some(0x2D) && !N.ExponentFits(e.digits[1..], N.DigitValue(e.digits[0]), 308 + scale)
               then N.Bad else N.Floating(c + |ExponentText(Some(e))|)
  {
    hide N.ExponentFits, Occurs, AllDigits, ExponentText, N.DigitsEnd;
    var q := c + 1 + |SignText(e.sign)|;
    ExponentSize(e);
    ExponentParts(s, c, e);
    DigitsHere(s, q, e.digits);
    FirstIsDigit(e.digits);
    R.FirstByte(s, q, e.digits);
    assert s[q + 1..q + |e.digits|] == s[q..q + |e.digits|][1..];
  }

  lemma ExponentSize(e: Exponent)
    ensures |ExponentText(Some(e))| == 1 + |SignText(e.sign)| + |e.digits|
    ensures |SignText(e.sign)| == if e.sign.Some? then 1 else 0
  {
  }

  lemma {:induction false} NumberPartsReads(s: seq<byte>, a: nat, m: Number)
    requires ValidNumber(m) && PartsAt(s, a, m)
    ensures var b := a + |m.whole|;
            var end := b + |FractionText(m.fraction)| + |ExponentText(m.exponent)|;
            N.IntegerEnd(s, a) == Some(b) && b <= |s|
            && N.AfterInteger(s, m.minus, a, b)
               == if !InLimits(m) then N.Bad
                  else if m.fraction.None? && m.exponent.None? && !IsBig(m) then N.Whole(end, m.minus, Magnitude(m))
                  else N.Floating(end)
  {
    hide N.Decimal, N.ScalingDigits, N.ExponentFits, N.TooBig, N.Exponent, Occurs, FractionText, ExponentText,
      AllDigits, NumberStops, N.IsExponentMark;
    var b := a + |m.whole|;
    var c := b + |FractionText(m.fraction)|;
    WholeReads(s, a, m);
    TextHere(s, a, m.whole);
    assert s[a..b - 1] == s[a..b][..|m.whole| - 1];
    PartsStart(s, b, m);
    if m.fraction.Some? {
      FractionReads(s, b, m);
    }
    if m.exponent.Some? {
      StopsAfterExponent(m, Peek(s, c + |ExponentText(m.exponent)|));
      ExponentReads(s, c, m.exponent.value, Scale(m));
    }
  }

  lemma StopsAfterExponent(m: Number, c: byte)
    requires m.exponent.Some? && NumberStops(m, c)
    ensures !IsDigit(c)
  {
  }

  /** The text of a number, part by part. */
  predicate PartsOccur(s: seq<byte>, i: nat, m: Number) {
    var a := if m.minus then i + 1 else i;
    var b := a + |m.whole|;
    && (m.minus ==> Peek(s, i) == MINUS && i < |s|)
    && Occurs(s, a, m.whole) && Occurs(s, b, FractionText(m.fraction))
    && Occurs(s, b + |FractionText(m.fraction)|, ExponentText(m.exponent))
  }

  lemma {:induction false} TextHasParts(s: seq<byte>, i: nat, m: Number)
    requires Occurs(s, i, NumberText(m))
    ensures PartsOccur(s, i, m)
  {
    hide FractionText, ExponentText, Occurs;
    var a := if m.minus then i + 1 else i;
    var rest := FractionText(m.fraction) + ExponentText(m.exponent);
    var sign := if m.minus then [0x2D] else [];
    OccursSplit(s, i, sign, m.whole + rest);
    OccursSplit(s, a, m.whole, rest);
    OccursSplit(s, a + |m.whole|, FractionText(m.fraction), ExponentText(m.exponent));
    if m.minus {
      R.FirstByte(s, i, sign);
    }
  }

  lemma {:induction false} PartsMakeText(s: seq<byte>, i: nat, m: Number)
    requires i <= |s| && PartsOccur(s, i, m)
    ensures Occurs(s, i, NumberText(m))
  {
    hide FractionText, ExponentText, Occurs;
    var a := if m.minus then i + 1 else i;
    var rest := FractionText(m.fraction) + ExponentText(m.exponent);
    OccursJoin(s, a + |m.whole|, FractionText(m.fraction), ExponentText(m.exponent));
    OccursJoin(s, a, m.whole, rest);
    if m.minus {
      OccursByte(s, i);
      OccursJoin(s, i, [0x2D], m.whole + rest);
    } else {
      assert [] + (m.whole + rest) == m.whole + rest;
    }
  }

  lemma {:induction false} SignIsMinus(s: seq<byte>, i: nat, m: Number)
    requires ValidNumber(m) && PartsOccur(s, i, m)
    ensures m.minus <==> Peek(s, i) == MINUS
    ensures i < |s|
  {
    hide FractionText, ExponentText;
    R.FirstByte(s, if m.minus then i + 1 else i, m.whole);
  }

  /** A number is read to its end, or refused beyond the limits. */
  lemma {:induction false} NumberReads(s: seq<byte>, i: nat, m: Number)
    requires ValidNumber(m) && Occurs(s, i, NumberText(m)) && NumberStops(m, Peek(s, i + |NumberText(m)|))
    ensures i < |s|
    ensures N.NumberAt(s, i) == if InLimits(m) then Some((i + |NumberText(m)|, NumberEvent(m))) else None
  {
    hide N.IntegerEnd, N.AfterInteger, InLimits, IsBig, Magnitude, ValidNumber, Occurs, FractionText, ExponentText,
      NumberStops;
    TextHasParts(s, i, m);
    SignIsMinus(s, i, m);
    NumberPartsReads(s, if m.minus then i + 1 else i, m);
    TextHere(s, i, NumberText(m));
  }

  lemma TextHere(s: seq<byte>, i: nat, t: seq<byte>)
    requires Occurs(s, i, t)
    ensures i + |t| <= |s| && s[i..i + |t|] == t
  {
  }

  /** A number that is read is spelled there. */
  lemma {:induction false} NumberSpelled(s: seq<byte>, i: nat) returns (m: Number)
    requires i <= |s| && N.NumberAt(s, i).Some?
    ensures ValidNumber(m) && InLimits(m) && Occurs(s, i, NumberText(m))
    ensures NumberStops(m, Peek(s, i + |NumberText(m)|))
    ensures N.NumberAt(s, i) == Some((i + |NumberText(m)|, NumberEvent(m)))
  {
    hide InLimits, ValidNumber, Occurs, PartsOccur, NumberStops, N.NumberAt, NumberText;
    m := NumberParts(s, i);
    PartsMakeText(s, i, m);
    NumberReads(s, i, m);
  }

  lemma {:induction false} NumberParts(s: seq<byte>, i: nat) returns (m: Number)
    requires i <= |s| && N.NumberAt(s, i).Some?
    ensures ValidNumber(m) && PartsOccur(s, i, m)
    ensures NumberStops(m, Peek(s, i + |NumberText(m)|))
  {
    hide N.AfterInteger, Occurs, N.IntegerEnd, ValidNumber, NumberStops, FractionText, ExponentText, AllDigits;
    var minus := Peek(s, i) == MINUS;
    var a := if minus then i + 1 else i;
    var b := N.IntegerEnd(s, a).value;
    WholeSpelled(s, a);
    OccursHere(s, a, b - a);
    var fraction, exponent := AfterWhole(s, minus, a, b);
    m := Number(minus, s[a..b], fraction, exponent);
    TextSize(m);
  }

  lemma TextSize(m: Number)
    ensures |NumberText(m)|
            == (if m.minus then 1 else 0) + |m.whole| + |FractionText(m.fraction)| + |ExponentText(m.exponent)|
  {
    hide FractionText, ExponentText;
  }

  /** What an integer part that is not refused is followed by. */
  lemma {:induction false} FollowedBy(s: seq<byte>, minus: bool, a: nat, b: nat)
    requires a < b <= |s| && (forall k :: a <= k < b ==> IsDigit(s[k])) && !N.AfterInteger(s, minus, a, b).Bad?
    ensures Peek(s, b) == DOT ==> b < |s| && IsDigit(Peek(s, b + 1))
    ensures var c := if Peek(s, b) == DOT then N.DigitsEnd(s, b + 1) else b;
            N.IsExponentMark(Peek(s, c)) ==>
              var q := if Peek(s, c + 1) == PLUS || Peek(s, c + 1) == MINUS then c + 2 else c + 1;
              c < |s| && IsDigit(Peek(s, q))
  {
    hide N.Decimal, N.ScalingDigits, N.ExponentFits, N.TooBig;
  }

  lemma {:induction false} AfterWhole(s: seq<byte>, minus: bool, a: nat, b: nat)
    returns (fraction: Option<seq<byte>>, exponent: Option<Exponent>)
    requires a < b <= |s| && (forall k :: a <= k < b ==> IsDigit(s[k])) && !N.AfterInteger(s, minus, a, b).Bad?
    requires s[a..b] != [0x30] ==> !IsDigit(Peek(s, b))
    requires AllDigits(s[a..b]) && (b - a > 1 ==> s[a] != 0x30)
    ensures ValidNumber(Number(minus, s[a..b], fraction, exponent))
    ensures Occurs(s, b, FractionText(fraction)) && Occurs(s, b + |FractionText(fraction)|, ExponentText(exponent))
    ensures var end := b + |FractionText(fraction)| + |ExponentText(exponent)|;
            NumberStops(Number(minus, s[a..b], fraction, exponent), Peek(s, end))
  {
    hide N.AfterInteger, Occurs, ExponentText, FractionText, AllDigits;
    FollowedBy(s, minus, a, b);
    var c;
    fraction, c := FractionSpelled(s, b);
    exponent := None;
    NoExponentHere(s, c);
    if N.IsExponentMark(Peek(s, c)) {
      var e := ExponentSpelled(s, c);
      exponent := Some(e);
    }
  }

  lemma {:induction false} FractionSpelled(s: seq<byte>, b: nat) returns (f: Option<seq<byte>>, c: nat)
    requires b <= |s| && (Peek(s, b) == DOT ==> b < |s| && IsDigit(Peek(s, b + 1)))
    ensures f.Some? <==> Peek(s, b) == DOT
    ensures f.Some? ==> f.value != [] && AllDigits(f.value) && !IsDigit(Peek(s, c))
    ensures Occurs(s, b, FractionText(f)) && c == b + |FractionText(f)| <= |s|
    ensures c == if Peek(s, b) == DOT then N.DigitsEnd(s, b + 1) else b
  {
    hide Occurs;
    OccursNowhere(s, b);
    f, c := None, b;
    if Peek(s, b) == DOT {
      c := N.DigitsEnd(s, b + 1);
      f := Some(s[b + 1..c]);
      FractionHere(s, b, c);
    }
  }

  lemma NoExponentHere(s: seq<byte>, c: nat)
    requires c <= |s|
    ensures Occurs(s, c, ExponentText(None)) && |ExponentText(None)| == 0
  {
  }

  lemma OccursNowhere(s: seq<byte>, i: nat)
    requires i <= |s|
    ensures Occurs(s, i, [])
  {
  }

  lemma FractionHere(s: seq<byte>, b: nat, c: nat)
    requires b + 1 <= c <= |s| && s[b] == DOT
    ensures Occurs(s, b, [0x2E] + s[b + 1..c])
  {
    OccursByte(s, b);
    OccursHere(s, b + 1, c - (b + 1));
    OccursJoin(s, b, [0x2E], s[b + 1..c]);
  }

  lemma OccursHere(s: seq<byte>, i: nat, n: nat)
    requires i + n <= |s|
    ensures Occurs(s, i, s[i..i + n])
  {
  }

  lemma {:induction false} WholeSpelled(s: seq<byte>, a: nat)
    requires a <= |s| && N.IntegerEnd(s, a).Some?
    ensures var b := N.IntegerEnd(s, a).value;
            && a < b <= |s| && AllDigits(s[a..b]) && (b - a > 1 ==> s[a] != 0x30)
            && (s[a..b] != [0x30] ==> !IsDigit(Peek(s, b)))
  {
  }

  lemma {:induction false} ExponentSpelled(s: seq<byte>, c: nat) returns (e: Exponent)
    requires c < |s| && N.IsExponentMark(s[c])
    requires var q := if Peek(s, c + 1) == PLUS || Peek(s, c + 1) == MINUS then c + 2 else c + 1;
             IsDigit(Peek(s, q))
    ensures e.mark in {0x65, 0x45} && (e.sign.Some? ==> e.sign.value in {0x2B, 0x2D})
    ensures e.digits != [] && AllDigits(e.digits) && Occurs(s, c, ExponentText(Some(e)))
    ensures !IsDigit(Peek(s, c + |ExponentText(Some(e))|))
  {
    hide Occurs, AllDigits, ExponentText;
    var sign := if Peek(s, c + 1) == PLUS || Peek(s, c + 1) == MINUS then Some(s[c + 1]) else None;
    var q := c + 1 + |SignText(sign)|;
    var digits := DigitsSpelled(s, q);
    e := Exponent(s[c], sign, digits);
    SignSpelled(s, c + 1, sign, digits);
    OccursByte(s, c);
    hide SignText;
    OccursJoin(s, c, [s[c]], SignText(sign) + digits);
    ExponentIs(e);
  }

  lemma ExponentIs(e: Exponent)
    ensures ExponentText(Some(e)) == [e.mark] + (SignText(e.sign) + e.digits)
  {
  }

  lemma {:induction false} DigitsSpelled(s: seq<byte>, q: nat) returns (digits: seq<byte>)
    requires q < |s| && IsDigit(s[q])
    ensures digits != [] && AllDigits(digits) && Occurs(s, q, digits) && !IsDigit(Peek(s, q + |digits|))
  {
    digits := s[q..N.DigitsEnd(s, q)];
  }

  lemma {:induction false} SignSpelled(s: seq<byte>, p: nat, sign: Option<byte>, digits: seq<byte>)
    requires p < |s| && (sign.Some? ==> s[p] == sign.value) && Occurs(s, p + |SignText(sign)|, digits)
    ensures Occurs(s, p, SignText(sign) + digits)
  {
    hide Occurs;
    if sign.Some? {
      OccursByte(s, p);
      OccursJoin(s, p, [s[p]], digits);
    } else {
      assert [] + digits == digits;
    }
  }
}
