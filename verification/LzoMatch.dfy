/** How far a match reaches: the word-wide comparison of the compressor against the
    byte-wise one, both against the longest common extension. */
module LzoMatch {
  import opened Words

  /** The text from `a` to `b` repeats what stands `off` bytes before it. */
  predicate Repeats(x: seq<byte>, off: nat, a: nat, b: nat)
    requires off <= a && b <= |x|
  {
    forall i, j :: a <= i < b && j == i - off ==> x[i] == x[j]
  }

  /** The number of bytes from `a` on that repeat those `off` before, at most `n`. */
  function Common(x: seq<byte>, a: nat, off: nat, n: nat): (c: nat)
    requires off <= a && a + n <= |x|
    ensures c <= n
    decreases |x| - a
  {
    if n == 0 || x[a] != x[a - off] then 0 else 1 + Common(x, a + 1, off, n - 1)
  }

  lemma {:induction false} CommonIsLongest(x: seq<byte>, a: nat, off: nat, n: nat)
    requires off <= a && a + n <= |x|
    ensures var c := Common(x, a, off, n);
            Repeats(x, off, a, a + c) && (c < n ==> x[a + c] != x[a + c - off])
    decreases |x| - a
  {
    if n > 0 && x[a] == x[a - off] {
      CommonIsLongest(x, a + 1, off, n - 1);
    }
  }

  /** The end of the match at `p`, which is known to reach `p`: eight bytes are
      compared at a time, and the search stops once it has reached `ipEnd`. */
  function MatchEnd(x: seq<byte>, off: nat, p: nat, ipEnd: nat): (r: nat)
    requires off <= p < ipEnd + 4 && ipEnd + 20 <= |x|
    ensures p <= r < ipEnd + 12 && Repeats(x, off, p, r)
    decreases |x| - p
  {
    CommonIsLongest(x, p, off, 8);
    var c := Common(x, p, off, 8);
    if c < 8 then p + c
    else if p + 8 >= ipEnd then p + 8
    else MatchEnd(x, off, p + 8, ipEnd)
  }

  /** The match found is the longest one, unless it was stopped at `ipEnd`. */
  lemma {:induction false} MatchEndIsLongest(x: seq<byte>, off: nat, p: nat, ipEnd: nat)
    requires off <= p < ipEnd + 4 && ipEnd + 20 <= |x|
    ensures var r := MatchEnd(x, off, p, ipEnd);
            x[r] != x[r - off] || (r >= ipEnd && (r - p) % 8 == 0)
    decreases |x| - p
  {
    hide Common, Repeats;
    CommonIsLongest(x, p, off, 8);
    if Common(x, p, off, 8) == 8 && p + 8 < ipEnd {
      MatchEndIsLongest(x, off, p + 8, ipEnd);
    }
  }

  /** A word of eight bytes, least significant first. */
  function Load64(x: seq<byte>, i: nat): nat
    requires i + 8 <= |x|
  {
    LittleEndian(x[i..i + 8])
  }

  /** Bytes agree up to their first difference. */
  function FirstDifference(s: seq<byte>, t: seq<byte>): (c: nat)
    requires |s| == |t|
    ensures c <= |s|
  {
    if s == [] || s[0] != t[0] then 0 else 1 + FirstDifference(s[1..], t[1..])
  }

  /** The trailing zero bytes of the exclusive or of two words are their equal bytes. */
  lemma {:induction false} XorFindsDifference(s: seq<byte>, t: seq<byte>)
    requires |s| == |t|
    ensures var v := Xor(LittleEndian(s), LittleEndian(t));
            && (v == 0 <==> FirstDifference(s, t) == |s|)
            && (v > 0 ==> TrailingZeros(v) / 8 == FirstDifference(s, t))
  {
    if s != [] {
      XorFindsDifference(s[1..], t[1..]);
      WordStep(s[0], t[0], LittleEndian(s[1..]), LittleEndian(t[1..]));
    }
  }

  lemma WordStep(x: byte, y: byte, g: nat, h: nat)
    ensures var v, w := Xor(x + 256 * g, y + 256 * h), Xor(g, h);
            && (x != y ==> v > 0 && TrailingZeros(v) < 8)
            && (x == y ==> (v == 0 <==> w == 0))
            && (x == y && w > 0 ==> TrailingZeros(v) == 8 + TrailingZeros(w))
  {
    hide Xor, TrailingZeros;
    assert Pow2(8) == 256 by { assert Pow2(4) == 16; }
    LowBits(x, y, g, h, 8);
    LowBits(y, x, h, g, 8);
    XorZero(x + 256 * g, y + 256 * h);
    XorZero(g, h);
    if x + 256 * g != y + 256 * h {
      XorTrailingZeros(x + 256 * g, y + 256 * h, 8);
    }
  }

  lemma {:induction false} FirstDifferenceIsCommon(x: seq<byte>, a: nat, off: nat, n: nat)
    requires off <= a && a + n <= |x|
    ensures FirstDifference(x[a..a + n], x[a - off..a - off + n]) == Common(x, a, off, n)
    decreases n
  {
    hide Repeats, Common, FirstDifference;
    var s, t := x[a..a + n], x[a - off..a - off + n];
    CommonStep(x, a, off, n);
    FirstDifferenceStep(s, t);
    if n > 0 {
      SliceTail(x, a, n);
      SliceTail(x, a - off, n);
      FirstDifferenceIsCommon(x, a + 1, off, n - 1);
    }
  }

  lemma {:induction false} FirstDifferenceStep(s: seq<byte>, t: seq<byte>)
    requires |s| == |t|
    ensures s == [] || s[0] != t[0] ==> FirstDifference(s, t) == 0
    ensures s != [] && s[0] == t[0] ==> FirstDifference(s, t) == 1 + FirstDifference(s[1..], t[1..])
  {
  }

  lemma SliceTail(x: seq<byte>, a: nat, n: nat)
    requires n > 0 && a + n <= |x|
    ensures x[a..a + n][0] == x[a] && x[a..a + n][1..] == x[a + 1..a + 1 + (n - 1)]
  {
  }

  /** Comparing two words tells how many of their eight bytes agree. */
  lemma {:induction false} WordsCompare(x: seq<byte>, a: nat, off: nat)
    requires off <= a && a + 8 <= |x|
    ensures var v := Xor(Load64(x, a), Load64(x, a - off));
            && (v == 0 <==> Common(x, a, off, 8) == 8)
            && (v > 0 ==> TrailingZeros(v) / 8 == Common(x, a, off, 8))
  {
    hide Xor, TrailingZeros, Common, FirstDifference, Repeats, LittleEndian;
    XorFindsDifference(x[a..a + 8], x[a - off..a - off + 8]);
    FirstDifferenceIsCommon(x, a, off, 8);
  }

  /** The comparison by words of eight bytes. */
  method ExtendByWords(x: seq<byte>, ip: nat, mp: nat, ipEnd: nat) returns (m: nat)
    requires mp <= ip < ipEnd && ipEnd + 20 <= |x|
    ensures ip + m == MatchEnd(x, ip - mp, ip + 4, ipEnd)
  {
    hide Xor, TrailingZeros, Common, Repeats, Load64;
    m := 4;
    var v := Xor(Load64(x, ip + m), Load64(x, mp + m));
    while v == 0
      invariant ip + m < ipEnd + 4 && m >= 4
      invariant v == Xor(Load64(x, ip + m), Load64(x, mp + m))
      invariant MatchEnd(x, ip - mp, ip + m, ipEnd) == MatchEnd(x, ip - mp, ip + 4, ipEnd)
      decreases |x| - m
    {
      WordsCompare(x, ip + m, ip - mp);
      m := m + 8;
      v := Xor(Load64(x, ip + m), Load64(x, mp + m));
      if ip + m >= ipEnd {
        return;
      }
    }
    WordsCompare(x, ip + m, ip - mp);
    m := m + TrailingZeros(v) / 8;
  }

  lemma {:induction false} CommonStep(x: seq<byte>, a: nat, off: nat, n: nat)
    requires off <= a && a + n <= |x|
    ensures n == 0 || x[a] != x[a - off] ==> Common(x, a, off, n) == 0
    ensures n > 0 && x[a] == x[a - off] ==> Common(x, a, off, n) == 1 + Common(x, a + 1, off, n - 1)
  {
    hide Repeats;
  }

  /** Up to eight comparisons of single bytes. */
  method CompareEight(x: seq<byte>, a: nat, b: nat) returns (n: nat)
    requires b <= a && a + 8 <= |x|
    ensures n == Common(x, a, a - b, 8)
  {
    hide Repeats, Common;
    n := 0;
    while n < 8 && x[a + n] == x[b + n]
      invariant n <= 8 && n + Common(x, a + n, a - b, 8 - n) == Common(x, a, a - b, 8)
    {
      assert x[a + n] == x[a + n - (a - b)];
      CommonStep(x, a + n, a - b, 8 - n);
      n := n + 1;
    }
    CommonStep(x, a + n, a - b, 8 - n);
  }

  /** The comparison by bytes, whose stop test comes after every eighth byte. */
  method ExtendByBytes(x: seq<byte>, ip: nat, mp: nat, ipEnd: nat) returns (m: nat)
    requires mp <= ip < ipEnd && ipEnd + 20 <= |x|
    ensures ip + m == MatchEnd(x, ip - mp, ip + 4, ipEnd)
  {
    hide Common, Repeats;
    m := 4;
    var n := CompareEight(x, ip + m, mp + m);
    while n == 8
      invariant ip + m < ipEnd + 4 && m >= 4
      invariant n == Common(x, ip + m, ip - mp, 8)
      invariant MatchEnd(x, ip - mp, ip + m, ipEnd) == MatchEnd(x, ip - mp, ip + 4, ipEnd)
      decreases |x| - m
    {
      m := m + 8;
      if ip + m >= ipEnd {
        return;
      }
      n := CompareEight(x, ip + m, mp + m);
    }
    m := m + n;
  }
}
