/** Names of pointers that are array indices: which numbers they stand for. */
module JsonPointerIndex {
  import opened Words
  import opened JsonText
  import opened JsonDocument
  import opened JsonPointer
  import opened JsonPointerTree
  import N = JsonNumber
  import W = JsonWriter
  import R = JsonRoundTrip

  /** A decimal number without a sign and without leading zeros. */
  predicate Canonical(name: seq<byte>) {
    name != [] && AllDigits(name) && (|name| > 1 ==> name[0] != ZERO)
  }

  lemma {:induction false} NumberIsDecimal(name: seq<byte>)
    requires AllDigits(name)
    ensures Number(name).Some? ==> Number(name).value == N.Decimal(0, name) % TWO_32
    ensures N.Decimal(0, name) < TWO_32 ==> Number(name) == Some(N.Decimal(0, name))
    decreases |name|
  {
    if name != [] {
      hide N.Decimal;
      var last := |name| - 1;
      var rest, d := N.Decimal(0, name[..last]), name[last] - ZERO;
      NumberIsDecimal(name[..last]);
      DecimalLast(name);
      WrapTwice(rest, d);
    }
  }

  lemma {:induction false} DecimalLast(name: seq<byte>)
    requires AllDigits(name) && name != []
    ensures N.Decimal(0, name) == N.Decimal(0, name[..|name| - 1]) * 10 + (name[|name| - 1] - ZERO)
  {
  }

  lemma WrapTwice(a: nat, d: nat)
    ensures (a % TWO_32 * 10 + d) % TWO_32 == (a * 10 + d) % TWO_32
  {
  }

  /** A name that is a canonical number is the index of its value, up to the largest that is
      one; beyond it is no index or, where the overflow is not seen, what is left of its value;
      and no other name is an index. */
  lemma {:induction false} IndexMeans(name: seq<byte>)
    requires |name| < TWO_32
    ensures !Canonical(name) ==> IndexOf(name) == INVALID_INDEX
    ensures Canonical(name) && N.Decimal(0, name) < INVALID_INDEX ==> IndexOf(name) == N.Decimal(0, name)
    ensures Canonical(name) && N.Decimal(0, name) >= INVALID_INDEX ==>
              IndexOf(name) == INVALID_INDEX || IndexOf(name) == N.Decimal(0, name) % TWO_32
  {
    hide Number, N.Decimal;
    if AllDigits(name) {
      NumberIsDecimal(name);
    }
  }

  /** The decimal digits of every number below the largest index are the index of it. */
  lemma {:induction false} DigitsAreIndex(n: nat)
    requires n < INVALID_INDEX
    ensures IndexOf(W.DigitsText(n)) == n && TokenOf(W.DigitsText(n)).name == W.DigitsText(n)
  {
    hide IndexOf, N.Decimal, W.DigitsText;
    var name := W.DigitsText(n);
    R.DigitsTextValue(n);
    DigitsFew(n, 11);
    IndexMeans(name);
  }

  /** Few digits are enough for a small number. */
  lemma {:induction false} DigitsFew(n: nat, k: nat)
    requires k >= 1 && n < N.Pow10(k)
    ensures |W.DigitsText(n)| <= k
    decreases k
  {
    if n >= 10 {
      DigitsFew(n / 10, k - 1);
    }
  }

  /** A pointer of one index finds that element of an array. */
  lemma {:induction false} IndexFinds(es: seq<Json>, n: nat)
    requires n < |es| && n < INVALID_INDEX
    ensures var p := Parse([SLASH] + W.DigitsText(n));
            p.Pointer? && Get(JArray(es), p.tokens) == Some(es[n])
  {
    hide Parse, IndexOf, W.DigitsText, PlainName;
    var name := W.DigitsText(n);
    var t := TokenOf(name);
    DigitsAreIndex(n);
    R.DigitsTextValue(n);
    PlainDigits(name);
    assert [t][1..] == [];
    assert [SLASH] + name + [] == [SLASH] + name;
    assert Plain([t]) == [SLASH] + name;
    PlainReadsBack([t]);
    GetOne(JArray(es), Normal([t])[0]);
    assert Normal([t]) == [Normal([t])[0]];
  }

  lemma {:induction false} PlainDigits(name: seq<byte>)
    requires AllDigits(name)
    ensures PlainName(name) == name
    decreases |name|
  {
    if name != [] {
      PlainDigits(name[1..]);
      assert [name[0]] + name[1..] == name;
    }
  }
}
