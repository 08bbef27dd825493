/** Machine words as natural numbers: bytes, 64-bit wrap-around, and the bitwise
    operators the sources apply to them. Masks with 2^k - 1 and shifts are written
    as `%`, `/` and `*` where they are used. */
module Words {
  type byte = x: int | 0 <= x < 256

  const TWO_32 := 0x1_0000_0000
  const TWO_64 := 0x1_0000_0000_0000_0000

  /** Reduction to an unsigned 64-bit word. */
  function Wrap64(x: int): (r: int)
    ensures 0 <= r < TWO_64
    ensures 0 <= x < TWO_64 ==> r == x
  {
    x % TWO_64
  }

  /** Truncation to an unsigned char. */
  function Low8(x: nat): byte {
    x % 256
  }

  /** Bitwise or. */
  function Or(a: nat, b: nat): nat
    decreases a + b
  {
    if a == 0 && b == 0 then 0
    else (if a % 2 == 1 || b % 2 == 1 then 1 else 0) + 2 * Or(a / 2, b / 2)
  }

  /** Bitwise exclusive or. */
  function Xor(a: nat, b: nat): nat
    decreases a + b
  {
    if a == 0 && b == 0 then 0
    else (if a % 2 != b % 2 then 1 else 0) + 2 * Xor(a / 2, b / 2)
  }

  lemma {:induction false} OrZero(a: nat)
    ensures Or(a, 0) == a
  {
    if a != 0 {
      OrZero(a / 2);
    }
  }

  /** Two words are equal exactly when their exclusive or is zero. */
  lemma {:induction false} XorZero(a: nat, b: nat)
    ensures Xor(a, b) == 0 <==> a == b
    decreases a + b
  {
    if a != 0 || b != 0 {
      XorZero(a / 2, b / 2);
    }
  }

  /** The number of trailing zero bits of a word that is not zero. */
  function TrailingZeros(v: nat): nat
    requires v > 0
  {
    if v % 2 == 1 then 0 else 1 + TrailingZeros(v / 2)
  }

  /** The value of bytes stored least significant first. */
  function LittleEndian(b: seq<byte>): nat {
    if b == [] then 0 else b[0] + 256 * LittleEndian(b[1..])
  }

  lemma {:induction false} LittleEndianBound4(b: seq<byte>)
    requires |b| == 4
    ensures LittleEndian(b) == b[0] + 0x100 * b[1] as int + 0x1_0000 * b[2] as int + 0x100_0000 * b[3] as int
    ensures LittleEndian(b) < TWO_32
  {
    var b1 := b[1..];
    var b2 := b1[1..];
    var b3 := b2[1..];
    assert LittleEndian(b3) == b[3] by { assert LittleEndian(b3[1..]) == 0; }
    assert LittleEndian(b2) == b[2] + 256 * LittleEndian(b3);
    assert LittleEndian(b1) == b[1] + 256 * LittleEndian(b2);
  }

  lemma {:induction false} LittleEndianInjective(a: seq<byte>, b: seq<byte>)
    requires |a| == |b|
    ensures LittleEndian(a) == LittleEndian(b) <==> a == b
  {
    if a != [] {
      LittleEndianInjective(a[1..], b[1..]);
      assert a == [a[0]] + a[1..] && b == [b[0]] + b[1..];
    }
  }

  /** Equal in their lowest `k` bits. */
  predicate SameLow(a: nat, b: nat, k: nat) {
    k == 0 || (a % 2 == b % 2 && SameLow(a / 2, b / 2, k - 1))
  }

  function ShiftRight(a: nat, k: nat): nat {
    if k == 0 then a else ShiftRight(a / 2, k - 1)
  }

  /** The lowest bit in which two words differ is the lowest bit of their exclusive or. */
  lemma {:induction false} XorTrailingZeros(a: nat, b: nat, k: nat)
    requires a != b
    ensures Xor(a, b) > 0
    ensures !SameLow(a, b, k) ==> TrailingZeros(Xor(a, b)) < k
    ensures SameLow(a, b, k) ==>
      && Xor(ShiftRight(a, k), ShiftRight(b, k)) > 0
      && TrailingZeros(Xor(a, b)) == k + TrailingZeros(Xor(ShiftRight(a, k), ShiftRight(b, k)))
    decreases k
  {
    XorZero(a, b);
    if k > 0 && a % 2 == b % 2 {
      XorTrailingZeros(a / 2, b / 2, k - 1);
    }
  }

  function Pow2(k: nat): (p: nat)
    ensures p >= 1
  {
    if k == 0 then 1 else 2 * Pow2(k - 1)
  }

  lemma HalfOfShifted(x: nat, k: nat, q: nat)
    requires k > 0
    ensures (x + Pow2(k) * q) / 2 == x / 2 + Pow2(k - 1) * q
    ensures (x + Pow2(k) * q) % 2 == x % 2
  {
    var y := Pow2(k - 1) * q;
    assert Pow2(k) * q == 2 * y;
  }

  /** Shifting out the low bits, and comparing them. */
  lemma {:induction false} LowBits(x: nat, y: nat, g: nat, h: nat, k: nat)
    requires x < Pow2(k) && y < Pow2(k)
    ensures ShiftRight(x + Pow2(k) * g, k) == g
    ensures SameLow(x + Pow2(k) * g, y + Pow2(k) * h, k) <==> x == y
    decreases k
  {
    if k > 0 {
      HalfOfShifted(x, k, g);
      HalfOfShifted(y, k, h);
      LowBits(x / 2, y / 2, g, h, k - 1);
    }
  }

  /** Oring a value into bits that are zero is addition. */
  lemma {:induction false} OrDisjoint(q: nat, b: nat, k: nat)
    requires b < Pow2(k)
    ensures Or(Pow2(k) * q, b) == Pow2(k) * q + b
    decreases k
  {
    if k == 0 {
      OrZero(q);
    } else {
      HalfOfShifted(0, k, q);
      OrDisjoint(q, b / 2, k - 1);
    }
  }

  // ---------- Texts inside texts

  /** `b` occurs in `z` at position `i`. */
  predicate Occurs(z: seq<byte>, i: nat, b: seq<byte>) {
    i + |b| <= |z| && z[i..i + |b|] == b
  }

  lemma OccursSplit(z: seq<byte>, i: nat, a: seq<byte>, b: seq<byte>)
    requires Occurs(z, i, a + b)
    ensures Occurs(z, i, a) && Occurs(z, i + |a|, b)
  {
    var w := z[i..i + |a + b|];
    assert z[i..i + |a|] == w[..|a|] == a;
    assert z[i + |a|..i + |a| + |b|] == w[|a|..] == b;
  }

  lemma OccursJoin(z: seq<byte>, i: nat, a: seq<byte>, b: seq<byte>)
    requires Occurs(z, i, a) && Occurs(z, i + |a|, b)
    ensures Occurs(z, i, a + b)
  {
    assert z[i..i + |a + b|] == z[i..i + |a|] + z[i + |a|..i + |a| + |b|];
  }

  lemma OccursByte(z: seq<byte>, i: nat)
    requires i < |z|
    ensures Occurs(z, i, [z[i]])
  {
  }

  lemma OccursTwo(z: seq<byte>, i: nat)
    requires i + 2 <= |z|
    ensures Occurs(z, i, [z[i], z[i + 1]])
  {
    assert z[i..i + 2] == [z[i], z[i + 1]];
  }

  lemma OccursParts(p: seq<byte>, q: seq<byte>)
    ensures Occurs(p + q, 0, p) && Occurs(p + q, |p|, q)
  {
    assert (p + q)[0..|p|] == p && (p + q)[|p|..|p| + |q|] == q;
  }
}
