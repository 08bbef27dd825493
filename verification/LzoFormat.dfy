/** The LZO1X byte format as an algebra: a compressed body is a sequence of items,
    each a literal run followed by a back reference; `Encode` lays items out as
    bytes, `Expand` says what they stand for. */
module LzoFormat {
  import opened Words

  const M2_MAX_LEN := 8
  const M3_MAX_LEN := 33
  const M4_MAX_LEN := 9
  const M1_MAX_OFFSET := 0x0400
  const M2_MAX_OFFSET := 0x0800
  const M3_MAX_OFFSET := 0x4000
  const M4_MAX_OFFSET := 0xbfff

  /** A run of literals followed by a copy of `len` bytes from `off` bytes back. */
  datatype Item = Item(lits: seq<byte>, off: nat, len: nat)

  /** The overlapping byte-by-byte copy of `len` bytes from `off` bytes back. */
  function CopyBack(out: seq<byte>, off: nat, len: nat): (r: seq<byte>)
    requires 1 <= off <= |out|
    ensures |r| == |out| + len && out <= r
    decreases len
  {
    if len == 0 then out else CopyBack(out + [out[|out| - off]], off, len - 1)
  }

  /** Items whose references stay inside what has been produced so far and inside
      the format's windows. Only the first item needs a run of at least four. */
  predicate ValidItems(items: seq<Item>)
    decreases |items|, 0
  {
    items == [] ||
    (var it := items[|items| - 1];
     var rest := items[..|items| - 1];
     && ValidItems(rest)
     && it.len >= 3
     && 1 <= it.off <= M4_MAX_OFFSET
     && it.off <= |Expand(rest)| + |it.lits|
     && (rest == [] ==> |it.lits| >= 4))
  }

  /** The plain bytes a sequence of items stands for. */
  function Expand(items: seq<Item>): seq<byte>
    requires ValidItems(items)
    decreases |items|, 1
  {
    if items == [] then [] else
      var it := items[|items| - 1];
      CopyBack(Expand(items[..|items| - 1]) + it.lits, it.off, it.len)
  }

  /** A length of at least one as zero bytes worth 255 each and a non-zero rest. */
  function LengthBytes(n: nat): (b: seq<byte>)
    requires n >= 1
    ensures |b| >= 1
    decreases n
  {
    if n <= 255 then [n] else [0] + LengthBytes(n - 255)
  }

  /** The header of a literal run of at least four bytes. */
  function RunHeader(t: nat): (b: seq<byte>)
    requires t >= 4
    ensures |b| >= 1
  {
    if t <= 18 then [t - 3] else [0] + LengthBytes(t - 18)
  }

  /** The layouts of a back reference. The compressor never uses the last two, which take
      their meaning from the number of literals before them. */
  datatype Form = Near | Middle | Far | Pair | Triple

  /** The references that have a layout. */
  predicate Fits(form: Form, off: nat, len: nat) {
    match form
    case Near => 3 <= len <= M2_MAX_LEN && 1 <= off <= M2_MAX_OFFSET
    case Middle => 3 <= len && 1 <= off <= M3_MAX_OFFSET
    case Far => 3 <= len && M3_MAX_OFFSET < off <= M4_MAX_OFFSET
    case Pair => len == 2 && 1 <= off <= M1_MAX_OFFSET
    case Triple => len == 3 && M2_MAX_OFFSET < off <= M2_MAX_OFFSET + M1_MAX_OFFSET
  }

  /** The instruction for a back reference, with a literal count of zero. */
  function RefBytes(form: Form, off: nat, len: nat): (b: seq<byte>)
    requires Fits(form, off, len)
    ensures |b| >= 2 && b[|b| - 2] % 4 == 0
  {
    match form
    case Near => [(len - 1) * 32 + (off - 1) % 8 * 4, (off - 1) / 8]
    case Middle => Head(32, M3_MAX_LEN, len) + OffsetBytes(off - 1)
    case Far =>
      var o := off - 0x4000;
      Head(16 + o / 0x4000 * 8, M4_MAX_LEN, len) + OffsetBytes(o)
    case Pair => [(off - 1) % 4 * 4, (off - 1) / 4]
    case Triple => var o := off - 1 - M2_MAX_OFFSET; [o % 4 * 4, o / 4]
  }

  /** The layout that the compressor chooses. */
  function FormOf(off: nat, len: nat): (form: Form)
    requires len >= 3 && 1 <= off <= M4_MAX_OFFSET
    ensures Fits(form, off, len)
  {
    if len <= M2_MAX_LEN && off <= M2_MAX_OFFSET then Near else if off <= M3_MAX_OFFSET then Middle else Far
  }

  function MatchBytes(off: nat, len: nat): (b: seq<byte>)
    requires len >= 3 && 1 <= off <= M4_MAX_OFFSET
    ensures |b| >= 2 && b[|b| - 2] % 4 == 0
  {
    RefBytes(FormOf(off, len), off, len)
  }

  /** The head of a distant reference: a marker with the length, or length bytes. */
  function Head(marker: byte, max: nat, len: nat): (h: seq<byte>)
    requires 3 <= len && 3 <= max && marker + max < 256
    ensures |h| >= 1
  {
    if len <= max then [marker + (len - 2)] else [marker] + LengthBytes(len - max)
  }

  /** Fourteen bits of an offset, the low six above two bits left free. */
  function OffsetBytes(o: nat): (b: seq<byte>)
    ensures |b| == 2 && b[0] % 4 == 0
  {
    [o % 64 * 4, o / 64 % 256]
  }

  /** Stores a literal count of up to three in the free bits of the last reference. */
  function Patch(b: seq<byte>, k: nat): (r: seq<byte>)
    requires |b| >= 2 && b[|b| - 2] % 4 == 0 && k <= 3
    ensures |r| == |b| && r[|r| - 2] % 4 == k
  {
    b[|b| - 2 := b[|b| - 2] + k]
  }

  /** Bytes that end in a reference whose literal count is still zero, or no bytes. */
  predicate Open(b: seq<byte>) {
    b == [] || (|b| >= 2 && b[|b| - 2] % 4 == 0)
  }

  /** Appends the literals that go before the next instruction. */
  function PutLiterals(b: seq<byte>, lits: seq<byte>): seq<byte>
    requires Open(b)
    requires b == [] ==> |lits| >= 4
  {
    if |lits| == 0 then b
    else if |lits| <= 3 then Patch(b, |lits|) + lits
    else b + RunHeader(|lits|) + lits
  }

  /** The bytes of a sequence of items. */
  function Encode(items: seq<Item>): (b: seq<byte>)
    requires ValidItems(items)
    ensures Open(b) && (b == [] <==> items == [])
    decreases |items|
  {
    if items == [] then [] else
      var it := items[|items| - 1];
      var m := MatchBytes(it.off, it.len);
      var p := PutLiterals(Encode(items[..|items| - 1]), it.lits);
      assert (p + m)[|p + m| - 2] == m[|m| - 2];
      p + m
  }

  /** The end marker: a distant reference with offset zero. */
  const EOF_BYTES: seq<byte> := [17, 0, 0]

  /** A whole compressed stream: the items, the literals left over, the end marker. */
  function Stream(items: seq<Item>, tail: seq<byte>): seq<byte>
    requires ValidItems(items)
  {
    var b := Encode(items);
    (if b == [] && 1 <= |tail| <= 238 then [17 + |tail|] + tail
     else if b == [] && tail == [] then []
     else PutLiterals(b, tail)) + EOF_BYTES
  }

  /** Validity, meaning and bytes of items with one more item. */
  lemma {:induction false} ItemsAppend(rest: seq<Item>, it: Item)
    requires ValidItems(rest)
    ensures ValidItems(rest + [it]) <==>
              && it.len >= 3 && 1 <= it.off <= M4_MAX_OFFSET
              && it.off <= |Expand(rest)| + |it.lits| && (rest == [] ==> |it.lits| >= 4)
    ensures ValidItems(rest + [it]) ==>
              && Expand(rest + [it]) == CopyBack(Expand(rest) + it.lits, it.off, it.len)
              && Encode(rest + [it]) == PutLiterals(Encode(rest), it.lits) + MatchBytes(it.off, it.len)
  {
    var items := rest + [it];
    assert items[..|items| - 1] == rest && items[|items| - 1] == it;
  }
}
