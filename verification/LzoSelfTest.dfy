/** The library's own test, for every input instead of one: compress, then decompress
    with the fast and with the safe decompressor, and compare. */
module LzoSelfTest {
  import opened Words
  import opened LzoDecompress
  import opened LzoCompress
  import opened LzoRuns

  method RoundTrip(x: seq<byte>, address: nat, room: nat) returns (fast: seq<byte>, safe: seq<byte>, packed: seq<byte>)
    requires address + |x| < TWO_64 && Bound(|x|) < TWO_64 && |x| <= room < TWO_64
    ensures fast == x && safe == x
    ensures |packed| <= |x| + |x| / 16 + 64 + 3
  {
    var out := new byte[Bound(|x|)];
    var wrkmem := new uint16[DICT_SIZE];
    var outLen, items, tail := Compress(x, address, out, wrkmem);
    packed := out[..outLen];

    var buffer := new byte[room];
    var code, newLen := DecompressFast(packed, buffer);
    fast := buffer[..newLen];

    var other := new byte[room];
    code, newLen := DecompressSafe(packed, other);
    safe := other[..newLen];
  }
}
