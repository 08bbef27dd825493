/** The pool allocator: a list of chunks of which only the newest serves requests.
    Sizes are 64-bit words, so the additions wrap; the laws say exactly when that is
    harmless. */
module PoolAllocator {
  import opened Words

  /** The size of a chunk's header, which is a multiple of the alignment. */
  const HEADER := 24

  /** `RAPIDJSON_ALIGN`: up to the next multiple of eight, as a 64-bit word. */
  function Align(size: nat): (r: nat)
    ensures r % 8 == 0 && r < TWO_64
    ensures size + 7 < TWO_64 ==> size <= r < size + 8
    ensures TWO_64 <= size + 7 < TWO_64 + 7 ==> r == 0
  {
    Wrap64(size + 7) / 8 * 8
  }

  datatype Chunk = Chunk(capacity: nat, size: nat)

  /** An address: a chunk and the offset after its header. */
  datatype Ptr = Null | At(chunk: nat, offset: nat)

  /** What has been reserved for a request. */
  datatype Block = Block(chunk: nat, offset: nat, length: nat)

  predicate Disjoint(a: Block, b: Block) {
    a.chunk != b.chunk || a.offset + a.length <= b.offset || b.offset + b.length <= a.offset
  }

  /** A block is aligned and lies in the used part of its chunk. */
  predicate InChunk(chunks: seq<Chunk>, b: Block) {
    && b.chunk < |chunks| && b.offset % 8 == 0 && b.length % 8 == 0 && b.length > 0
    && b.offset + b.length <= chunks[b.chunk].size
  }

  predicate Separated(blocks: seq<Block>) {
    forall i, j :: 0 <= i < j < |blocks| ==> Disjoint(blocks[i], blocks[j])
  }

  predicate Placed(chunks: seq<Chunk>, blocks: seq<Block>) {
    forall i :: 0 <= i < |blocks| ==> InChunk(chunks, blocks[i])
  }

  predicate WellSized(chunks: seq<Chunk>, data: seq<seq<byte>>) {
    && |data| == |chunks|
    && forall c :: 0 <= c < |chunks| ==>
                     && chunks[c].size <= chunks[c].capacity == |data[c]| < TWO_64 - HEADER
                     && chunks[c].size % 8 == 0
  }

  /** The newest chunk has no room for so many bytes, by the addition as it is computed. */
  predicate Full(chunks: seq<Chunk>, length: nat) {
    chunks == [] || Wrap64(chunks[|chunks| - 1].size + length) > chunks[|chunks| - 1].capacity
  }

  function Larger(a: nat, b: nat): nat {
    if a > b then a else b
  }

  /** No addition on behalf of a request wraps around. */
  predicate NoWrap(chunks: seq<Chunk>, chunkCapacity: nat, size: nat) {
    && size + 7 < TWO_64
    && (chunks != [] ==> chunks[|chunks| - 1].size + Align(size) < TWO_64)
    && (Full(chunks, Align(size)) ==> HEADER + Larger(chunkCapacity, Align(size)) < TWO_64)
  }

  // ---------- What a new block does to the invariant

  /** The newest chunk with more of it used. */
  function Used(chunks: seq<Chunk>, length: nat): seq<Chunk>
    requires chunks != []
  {
    var n := |chunks| - 1;
    chunks[n := chunks[n].(size := chunks[n].size + length)]
  }

  lemma NewBlock(chunks: seq<Chunk>, data: seq<seq<byte>>, blocks: seq<Block>, length: nat)
    requires WellSized(chunks, data) && Placed(chunks, blocks) && Separated(blocks) && chunks != []
    requires length > 0 && length % 8 == 0 && chunks[|chunks| - 1].size + length <= chunks[|chunks| - 1].capacity
    ensures var n := |chunks| - 1;
            var b := Block(n, chunks[n].size, length);
            WellSized(Used(chunks, length), data) && Placed(Used(chunks, length), blocks + [b])
                && Separated(blocks + [b])
  {
  }

  lemma NewChunk(chunks: seq<Chunk>, data: seq<seq<byte>>, blocks: seq<Block>, capacity: nat, bytes: seq<byte>)
    requires WellSized(chunks, data) && Placed(chunks, blocks) && |bytes| == capacity < TWO_64 - HEADER
    ensures WellSized(chunks + [Chunk(capacity, 0)], data + [bytes]) && Placed(chunks + [Chunk(capacity, 0)], blocks)
  {
  }

  /** The last block grows with the used part of its chunk. */
  lemma GrownBlock(chunks: seq<Chunk>, data: seq<seq<byte>>, blocks: seq<Block>, k: nat, more: nat)
    requires WellSized(chunks, data) && Placed(chunks, blocks) && Separated(blocks) && chunks != [] && k < |blocks|
    requires var n := |chunks| - 1;
             blocks[k].chunk == n && blocks[k].offset + blocks[k].length == chunks[n].size
    requires more % 8 == 0 && chunks[|chunks| - 1].size + more <= chunks[|chunks| - 1].capacity
    ensures var b := blocks[k].(length := blocks[k].length + more);
            && WellSized(Used(chunks, more), data) && Placed(Used(chunks, more), blocks[k := b])
            && Separated(blocks[k := b])
  {
    hide Separated, Disjoint;
    GrownApart(chunks, blocks, k, more);
  }

  lemma GrownApart(chunks: seq<Chunk>, blocks: seq<Block>, k: nat, more: nat)
    requires Placed(chunks, blocks) && Separated(blocks) && chunks != [] && k < |blocks|
    requires var n := |chunks| - 1;
             blocks[k].chunk == n && blocks[k].offset + blocks[k].length == chunks[n].size
    ensures Separated(blocks[k := blocks[k].(length := blocks[k].length + more)])
  {
    var b := blocks[k].(length := blocks[k].length + more);
    forall i | 0 <= i < |blocks| && i != k
      ensures Disjoint(blocks[i], b) && Disjoint(b, blocks[i])
    {
      assert InChunk(chunks, blocks[i]);
      assert Disjoint(blocks[i], blocks[k]) || Disjoint(blocks[k], blocks[i]);
    }
  }

  // ---------- What a reallocation does

  /** The block `k` is at `p` and was made for so many bytes or more. */
  predicate Owns(blocks: seq<Block>, k: nat, p: Ptr, size: nat) {
    && p.At? && k < |blocks| && blocks[k].chunk == p.chunk && blocks[k].offset == p.offset
    && Align(size) <= blocks[k].length
  }

  /** The bytes at `p` are the last ones taken from the newest chunk. */
  predicate IsLast(chunks: seq<Chunk>, p: Ptr, length: nat) {
    p.At? && chunks != [] && p.chunk == |chunks| - 1 && p.offset + length == chunks[|chunks| - 1].size
  }

  predicate ReallocNoWrap(chunks: seq<Chunk>, chunkCapacity: nat, p: Ptr, original: nat, newSize: nat) {
    var length := Align(newSize);
    && newSize + 7 < TWO_64
    && (|| original >= length
        || (IsLast(chunks, p, original) && p.offset + length <= chunks[|chunks| - 1].capacity)
        || ((IsLast(chunks, p, original) ==> p.offset + length < TWO_64) && NoWrap(chunks, chunkCapacity, length)))
  }

  function Smaller(a: nat, b: nat): nat {
    if a < b then a else b
  }

  /** Either the block has become as long as is asked for, or there is a new one. */
  predicate Moved(before: seq<Block>, after: seq<Block>, k: nat, p: Ptr, q: Ptr, newSize: nat)
    requires k < |before| && q.At?
  {
    || (q == p && after == before[k := before[k].(length := Larger(before[k].length, Align(newSize)))])
    || after == before + [Block(q.chunk, q.offset, Align(newSize))]
  }

  predicate Held(data: seq<seq<byte>>, c: nat, offset: nat, bytes: seq<byte>) {
    c < |data| && offset + |bytes| <= |data[c]| && data[c][offset..offset + |bytes|] == bytes
  }

  /** The bytes at `p` are now at `q`. */
  predicate Copied(before: seq<seq<byte>>, after: seq<seq<byte>>, p: Ptr, q: Ptr, n: nat)
    requires p.At? && q.At?
  {
    && p.chunk < |before| && p.offset + n <= |before[p.chunk]|
    && Held(after, q.chunk, q.offset, before[p.chunk][p.offset..p.offset + n])
  }

  /** Every block holds the bytes that it held. */
  predicate Untouched(before: seq<seq<byte>>, after: seq<seq<byte>>, blocks: seq<Block>) {
    forall i :: 0 <= i < |blocks| ==>
                  var b := blocks[i];
                  && b.chunk < |before| && b.offset + b.length <= |before[b.chunk]|
                  && Held(after, b.chunk, b.offset, before[b.chunk][b.offset..b.offset + b.length])
  }

  lemma AlignTwice(size: nat)
    requires size < TWO_64
    ensures Align(Align(size)) == Align(size)
    ensures Align(size) == 0 || size + 7 < TWO_64
  {
  }

  /** Memory that does not change keeps all that is in it. */
  lemma KeptAsIs(chunks: seq<Chunk>, data: seq<seq<byte>>, blocks: seq<Block>, k: nat, p: Ptr, n: nat)
    requires WellSized(chunks, data) && Placed(chunks, blocks) && k < |blocks|
    requires p == At(blocks[k].chunk, blocks[k].offset) && n <= blocks[k].length
    ensures Untouched(data, data, blocks) && Copied(data, data, p, p, n)
    ensures p.chunk < |data| == |chunks|
    ensures p.offset + n <= |data[p.chunk]| == chunks[p.chunk].capacity < TWO_64 - HEADER
  {
    forall i | 0 <= i < |blocks|
      ensures InChunk(chunks, blocks[i])
    {
    }
  }

  lemma CopyLess(before: seq<seq<byte>>, after: seq<seq<byte>>, p: Ptr, q: Ptr, n: nat, m: nat)
    requires p.At? && q.At? && m <= n && Copied(before, after, p, q, n)
    ensures Copied(before, after, p, q, m)
  {
    var bytes := before[p.chunk][p.offset..p.offset + n];
    assert bytes[..m] == before[p.chunk][p.offset..p.offset + m];
    assert after[q.chunk][q.offset..q.offset + m] == after[q.chunk][q.offset..q.offset + n][..m];
  }

  // ---------- Totals

  function TotalCapacity(chunks: seq<Chunk>): nat {
    if chunks == [] then 0 else TotalCapacity(chunks[..|chunks| - 1]) + chunks[|chunks| - 1].capacity
  }

  lemma WrapAdd(a: nat, b: nat)
    ensures Wrap64(Wrap64(a) + b) == Wrap64(a + b)
  {
  }

  function TotalSize(chunks: seq<Chunk>): nat {
    if chunks == [] then 0 else TotalSize(chunks[..|chunks| - 1]) + chunks[|chunks| - 1].size
  }

  lemma {:induction false} SizeAtMostCapacity(chunks: seq<Chunk>, data: seq<seq<byte>>)
    requires WellSized(chunks, data)
    ensures TotalSize(chunks) <= TotalCapacity(chunks)
  {
    if chunks != [] {
      var n := |chunks| - 1;
      SizeAtMostCapacity(chunks[..n], data[..n]);
    }
  }

  function Memory(n: nat, fill: nat -> byte): (bytes: seq<byte>)
    ensures |bytes| == n
  {
    if n == 0 then [] else Memory(n - 1, fill) + [fill(n - 1)]
  }

  // ---------- The pool

  class Pool {
    const chunkCapacity: nat
    const userBuffer: bool
    var chunks: seq<Chunk>        // the oldest first; the last one serves requests
    var data: seq<seq<byte>>      // the memory of each chunk after its header
    ghost var blocks: seq<Block>  // what has been reserved since the last `Clear`

    ghost predicate Valid()
      reads this
    {
      && WellSized(chunks, data) && Placed(chunks, blocks) && Separated(blocks)
      && (userBuffer ==> chunks != []) && chunkCapacity < TWO_64
    }

    constructor (chunkCapacity: nat)
      requires chunkCapacity < TWO_64
      ensures Valid() && chunks == [] && blocks == []
    {
      this.chunkCapacity, userBuffer := chunkCapacity, false;
      chunks, data, blocks := [], [], [];
    }

    /** With a buffer of the user's, which becomes the first chunk. */
    constructor WithBuffer(buffer: seq<byte>, chunkCapacity: nat)
      requires HEADER < |buffer| < TWO_64 && chunkCapacity < TWO_64
      ensures Valid() && blocks == [] && chunks == [Chunk(|buffer| - HEADER, 0)] && data == [buffer[HEADER..]]
      ensures this.chunkCapacity == chunkCapacity
    {
      this.chunkCapacity, userBuffer := chunkCapacity, true;
      chunks, data, blocks := [Chunk(|buffer| - HEADER, 0)], [buffer[HEADER..]], [];
    }

    /** `AddChunk`. The base allocator may refuse; what it gives holds any bytes, and is as
        long as the 64-bit sum it is asked for. */
    method AddChunk(capacity: nat, granted: bool, fill: nat -> byte) returns (ok: bool)
      requires Valid() && capacity < TWO_64
      modifies this`chunks, this`data
      ensures ok == granted
      ensures !ok ==> chunks == old(chunks) && data == old(data)
      ensures ok ==> chunks == old(chunks) + [Chunk(capacity, 0)] && |data| == |old(data)| + 1 && old(data) <= data
      ensures ok ==> |data[|data| - 1]| == if HEADER + capacity < TWO_64 then capacity else 0
      ensures HEADER + capacity < TWO_64 ==> Valid()
    {
      ok := granted;
      if ok {
        var bytes := Wrap64(HEADER + capacity);
        var memory := Memory(if bytes < HEADER then 0 else bytes - HEADER, fill);
        if HEADER + capacity < TWO_64 {
          NewChunk(chunks, data, blocks, capacity, memory);
        }
        chunks, data := chunks + [Chunk(capacity, 0)], data + [memory];
      }
    }

    /** `Malloc`. A block is inside its chunk, and apart from all others, exactly if no
        addition wraps. */
    method Malloc(size: nat, granted: bool, fill: nat -> byte) returns (p: Ptr)
      requires Valid() && size < TWO_64
      modifies this
      ensures size == 0 ==> p.Null? && chunks == old(chunks) && data == old(data) && blocks == old(blocks)
      ensures p.At? && !Full(old(chunks), Align(size)) ==>
                && p == At(|old(chunks)| - 1, old(chunks)[|old(chunks)| - 1].size) && data == old(data)
                && chunks == old(chunks)[p.chunk := old(chunks)[p.chunk].(size := Wrap64(p.offset + Align(size)))]
      ensures size > 0 ==> (p.Null? <==> Full(old(chunks), Align(size)) && !granted)
      ensures old(data) <= data
      ensures p.Null? ==> Valid() && blocks == old(blocks) && data == old(data)
      ensures p.At? && NoWrap(old(chunks), chunkCapacity, size) ==>
                && Valid() && blocks == old(blocks) + [Block(p.chunk, p.offset, Align(size))]
                && p.chunk < |data| && p.offset + size <= |data[p.chunk]|
      ensures p.At? && !NoWrap(old(chunks), chunkCapacity, size) ==>
                && p.chunk < |data| && (p.offset + size > |data[p.chunk]| + 7 || data[p.chunk] == [])
    {
      if size == 0 {
        return Null;
      }
      hide WellSized, Placed, Separated, Align, Full, NoWrap;
      var length := Align(size);
      Room(chunks, data, chunkCapacity, size);
      if Full(chunks, length) {
        var ok := AddChunk(Larger(chunkCapacity, length), granted, fill);
        if !ok {
          return Null;
        }
      }
      p := Take(length, NoWrap(old(chunks), chunkCapacity, size));
    }

    /** `Clear`: all chunks but the user's buffer are given back. */
    method Clear()
      requires Valid()
      modifies this
      ensures Valid() && blocks == []
      ensures chunks == if userBuffer then [old(chunks[0]).(size := 0)] else []
    {
      blocks := [];
      while chunks != [] && !(userBuffer && |chunks| == 1)
        invariant Valid() && blocks == [] && chunks <= old(chunks) && (userBuffer ==> |chunks| >= 1)
        decreases |chunks|
      {
        var n := |chunks| - 1;
        chunks, data := chunks[..n], data[..n];
      }
      if chunks != [] {
        chunks := [chunks[0].(size := 0)];
      }
    }

    /** `Capacity` and `Size` walk the list from the newest chunk. */
    method Capacity() returns (capacity: nat)
      ensures capacity == Wrap64(TotalCapacity(chunks))
    {
      hide Wrap64;
      capacity := 0;
      var c := |chunks|;
      assert chunks[..c] == chunks;
      while c > 0
        invariant 0 <= c <= |chunks| && Wrap64(capacity + TotalCapacity(chunks[..c])) == Wrap64(TotalCapacity(chunks))
        invariant capacity < TWO_64
      {
        assert chunks[..c][..c - 1] == chunks[..c - 1];
        c := c - 1;
        WrapAdd(capacity + chunks[c].capacity, TotalCapacity(chunks[..c]));
        capacity := Wrap64(capacity + chunks[c].capacity);
      }
    }

    method Size() returns (size: nat)
      requires Valid()
      ensures size == Wrap64(TotalSize(chunks)) && TotalSize(chunks) <= TotalCapacity(chunks)
      ensures TotalCapacity(chunks) < TWO_64 ==> size <= Wrap64(TotalCapacity(chunks)) == TotalCapacity(chunks)
    {
      hide Wrap64;
      size := 0;
      var c := |chunks|;
      assert chunks[..c] == chunks;
      while c > 0
        invariant 0 <= c <= |chunks| && Wrap64(size + TotalSize(chunks[..c])) == Wrap64(TotalSize(chunks))
        invariant size < TWO_64
      {
        assert chunks[..c][..c - 1] == chunks[..c - 1];
        c := c - 1;
        WrapAdd(size + chunks[c].size, TotalSize(chunks[..c]));
        size := Wrap64(size + chunks[c].size);
      }
      SizeAtMostCapacity(chunks, data);
    }

    /** `Realloc` of the block `k`. What it returns has room for the new size exactly if no
        addition wraps; then the old bytes are there, wherever the block is now, and every
        block holds what it held. */
    method Realloc(p: Ptr, originalSize: nat, newSize: nat, granted: bool, fill: nat -> byte, ghost k: nat)
      returns (q: Ptr)
      requires Valid() && originalSize < TWO_64 && newSize < TWO_64
      requires p.At? ==> Owns(blocks, k, p, originalSize)
      modifies this
      ensures p.At? && newSize == 0 ==> q.Null?
      ensures p.Null? ==> (q.Null? <==> newSize == 0 || (Full(old(chunks), Align(newSize)) && !granted))
      ensures p.Null? && q.At? && NoWrap(old(chunks), chunkCapacity, newSize) ==>
                && Valid() && blocks == old(blocks) + [Block(q.chunk, q.offset, Align(newSize))] && old(data) <= data
                && q.chunk < |data| && q.offset + newSize <= |data[q.chunk]|
      ensures p.Null? && q.At? && !NoWrap(old(chunks), chunkCapacity, newSize) ==>
                && old(data) <= data && q.chunk < |data|
                && (q.offset + newSize > |data[q.chunk]| + 7 || data[q.chunk] == [])
      ensures q.Null? ==> Valid() && blocks == old(blocks) && data == old(data)
      ensures p.At? && q.At? ==>
                && q.chunk < |data|
                && (q.offset + newSize <= |data[q.chunk]|
                    <==> ReallocNoWrap(old(chunks), chunkCapacity, p, Align(originalSize), newSize))
      ensures p.At? && q.At? && ReallocNoWrap(old(chunks), chunkCapacity, p, Align(originalSize), newSize) ==>
                && Valid()
                && Moved(old(blocks), blocks, k, p, q, newSize)
                && Copied(old(data), data, p, q, Smaller(Align(originalSize), Align(newSize)))
                && Untouched(old(data), data, old(blocks))
    {
      hide WellSized, Placed, Separated, Align, Full, NoWrap, Copied, Untouched, Memory;
      if p.Null? {
        q := Malloc(newSize, granted, fill);
        return;
      }
      if newSize == 0 {
        return Null;
      }
      var original, length := Align(originalSize), Align(newSize);
      KeptAsIs(chunks, data, blocks, k, p, original);
      AlignTwice(newSize);
      if original >= length {
        CopyLess(data, data, p, p, original, length);
        return p;
      }
      if IsLast(chunks, p, original) {
        var ok := GrowInPlace(p, original, length, k);
        if ok {
          return p;
        }
      }
      q := Malloc(length, granted, fill);
      if q.At? {
        ghost var middle := data;
        CopyTo(p, q, original);
        if NoWrap(old(chunks), chunkCapacity, length) {
          CopyLaw(old(data), middle, data, chunks, old(blocks), k, p, q, original, length);
        }
      }
    }

    /** The last block grows into the rest of its chunk, if there is room. */
    method GrowInPlace(p: Ptr, original: nat, length: nat, ghost k: nat) returns (ok: bool)
      requires Valid() && IsLast(chunks, p, original) && k < |blocks| && original < length < TWO_64
      requires p == At(blocks[k].chunk, blocks[k].offset) && original <= blocks[k].length
      requires original % 8 == 0 && length % 8 == 0
      modifies this`chunks, this`blocks
      ensures !ok ==> chunks == old(chunks) && blocks == old(blocks)
      ensures !ok ==> chunks[|chunks| - 1].capacity < p.offset + length < TWO_64
      ensures ok && p.offset + length < TWO_64 ==>
                && Valid() && p.offset + length <= old(chunks[|chunks| - 1].capacity)
                && blocks == old(blocks)[k := old(blocks[k]).(length := Larger(old(blocks[k]).length, length))]
    {
      hide Separated;
      var n := |chunks| - 1;
      var sum := Wrap64(chunks[n].size + (length - original));
      ok := sum <= chunks[n].capacity;
      if ok {
        assert InChunk(chunks, blocks[k]);
        if p.offset + length < TWO_64 {
          GrownBlock(chunks, data, blocks, k, length - original);
          blocks := blocks[k := blocks[k].(length := length)];
        }
        chunks := chunks[n := chunks[n].(size := sum)];
      }
    }

    /** The copy at the end of `Realloc`, where it stays inside the chunk. */
    method CopyTo(p: Ptr, q: Ptr, original: nat)
      requires p.At? && q.At? && p.chunk < |data| && q.chunk < |data| && p.offset + original <= |data[p.chunk]|
      modifies this`data
      ensures |data| == |old(data)| && forall c :: 0 <= c < |data| ==> |data[c]| == |old(data)[c]|
      ensures forall c :: 0 <= c < |data| && c != q.chunk ==> data[c] == old(data)[c]
      ensures q.offset + original <= |data[q.chunk]| ==>
                data[q.chunk] == old(data)[q.chunk][..q.offset] + old(data)[p.chunk][p.offset..p.offset + original]
                                 + old(data)[q.chunk][q.offset + original..]
    {
      if q.offset + original <= |data[q.chunk]| {
        var bytes := data[p.chunk][p.offset..p.offset + original];
        data := data[q.chunk := data[q.chunk][..q.offset] + bytes + data[q.chunk][q.offset + original..]];
      }
    }

    /** The end of `Malloc`: bytes are taken from the newest chunk. */
    method Take(length: nat, ghost sound: bool) returns (p: Ptr)
      requires chunks != []
      requires sound ==>
                 && Valid() && length > 0 && length % 8 == 0
                 && chunks[|chunks| - 1].size + length <= chunks[|chunks| - 1].capacity
      modifies this`chunks, this`blocks
      ensures p == At(|old(chunks)| - 1, old(chunks[|chunks| - 1].size))
      ensures chunks == old(chunks)[p.chunk := old(chunks)[p.chunk].(size := Wrap64(p.offset + length))]
      ensures sound ==> Valid() && blocks == old(blocks) + [Block(p.chunk, p.offset, length)]
    {
      hide Placed, Separated;
      var n := |chunks| - 1;
      p := At(n, chunks[n].size);
      if sound {
        NewBlock(chunks, data, blocks, length);
        blocks := blocks + [Block(p.chunk, p.offset, length)];
        assert Wrap64(chunks[n].size + length) == chunks[n].size + length;
      }
      chunks := chunks[n := chunks[n].(size := Wrap64(chunks[n].size + length))];
    }
  }

  lemma AlignMultiple(size: nat)
    requires size % 8 == 0 && size < TWO_64
    ensures Align(size) == size
  {
  }

  lemma SixteenFit()
    ensures Align(16) == 16 && Wrap64(0 + 16) == 16
    ensures !Full([Chunk(64, 0)], 16) && NoWrap([Chunk(64, 0)], 0, 16)
  {
    AlignMultiple(16);
    hide Align;
  }

  lemma ManyWrap()
    ensures var size := TWO_64 - 8; Align(size) == size && !Full([Chunk(64, 16)], size) && Wrap64(16 + size) == 8
  {
    AlignMultiple(TWO_64 - 8);
    hide Align;
  }

  /** A request that wraps is answered. In a pool with a buffer for 64 bytes, of which 16
      are taken, a request for 2^64 - 8 makes the sum of the sizes come out as eight: the
      block starts after the first one and ends far outside the buffer. */
  method WrapHappens(fill: nat -> byte) returns (pool: Pool, p: Ptr, q: Ptr)
    ensures p == At(0, 0) && q == At(0, 16)
    ensures pool.chunks == [Chunk(64, 8)] && |pool.data| == 1 && |pool.data[0]| == 64
    ensures q.offset + (TWO_64 - 8) > |pool.data[q.chunk]|
  {
    hide Memory, Align, Full, NoWrap, Wrap64, WellSized, Placed, Separated;
    SixteenFit();
    ManyWrap();
    pool := new Pool.WithBuffer(Memory(88, fill), 0);
    p := pool.Malloc(16, false, fill);
    assert pool.chunks == [Chunk(64, 0)][0 := Chunk(64, 16)] == [Chunk(64, 16)];
    q := pool.Malloc(TWO_64 - 8, false, fill);
    assert pool.chunks == [Chunk(64, 16)][0 := Chunk(64, 8)] == [Chunk(64, 8)];
  }

  /** A copy into a new block arrives there and disturbs no other. */
  lemma CopyLaw(before: seq<seq<byte>>, middle: seq<seq<byte>>, after: seq<seq<byte>>, chunks: seq<Chunk>,
                blocks: seq<Block>, k: nat, p: Ptr, q: Ptr, original: nat, length: nat)
    requires before <= middle && |after| == |middle| && p.At? && q.At? && q.chunk < |middle|
    requires Untouched(before, before, blocks) && Copied(before, before, p, p, original) && original <= length
    requires q.offset + length <= |middle[q.chunk]|
    requires Separated(blocks + [Block(q.chunk, q.offset, length)])
    requires forall c :: 0 <= c < |after| && c != q.chunk ==> after[c] == middle[c]
    requires p.chunk < |before| && p.offset + original <= |before[p.chunk]|
    requires after[q.chunk] == middle[q.chunk][..q.offset] + middle[p.chunk][p.offset..p.offset + original]
                               + middle[q.chunk][q.offset + original..]
    ensures Copied(before, after, p, q, original) && Untouched(before, after, blocks)
    ensures WellSized(chunks, middle) ==> WellSized(chunks, after)
  {
    var all := blocks + [Block(q.chunk, q.offset, length)];
    forall i | 0 <= i < |blocks|
      ensures var b := blocks[i]; Held(after, b.chunk, b.offset, before[b.chunk][b.offset..b.offset + b.length])
    {
      var b := blocks[i];
      assert Disjoint(all[i], all[|blocks|]);
      assert after[b.chunk][b.offset..b.offset + b.length] == middle[b.chunk][b.offset..b.offset + b.length];
    }
  }

  /** Where a request finds room and where it only seems to. */
  lemma Room(chunks: seq<Chunk>, data: seq<seq<byte>>, chunkCapacity: nat, size: nat)
    requires WellSized(chunks, data) && 0 < size < TWO_64 && chunkCapacity < TWO_64
    ensures |data| == |chunks| && Align(size) < TWO_64
    ensures var ok, length, n := NoWrap(chunks, chunkCapacity, size), Align(size), |chunks| - 1;
            && (ok ==> length % 8 == 0 && size <= length < TWO_64)
            && (Full(chunks, length) && ok ==> HEADER + Larger(chunkCapacity, length) < TWO_64)
            && (Full(chunks, length) && !ok ==>
                  HEADER + Larger(chunkCapacity, length) >= TWO_64 || size > Larger(chunkCapacity, length) + 7)
            && (!Full(chunks, length) ==> chunks != [] && chunks[n].capacity == |data[n]|)
            && (!Full(chunks, length) && ok ==> chunks[n].size + length <= chunks[n].capacity)
            && (!Full(chunks, length) && !ok ==> chunks[n].size + size > chunks[n].capacity + 7)
  {
  }
}
