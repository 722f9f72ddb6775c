/** Reading files from an ext2 volume: the direct, single, double and triple indirect block map and whole-file loading
    (`kernel/extfs.c`, lines 111-131, 225-285 and 580-632). */
module Extfs {
  import opened Bytes
  import opened BlockData

  /** A mounted volume; `blocks` is 0 if the superblock does not say how many there are. */
  datatype Mount = Mount(device: seq<byte>, blockSize: nat, blocks: nat)

  /** Block sizes are 1024 shifted left by at most 6. */
  predicate SizeOk(bs: nat) {
    bs == 1024 || bs == 2048 || bs == 4096 || bs == 8192 || bs == 16384 || bs == 32768 || bs == 65536
  }

  function Doubled(x: nat, k: nat): nat {
    if k == 0 then x else 2 * Doubled(x, k - 1)
  }

  lemma SizeOkIs(bs: nat)
    ensures SizeOk(bs) <==> exists k :: 0 <= k <= 6 && bs == Doubled(1024, k)
  {
    assert Doubled(1024, 0) == 1024 && Doubled(1024, 1) == 2048 && Doubled(1024, 2) == 4096;
    assert Doubled(1024, 3) == 8192 && Doubled(1024, 4) == 16384 && Doubled(1024, 5) == 32768;
    assert Doubled(1024, 6) == 65536;
  }

  /** `ext_read_block`. */
  function ReadBlock(m: Mount, b: nat): (r: Option<seq<byte>>)
    ensures r.Some? ==> |r.value| == m.blockSize
  {
    if m.blocks != 0 && b >= m.blocks then None
    else if b * m.blockSize > 0xFFFF_FFFF || b * m.blockSize + m.blockSize > |m.device| then None
    else Some(m.device[b * m.blockSize..b * m.blockSize + m.blockSize])
  }

  /** Pointer `i` in the indirect block `b`; 0 if there is no such block or it cannot be read. */
  function Pointer(m: Mount, b: nat, i: nat): (p: nat)
    requires 4 * i + 4 <= m.blockSize
  {
    if b == 0 || ReadBlock(m, b).None? then 0 else Le32At(ReadBlock(m, b).value, 4 * i)
  }

  // ---- Where blocks are on the device ----

  /** Block `b` may be read: the superblock does not exclude it, its byte address fits 32 bits, and it is on the
      device. */
  predicate Present(m: Mount, b: nat) {
    (m.blocks == 0 || b < m.blocks) && b * m.blockSize < WORD && (b + 1) * m.blockSize <= |m.device|
  }

  /** Byte `o` of block `b` on the device. */
  predicate ByteAt(m: Mount, b: nat, o: nat, x: byte) {
    o < m.blockSize && b * m.blockSize + o < |m.device| && m.device[b * m.blockSize + o] == x
  }

  /** A block is the stretch of the device that starts at its number times the block size. */
  lemma ReadBlockIs(m: Mount, b: nat)
    ensures ReadBlock(m, b).Some? <==> Present(m, b)
    ensures ReadBlock(m, b).Some? ==> forall j :: 0 <= j < m.blockSize ==> ByteAt(m, b, j, ReadBlock(m, b).value[j])
  {
    assert (b + 1) * m.blockSize == b * m.blockSize + m.blockSize;
  }

  lemma ReadByte(m: Mount, b: nat, o: nat)
    requires ReadBlock(m, b).Some? && o < m.blockSize
    ensures Present(m, b) && ByteAt(m, b, o, ReadBlock(m, b).value[o])
  {
    ReadBlockIs(m, b);
  }

  /** The little-endian word at `a`. */
  function WordOn(device: seq<byte>, a: nat): nat
    requires a + 4 <= |device|
  {
    device[a] as int + 0x100 * (device[a + 1] as int)
    + 0x1_0000 * (device[a + 2] as int) + 0x100_0000 * (device[a + 3] as int)
  }

  /** A pointer is a word of its block on the device. */
  lemma PointerIs(m: Mount, b: nat, i: nat)
    requires 4 * i + 4 <= m.blockSize
    ensures b == 0 || !Present(m, b) ==> Pointer(m, b, i) == 0
    ensures b != 0 && Present(m, b) ==>
      b * m.blockSize + 4 * i + 4 <= |m.device| && Pointer(m, b, i) == WordOn(m.device, b * m.blockSize + 4 * i)
  {
    ReadBlockIs(m, b);
    assert (b + 1) * m.blockSize == b * m.blockSize + m.blockSize;
  }

  // ---- The tree of pointers ----

  /** How many blocks a tree of depth `d` spans. */
  function Width(e: nat, d: nat): nat {
    if d == 0 then 1 else Span(e, Width(e, d - 1))
  }

  lemma Widths(e: nat)
    ensures Width(e, 0) == 1 && Width(e, 1) == e && Width(e, 2) == e * e
  {
    SpanIsProduct(e, 1);
    SpanIsProduct(e, e);
    assert Width(e, 2) == Span(e, Width(e, 1));
  }

  lemma WidthThree(e: nat)
    ensures Width(e, 3) == e * e * e
  {
    Widths(e);
    SpanIsProduct(e, e * e);
    assert Width(e, 3) == Span(e, Width(e, 2));
  }

  /** All the blocks a tree of depth `d` rooted at `b` names, left to right; an absent or unreadable node names none. */
  function Tree(m: Mount, e: nat, b: nat, d: nat): (t: seq<nat>)
    requires 4 * e <= m.blockSize
    decreases d, e + 1
  {
    if d == 0 then [b] else Row(m, e, b, d, e)
  }

  /** The blocks below the first `k` pointers of `b`. */
  function Row(m: Mount, e: nat, b: nat, d: nat, k: nat): (t: seq<nat>)
    requires 4 * e <= m.blockSize && k <= e && d > 0
    decreases d, k
  {
    if k == 0 then [] else Row(m, e, b, d, k - 1) + Tree(m, e, Pointer(m, b, k - 1), d - 1)
  }

  lemma {:induction false} TreeLength(m: Mount, e: nat, b: nat, d: nat)
    requires 4 * e <= m.blockSize
    ensures |Tree(m, e, b, d)| == Width(e, d)
    decreases d, e + 1
  {
    if d > 0 { RowLength(m, e, b, d, e); }
  }

  lemma {:induction false} RowLength(m: Mount, e: nat, b: nat, d: nat, k: nat)
    requires 4 * e <= m.blockSize && k <= e && d > 0
    ensures |Row(m, e, b, d, k)| == Span(k, Width(e, d - 1))
    decreases d, k
  {
    if k > 0 {
      RowLength(m, e, b, d, k - 1);
      TreeLength(m, e, Pointer(m, b, k - 1), d - 1);
    }
  }

  lemma {:induction false} RowAt(m: Mount, e: nat, b: nat, d: nat, k: nat, i: nat, r: nat)
    requires 4 * e <= m.blockSize && i < k <= e && d > 0 && r < Width(e, d - 1)
    ensures Span(i, Width(e, d - 1)) + r < |Row(m, e, b, d, k)| && r < |Tree(m, e, Pointer(m, b, i), d - 1)|
    ensures Row(m, e, b, d, k)[Span(i, Width(e, d - 1)) + r] == Tree(m, e, Pointer(m, b, i), d - 1)[r]
    decreases k
  {
    var w := Width(e, d - 1);
    RowLength(m, e, b, d, k - 1);
    RowLength(m, e, b, d, k);
    TreeLength(m, e, Pointer(m, b, i), d - 1);
    if i < k - 1 {
      RowAt(m, e, b, d, k - 1, i, r);
    }
  }

  /** Walking down from `b` by division and remainder. */
  function Walk(m: Mount, e: nat, b: nat, d: nat, j: nat): (p: nat)
    requires 4 * e <= m.blockSize && j < Width(e, d)
    decreases d
  {
    if d == 0 then b
    else
      var w := Width(e, d - 1);
      assert w > 0 by { WidthPositive(e, d, j); }
      assert j / w < e by { SpanSplit(j, w, e); }
      Walk(m, e, Pointer(m, b, j / w), d - 1, j % w)
  }

  lemma WidthPositive(e: nat, d: nat, j: nat)
    requires d > 0 && j < Width(e, d)
    ensures Width(e, d - 1) > 0
  {
    if Width(e, d - 1) == 0 { SpanIsProduct(e, 0); }
  }

  /** The walk finds the leaf with the same number. */
  lemma {:induction false} WalkFindsLeaf(m: Mount, e: nat, b: nat, d: nat, j: nat)
    requires 4 * e <= m.blockSize && j < Width(e, d)
    ensures j < |Tree(m, e, b, d)| && Walk(m, e, b, d, j) == Tree(m, e, b, d)[j]
    decreases d
  {
    if d > 0 {
      var w := Width(e, d - 1);
      WidthPositive(e, d, j);
      SpanSplit(j, w, e);
      RowAt(m, e, b, d, e, j / w, j % w);
      WalkFindsLeaf(m, e, Pointer(m, b, j / w), d - 1, j % w);
    }
  }

  // ---- The block map of an inode ----

  /** The whole map: 12 direct pointers, then the three trees. */
  function Flatten(m: Mount, e: nat, inode: seq<u32>): (t: seq<nat>)
    requires 4 * e <= m.blockSize && |inode| == 15
  {
    inode[..12] + Tree(m, e, inode[12], 1) + Tree(m, e, inode[13], 2) + Tree(m, e, inode[14], 3)
  }

  /** Block `i` of the file, 0 for a hole or past the end of the map. */
  function BlockOf(m: Mount, e: nat, inode: seq<u32>, i: nat): (p: nat)
    requires 4 * e <= m.blockSize && |inode| == 15
  {
    if i < 12 then inode[i]
    else if i - 12 < Width(e, 1) then Walk(m, e, inode[12], 1, i - 12)
    else if i - 12 - Width(e, 1) < Width(e, 2) then Walk(m, e, inode[13], 2, i - 12 - Width(e, 1))
    else if i - 12 - Width(e, 1) - Width(e, 2) < Width(e, 3)
    then Walk(m, e, inode[14], 3, i - 12 - Width(e, 1) - Width(e, 2))
    else 0
  }

  /** The block map is the flattened tree, for every block number it covers. */
  lemma BlockOfIsFlattened(m: Mount, e: nat, inode: seq<u32>, i: nat)
    requires 4 * e <= m.blockSize && |inode| == 15
    ensures |Flatten(m, e, inode)| == 12 + e + e * e + e * e * e
    ensures BlockOf(m, e, inode, i) == if i < |Flatten(m, e, inode)| then Flatten(m, e, inode)[i] else 0
  {
    TreeLength(m, e, inode[12], 1);
    TreeLength(m, e, inode[13], 2);
    TreeLength(m, e, inode[14], 3);
    var a, b, c := 12, 12 + Width(e, 1), 12 + Width(e, 1) + Width(e, 2);
    if 12 <= i < b { WalkFindsLeaf(m, e, inode[12], 1, i - a); }
    if b <= i < c { WalkFindsLeaf(m, e, inode[13], 2, i - b); }
    if c <= i < c + Width(e, 3) { WalkFindsLeaf(m, e, inode[14], 3, i - c); }
    Widths(e);
    WidthThree(e);
  }

  // ---- The functions as written ----

  lemma WalkOne(m: Mount, e: nat, b: nat, j: nat)
    requires 4 * e <= m.blockSize && j < e
    ensures j < Width(e, 1) && Walk(m, e, b, 1, j) == Pointer(m, b, j)
  {
    Widths(e);
    assert Walk(m, e, Pointer(m, b, j), 0, 0) == Pointer(m, b, j);
  }

  lemma WalkTwo(m: Mount, e: nat, b: nat, j: nat, first: nat, second: nat)
    requires 4 * e <= m.blockSize && e > 0 && j < Width(e, 2) && first == j / e && second == j % e
    ensures first < e && second < e && Walk(m, e, b, 2, j) == Pointer(m, Pointer(m, b, first), second)
  {
    Widths(e);
    SpanSplit(j, e, e);
    WalkOne(m, e, Pointer(m, b, first), second);
  }

  // One level down, with quotient and remainder given.
  lemma WalkDown(m: Mount, e: nat, b: nat, d: nat, j: nat, w: nat, first: nat, rest: nat)
    requires 4 * e <= m.blockSize && d > 0 && w == Width(e, d - 1) && w > 0 && j < Width(e, d) && first == j / w
    requires rest == j % w
    ensures first < e && rest < w && Walk(m, e, b, d, j) == Walk(m, e, Pointer(m, b, first), d - 1, rest)
  {
    SpanSplit(j, w, e);
  }

  lemma WalkThree(m: Mount, e: nat, b: nat, j: nat, w: nat, first: nat, rest: nat, second: nat, third: nat)
    requires 4 * e <= m.blockSize && e > 0 && w == Width(e, 2) && w > 0 && j < Width(e, 3)
    requires first == j / w && rest == j % w && second == rest / e && third == rest % e
    ensures first < e && second < e && third < e
    ensures Walk(m, e, b, 3, j) == Pointer(m, Pointer(m, Pointer(m, b, first), second), third)
  {
    WalkDown(m, e, b, 3, j, w, first, rest);
    WalkTwo(m, e, Pointer(m, b, first), rest, second, third);
  }

  lemma ThirdInRange(e: nat, j: nat, w: nat)
    requires w == Width(e, 2) && w > 0
    ensures j / w < e <==> j < Width(e, 3)
  {
    SpanSplit(j, w, e);
  }

  /** Reading one pointer through the scratch buffer. */
  method Follow(m: Mount, b: nat, i: nat) returns (p: nat)
    requires 4 * i + 4 <= m.blockSize
    ensures p == Pointer(m, b, i)
  {
    if b == 0 { return 0; }
    var scratch := ReadBlock(m, b);
    if scratch.None? { return 0; }
    p := Le32At(scratch.value, 4 * i);
  }

  lemma Product(e: nat)
    requires e > 0
    ensures e * e > 0
  {
  }

  /** `ext_inode_block`. */
  method InodeBlock(m: Mount, inode: seq<u32>, logical: u32) returns (p: nat)
    requires SizeOk(m.blockSize) && |inode| == 15
    ensures p == BlockOf(m, m.blockSize / 4, inode, logical)
  {
    var e := m.blockSize / 4;
    var w := e * e;
    Widths(e);
    Product(e);
    p := BlockAt(m, e, w, inode, logical);
  }

  method BlockAt(m: Mount, e: nat, w: nat, inode: seq<u32>, logical: u32) returns (p: nat)
    requires 4 * e <= m.blockSize && e > 0 && w > 0 && |inode| == 15 && Width(e, 1) == e && Width(e, 2) == w
    ensures p == BlockOf(m, e, inode, logical)
  {
    if logical < 12 { return inode[logical]; }
    var j := logical - 12;
    if j < e {
      WalkOne(m, e, inode[12], j);
      p := Follow(m, inode[12], j);
      return;
    }
    j := j - e;
    if j < w { p := DoubleBlock(m, e, inode[13], j); } else { p := TripleBlock(m, e, w, inode[14], j - w); }
  }

  method DoubleBlock(m: Mount, e: nat, root: u32, j: nat) returns (p: nat)
    requires 4 * e <= m.blockSize && e > 0 && j < Width(e, 2)
    ensures p == Walk(m, e, root, 2, j)
  {
    var first, second := j / e, j % e;
    WalkTwo(m, e, root, j, first, second);
    var b := Follow(m, root, first);
    p := Follow(m, b, second);
  }

  method TripleBlock(m: Mount, e: nat, w: nat, root: u32, j: nat) returns (p: nat)
    requires 4 * e <= m.blockSize && e > 0 && w == Width(e, 2) && w > 0
    ensures p == if j < Width(e, 3) then Walk(m, e, root, 3, j) else 0
  {
    ThirdInRange(e, j, w);
    var first, rest := j / w, j % w;
    var second, third := rest / e, rest % e;
    if first >= e { return 0; }
    WalkThree(m, e, root, j, w, first, rest, second, third);
    var b := Follow(m, root, first);
    b := Follow(m, b, second);
    p := Follow(m, b, third);
  }

  // ---- Loading a file ----

  predicate Readable(m: Mount, inode: seq<u32>, b: nat)
    requires |inode| == 15
  {
    var p := BlockOf(m, m.blockSize / 4, inode, b);
    p != 0 && ReadBlock(m, p).Some?
  }

  /** The first `n` blocks of the file, laid end to end. */
  function Data(m: Mount, inode: seq<u32>, n: nat): (d: seq<byte>)
    requires |inode| == 15 && forall b :: 0 <= b < n ==> Readable(m, inode, b)
    ensures |d| == Span(n, m.blockSize)
  {
    if n == 0 then []
    else
      assert Readable(m, inode, n - 1);
      Data(m, inode, n - 1) + ReadBlock(m, BlockOf(m, m.blockSize / 4, inode, n - 1)).value
  }

  /** Blocks a file of `size` bytes takes. */
  function BlockCount(size: nat, bs: nat): nat
    requires bs > 0
  {
    (size + bs - 1) / bs
  }

  lemma CountCovers(size: nat, bs: nat, b: nat)
    requires bs > 0
    ensures b < BlockCount(size, bs) <==> Span(b, bs) < size
  {
    var t := size + bs - 1;
    SpanSplit(t, bs, b + 1);
    SpanIsProduct(b + 1, bs);
    SpanIsProduct(b, bs);
  }

  /** What `extfs_load_file` promises: the request fits and every block of the file is there. */
  ghost predicate Loadable(m: Mount, inode: seq<u32>, size: nat)
    requires m.blockSize > 0 && |inode| == 15
  {
    size + m.blockSize - 1 < WORD && forall b :: 0 <= b < BlockCount(size, m.blockSize) ==> Readable(m, inode, b)
  }

  lemma DataTaken(d: seq<byte>, x: seq<byte>, copied: nat, chunk: nat)
    requires copied == |d| && chunk <= |x|
    ensures d[..copied] + x[..chunk] == (d + x)[..copied + chunk]
  {
  }

  /** `extfs_load_file` for an inode that has been found; `memory` tells whether the two block buffers could be
      allocated. It succeeds exactly if the file fits the buffer and all its blocks can be read, and then delivers
      them cut to size. */
  method LoadFile(m: Mount, inode: seq<u32>, size: u32, bufferSize: u32, memory: bool)
    returns (ok: bool, out: seq<byte>)
    requires SizeOk(m.blockSize) && |inode| == 15
    ensures ok <==> size <= bufferSize && memory && (size == 0 || Loadable(m, inode, size))
    ensures ok ==> |out| == size && Delivered(m, inode, size, out)
    ensures ok ==> forall k :: 0 <= k < size ==> ByteOnDevice(m, inode, k, out[k])
  {
    ok, out := false, [];
    if size > bufferSize || !memory { return; }
    var bs := m.blockSize;
    var t := (size + bs - 1) % WORD;
    var n := t / bs;
    out := CopyBlocks(m, inode, size, n);
    ok := |out| == size;
    Finished(m, inode, size, t, n, out);
    if ok {
      forall k | 0 <= k < size ensures ByteOnDevice(m, inode, k, out[k]) { DeliveredByte(m, inode, size, out, k); }
    }
  }

  /** Byte `k` of the file is the byte at the same place in the block the map names for it, on the device. */
  ghost predicate ByteOnDevice(m: Mount, inode: seq<u32>, k: nat, x: byte)
    requires m.blockSize > 0 && |inode| == 15
  {
    NamedByte(m, Flatten(m, m.blockSize / 4, inode), k / m.blockSize, k % m.blockSize, x)
  }

  ghost predicate NamedByte(m: Mount, named: seq<nat>, i: nat, o: nat, x: byte) {
    i < |named| && named[i] != 0 && Present(m, named[i]) && ByteAt(m, named[i], o, x)
  }

  lemma {:induction false} DataByte(m: Mount, inode: seq<u32>, n: nat, k: nat, i: nat, o: nat)
    requires m.blockSize > 0 && |inode| == 15 && AllReadable(m, inode, n) && k < Span(n, m.blockSize)
    requires i == k / m.blockSize && o == k % m.blockSize
    ensures i < n && Readable(m, inode, i)
    ensures Data(m, inode, n)[k] == ReadBlock(m, BlockOf(m, m.blockSize / 4, inode, i)).value[o]
    decreases n
  {
    SpanSplit(k, m.blockSize, n);
    assert Readable(m, inode, i);
    SpanSplit(k, m.blockSize, n - 1);
    if i < n - 1 { DataByte(m, inode, n - 1, k, i, o); }
  }

  lemma DeliveredByte(m: Mount, inode: seq<u32>, size: nat, out: seq<byte>, k: nat)
    requires m.blockSize > 0 && |inode| == 15 && Delivered(m, inode, size, out) && k < size
    ensures |out| == size && ByteOnDevice(m, inode, k, out[k])
  {
    DeliveredData(m, inode, size, BlockCount(size, m.blockSize), out, k);
  }

  lemma Place(k: nat, bs: nat) returns (i: nat, o: nat)
    requires bs > 0
    ensures i == k / bs && o == k % bs && o < bs
  {
    i, o := k / bs, k % bs;
  }

  lemma DeliveredData(m: Mount, inode: seq<u32>, size: nat, n: nat, out: seq<byte>, k: nat)
    requires m.blockSize > 0 && |inode| == 15 && AllReadable(m, inode, n) && size <= |Data(m, inode, n)|
    requires out == Data(m, inode, n)[..size] && k < size
    ensures ByteOnDevice(m, inode, k, out[k])
  {
    var i, o := Place(k, m.blockSize);
    DataByte(m, inode, n, k, i, o);
    FileByte(m, inode, m.blockSize / 4, i, o);
  }

  lemma FileByte(m: Mount, inode: seq<u32>, e: nat, i: nat, o: nat)
    requires |inode| == 15 && e == m.blockSize / 4 && Readable(m, inode, i) && o < m.blockSize
    ensures NamedByte(m, Flatten(m, e, inode), i, o, ReadBlock(m, BlockOf(m, e, inode, i)).value[o])
  {
    BlockOfIsFlattened(m, e, inode, i);
    ReadByte(m, BlockOf(m, e, inode, i), o);
  }

  /** `out` is the file: its blocks laid end to end, cut to `size`. */
  ghost predicate Delivered(m: Mount, inode: seq<u32>, size: nat, out: seq<byte>)
    requires m.blockSize > 0 && |inode| == 15
  {
    var n := BlockCount(size, m.blockSize);
    AllReadable(m, inode, n) && size <= |Data(m, inode, n)| && out == Data(m, inode, n)[..size]
  }

  ghost predicate AllReadable(m: Mount, inode: seq<u32>, n: nat)
    requires |inode| == 15
  {
    forall b :: 0 <= b < n ==> Readable(m, inode, b)
  }

  /** What the copy loop has produced after `b` blocks. */
  ghost predicate CopiedTo(m: Mount, inode: seq<u32>, size: nat, b: nat, out: seq<byte>)
    requires |inode| == 15
  {
    AllReadable(m, inode, b) && |out| == Min(Span(b, m.blockSize), size) && out == Data(m, inode, b)[..|out|]
  }

  lemma CopyStep(m: Mount, inode: seq<u32>, size: nat, b: nat, out: seq<byte>, block: seq<byte>, chunk: nat)
    requires |inode| == 15 && m.blockSize > 0 && CopiedTo(m, inode, size, b, out) && |out| < size
    requires Readable(m, inode, b)
    requires ReadBlock(m, BlockOf(m, m.blockSize / 4, inode, b)) == Some(block)
    requires chunk == Min(size - |out|, m.blockSize)
    ensures CopiedTo(m, inode, size, b + 1, out + block[..chunk])
  {
    DataTaken(Data(m, inode, b), block, |out|, chunk);
  }

  /** The copy loop: it stops at the first block that is missing or unreadable. */
  method CopyBlocks(m: Mount, inode: seq<u32>, size: nat, n: nat) returns (out: seq<byte>)
    requires SizeOk(m.blockSize) && |inode| == 15 && n < WORD
    ensures exists b: nat :: CopyStops(m, inode, size, n, out, b)
  {
    out := [];
    var b := 0;
    while b < n && |out| < size
      invariant 0 <= b <= n && CopiedTo(m, inode, size, b, out)
    {
      var p := InodeBlock(m, inode, b);
      if p == 0 { assert CopyStops(m, inode, size, n, out, b); return; }
      var block := ReadBlock(m, p);
      if block.None? { assert CopyStops(m, inode, size, n, out, b); return; }
      var chunk := Min(size - |out|, m.blockSize);
      CopyStep(m, inode, size, b, out, block.value, chunk);
      out := out + block.value[..chunk];
      b := b + 1;
    }
    assert CopyStops(m, inode, size, n, out, b);
  }

  ghost predicate CopyStops(m: Mount, inode: seq<u32>, size: nat, n: nat, out: seq<byte>, b: nat)
    requires |inode| == 15
  {
    b <= n && CopiedTo(m, inode, size, b, out) && (b == n || |out| >= size || !Readable(m, inode, b))
  }

  lemma ZeroBlocks(x: nat, bs: nat)
    requires x < bs
    ensures x / bs == 0
  {
  }

  /** The loop delivers the whole file exactly if it runs through all blocks. */
  lemma LengthTells(size: nat, bs: nat, b: nat, len: nat)
    requires bs > 0 && b <= BlockCount(size, bs) && len == Min(Span(b, bs), size)
    ensures len == size <==> b == BlockCount(size, bs)
  {
    CountCovers(size, bs, b);
  }

  lemma Finished(m: Mount, inode: seq<u32>, size: nat, t: nat, n: nat, out: seq<byte>)
    requires 0 < m.blockSize <= WORD && |inode| == 15 && size < WORD && t == (size + m.blockSize - 1) % WORD
    requires n == t / m.blockSize
    requires exists b: nat :: CopyStops(m, inode, size, n, out, b)
    ensures |out| == size <==> size == 0 || Loadable(m, inode, size)
    ensures |out| == size ==> Delivered(m, inode, size, out)
  {
    var b: nat :| CopyStops(m, inode, size, n, out, b);
    if size + m.blockSize - 1 < WORD {
      FinishedWhole(m, inode, size, n, out, b);
    } else {
      FinishedWrapped(m, inode, size, t, n, out, b);
    }
  }

  lemma FinishedWrapped(m: Mount, inode: seq<u32>, size: nat, t: nat, n: nat, out: seq<byte>, b: nat)
    requires 0 < m.blockSize <= WORD && |inode| == 15 && size < WORD <= size + m.blockSize - 1
    requires t == size + m.blockSize - 1 - WORD && n == t / m.blockSize && CopyStops(m, inode, size, n, out, b)
    ensures |out| == 0 && size > 0
  {
    ZeroBlocks(t, m.blockSize);
  }

  lemma FinishedWhole(m: Mount, inode: seq<u32>, size: nat, n: nat, out: seq<byte>, b: nat)
    requires m.blockSize > 0 && |inode| == 15 && size + m.blockSize - 1 < WORD && n == BlockCount(size, m.blockSize)
    requires CopyStops(m, inode, size, n, out, b)
    ensures |out| == size <==> Loadable(m, inode, size)
    ensures |out| == size ==> Delivered(m, inode, size, out)
    ensures size == 0 ==> |out| == 0
  {
    LengthTells(size, m.blockSize, b, |out|);
  }
}
