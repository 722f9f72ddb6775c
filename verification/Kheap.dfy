/** The kernel heap as a sequence of blocks: what `kmalloc` and `kfree` do to it (`kernel/kheap.c`, lines 28-170). */
module Kheap {
  import opened Bytes

  const HEAP_SIZE: nat := 0x200_0000
  const HEADER: nat := 16

  datatype Block = Block(addr: nat, size: nat, free: bool)

  /** `align4`, in 32-bit arithmetic: the least multiple of 4 that holds `size` bytes, or 0 for nothing and for the last
      three sizes, where it wraps. */
  function Align4(size: u32): (n: nat)
    ensures n % 4 == 0 && (n == 0 <==> size == 0 || size > 0xFFFF_FFFC)
    ensures n != 0 ==> size <= n < size + 4
  {
    (size + 3) % WORD / 4 * 4
  }

  // ---- The invariant ----

  /** The blocks, headers included, fill `[from, to)` without gap or overlap. */
  ghost predicate Tiles(bs: seq<Block>, from: nat, to: nat) {
    if bs == [] then from == to
    else bs[0].addr == from && Tiles(bs[1..], from + HEADER + bs[0].size, to)
  }

  /** No two neighbours are both free. */
  ghost predicate Coalesced(bs: seq<Block>) {
    forall i {:trigger Pair(bs, i)} :: 0 <= i && i + 1 < |bs| ==> !Pair(bs, i)
  }

  predicate Pair(bs: seq<Block>, i: nat) {
    i + 1 < |bs| && bs[i].free && bs[i + 1].free
  }

  ghost predicate Sound(bs: seq<Block>, start: nat) {
    Tiles(bs, start, start + HEAP_SIZE) && Coalesced(bs)
  }

  function Initial(start: nat): seq<Block> {
    [Block(start, HEAP_SIZE - HEADER, true)]
  }

  lemma {:induction false} TilesAppend(a: seq<Block>, b: seq<Block>, from: nat, mid: nat, to: nat)
    requires Tiles(a, from, mid) && Tiles(b, mid, to)
    ensures Tiles(a + b, from, to)
  {
    if a == [] {
      assert a + b == b;
    } else {
      assert (a + b)[1..] == a[1..] + b;
      TilesAppend(a[1..], b, from + HEADER + a[0].size, mid, to);
    }
  }

  lemma {:induction false} TilesSplit(a: seq<Block>, b: seq<Block>, from: nat, to: nat) returns (mid: nat)
    requires Tiles(a + b, from, to)
    ensures from <= mid <= to && Tiles(a, from, mid) && Tiles(b, mid, to)
  {
    if a == [] {
      assert a + b == b;
      TilesForward(b, from, to);
      mid := from;
    } else {
      assert (a + b)[1..] == a[1..] + b;
      mid := TilesSplit(a[1..], b, from + HEADER + a[0].size, to);
    }
  }

  lemma {:induction false} TilesForward(bs: seq<Block>, from: nat, to: nat)
    requires Tiles(bs, from, to)
    ensures from <= to
  {
    if bs != [] { TilesForward(bs[1..], from + HEADER + bs[0].size, to); }
  }

  /** Blocks come in address order, each after the end of those before it, all inside the heap. */
  lemma {:induction false} TilesOrder(bs: seq<Block>, from: nat, to: nat, i: nat, j: nat)
    requires Tiles(bs, from, to) && i < j < |bs|
    ensures bs[i].addr + HEADER + bs[i].size <= bs[j].addr
    decreases j
  {
    if i == 0 { TilesInside(bs[1..], from + HEADER + bs[0].size, to, j - 1); }
    else { TilesOrder(bs[1..], from + HEADER + bs[0].size, to, i - 1, j - 1); }
  }

  lemma {:induction false} TilesInside(bs: seq<Block>, from: nat, to: nat, i: nat)
    requires Tiles(bs, from, to) && i < |bs|
    ensures from <= bs[i].addr && bs[i].addr + HEADER + bs[i].size <= to
    decreases i
  {
    TilesForward(bs[1..], from + HEADER + bs[0].size, to);
    if i > 0 { TilesInside(bs[1..], from + HEADER + bs[0].size, to, i - 1); }
  }

  lemma {:induction false} TilesNext(bs: seq<Block>, from: nat, to: nat, i: nat)
    requires Tiles(bs, from, to) && i + 1 < |bs|
    ensures bs[i + 1].addr == bs[i].addr + HEADER + bs[i].size
    decreases i
  {
    if i > 0 { TilesNext(bs[1..], from + HEADER + bs[0].size, to, i - 1); }
  }

  /** Payloads of different blocks do not overlap. */
  lemma PayloadsDisjoint(bs: seq<Block>, start: nat, i: nat, j: nat)
    requires Sound(bs, start) && i < |bs| && j < |bs| && i != j
    ensures bs[i].addr + HEADER + bs[i].size <= bs[j].addr || bs[j].addr + HEADER + bs[j].size <= bs[i].addr
  {
    var end := start + HEAP_SIZE;
    if i < j { TilesOrder(bs, start, end, i, j); } else { TilesOrder(bs, start, end, j, i); }
  }

  // ---- Allocation ----

  predicate Fits(b: Block, need: nat) {
    b.free && b.size >= need
  }

  /** What becomes of a block a request of `need` bytes is placed in: the rest is split off if a block of 4 fits
      there. */
  function Cut(b: Block, need: nat): (r: seq<Block>)
    requires Fits(b, need)
  {
    if b.size >= need + HEADER + 4
    then [Block(b.addr, need, false), Block(b.addr + HEADER + need, b.size - need - HEADER, true)]
    else [Block(b.addr, b.size, false)]
  }

  function Placed(bs: seq<Block>, i: nat, need: nat): (r: seq<Block>)
    requires i < |bs| && Fits(bs[i], need)
  {
    bs[..i] + Cut(bs[i], need) + bs[i + 1..]
  }

  lemma CutTiles(b: Block, need: nat)
    requires Fits(b, need)
    ensures Tiles(Cut(b, need), b.addr, b.addr + HEADER + b.size)
  {
    var c := Cut(b, need);
    if |c| == 2 { assert c[1..] == [c[1]] && c[1..][1..] == []; } else { assert c[1..] == []; }
  }

  /** Replacing one block by blocks that fill its place keeps the tiling. */
  lemma TilesReplace(bs: seq<Block>, from: nat, to: nat, i: nat, n: nat, x: seq<Block>)
    requires Tiles(bs, from, to) && i + n <= |bs| && n > 0
    requires Tiles(x, bs[i].addr, bs[i + n - 1].addr + HEADER + bs[i + n - 1].size)
    ensures Tiles(bs[..i] + x + bs[i + n..], from, to)
  {
    var a, m, c := bs[..i], bs[i..i + n], bs[i + n..];
    assert bs == a + (m + c) && m[0] == bs[i] && m[n - 1] == bs[i + n - 1];
    TilesSwap(a, m, c, from, to, x);
  }

  lemma TilesSwap(a: seq<Block>, m: seq<Block>, c: seq<Block>, from: nat, to: nat, x: seq<Block>)
    requires Tiles(a + (m + c), from, to) && m != []
    requires Tiles(x, m[0].addr, m[|m| - 1].addr + HEADER + m[|m| - 1].size)
    ensures Tiles(a + x + c, from, to)
  {
    var p := TilesSplit(a, m + c, from, to);
    var q := TilesSplit(m, c, p, to);
    TilesEnd(m, p, q);
    TilesAppend(x, c, p, q, to);
    TilesAppend(a, x + c, from, p, to);
    assert a + (x + c) == a + x + c;
  }

  lemma {:induction false} TilesEnd(bs: seq<Block>, from: nat, to: nat)
    requires Tiles(bs, from, to) && bs != []
    ensures bs[|bs| - 1].addr + HEADER + bs[|bs| - 1].size == to
  {
    if |bs| > 1 { TilesEnd(bs[1..], from + HEADER + bs[0].size, to); } else { assert bs[1..] == []; }
  }

  lemma PlacedCoalesced(bs: seq<Block>, i: nat, need: nat)
    requires i < |bs| && Fits(bs[i], need) && Coalesced(bs)
    ensures Coalesced(Placed(bs, i, need))
  {
    var r, d := Placed(bs, i, need), |Cut(bs[i], need)| - 1;
    forall k: nat | k + 1 < |r|
      ensures !Pair(r, k)
    {
      if k + 1 < i { assert !Pair(bs, k); }
      else if k > i + d { assert !Pair(bs, k - d); }
      else if k == i + d && d == 1 { assert !Pair(bs, i); }
    }
  }

  /** Allocation keeps the heap sound. */
  lemma PlacedSound(bs: seq<Block>, start: nat, i: nat, need: nat)
    requires Sound(bs, start) && i < |bs| && Fits(bs[i], need)
    ensures Sound(Placed(bs, i, need), start)
  {
    CutTiles(bs[i], need);
    TilesReplace(bs, start, start + HEAP_SIZE, i, 1, Cut(bs[i], need));
    PlacedCoalesced(bs, i, need);
  }

  // ---- Freeing ----

  function Merged(b: Block, c: Block): Block {
    Block(b.addr, b.size + HEADER + c.size, b.free)
  }

  /** One round of `coalesce_forward` on block `i`. */
  function Join(bs: seq<Block>, i: nat): (r: seq<Block>)
    requires i + 1 < |bs|
  {
    bs[..i] + [Merged(bs[i], bs[i + 1])] + bs[i + 2..]
  }

  /** `coalesce_forward`. */
  function Forward(bs: seq<Block>, i: nat): (r: seq<Block>)
    requires i < |bs|
    ensures i < |r|
    decreases |bs|
  {
    if Pair(bs, i) then Forward(Join(bs, i), i) else bs
  }

  /** `kfree` of block `i`: mark it, join what follows, then join it to what precedes. */
  function Freed(bs: seq<Block>, i: nat): (r: seq<Block>)
    requires i < |bs|
  {
    var r := Forward(bs[i := bs[i].(free := true)], i);
    if i > 0 then Forward(r, i - 1) else r
  }

  lemma JoinTiles(bs: seq<Block>, from: nat, to: nat, i: nat)
    requires Tiles(bs, from, to) && i + 1 < |bs|
    ensures Tiles(Join(bs, i), from, to)
  {
    TilesNext(bs, from, to, i);
    var x := [Merged(bs[i], bs[i + 1])];
    assert x[1..] == [];
    TilesReplace(bs, from, to, i, 2, x);
  }

  lemma {:induction false} ForwardTiles(bs: seq<Block>, from: nat, to: nat, i: nat)
    requires Tiles(bs, from, to) && i < |bs|
    ensures Tiles(Forward(bs, i), from, to)
    decreases |bs|
  {
    if Pair(bs, i) {
      JoinTiles(bs, from, to, i);
      ForwardTiles(Join(bs, i), from, to, i);
    }
  }

  lemma MarkTiles(bs: seq<Block>, from: nat, to: nat, i: nat)
    requires Tiles(bs, from, to) && i < |bs|
    ensures Tiles(bs[i := bs[i].(free := true)], from, to)
  {
    var x := [bs[i].(free := true)];
    assert x[1..] == [];
    TilesReplace(bs, from, to, i, 1, x);
    assert bs[..i] + x + bs[i + 1..] == bs[i := bs[i].(free := true)];
  }

  /** Joining the only pairs there are. */
  ghost predicate PairsOnlyAt(bs: seq<Block>, i: nat) {
    forall k {:trigger Pair(bs, k)} :: 0 <= k && k + 1 < |bs| && k != i && k + 1 != i ==> !Pair(bs, k)
  }

  lemma {:induction false} ForwardClears(bs: seq<Block>, i: nat)
    requires i < |bs| && PairsOnlyAt(bs, i)
    ensures PairsOnlyAt(Forward(bs, i), i) && !Pair(Forward(bs, i), i)
    decreases |bs|
  {
    if Pair(bs, i) {
      var r := Join(bs, i);
      forall k: nat | k + 1 < |r| && k != i && k + 1 != i
        ensures !Pair(r, k)
      {
        if k + 1 < i { assert !Pair(bs, k); } else { assert !Pair(bs, k + 1); }
      }
      ForwardClears(r, i);
    }
  }

  lemma FreedCoalesced(bs: seq<Block>, i: nat)
    requires i < |bs| && Coalesced(bs)
    ensures Coalesced(Freed(bs, i))
  {
    var m := bs[i := bs[i].(free := true)];
    forall k: nat | k + 1 < |m| && k != i && k + 1 != i
      ensures !Pair(m, k)
    {
      assert !Pair(bs, k);
    }
    ForwardClears(m, i);
    ForwardKeeps(m, i);
    var r := Forward(m, i);
    if i > 0 {
      ForwardClears(r, i - 1);
      ForwardKeeps(r, i - 1);
      assert i > 1 ==> !Pair(bs, i - 2);
    }
  }

  /** Joining forward leaves the blocks before alone. */
  lemma {:induction false} ForwardKeeps(bs: seq<Block>, i: nat)
    requires i < |bs|
    ensures var r := Forward(bs, i); r[..i] == bs[..i] && r[i].addr == bs[i].addr && r[i].free == bs[i].free
    decreases |bs|
  {
    if Pair(bs, i) { ForwardKeeps(Join(bs, i), i); }
  }

  /** Freeing keeps the heap sound. */
  lemma FreedSound(bs: seq<Block>, start: nat, i: nat)
    requires Sound(bs, start) && i < |bs|
    ensures Sound(Freed(bs, i), start)
  {
    var m, end := bs[i := bs[i].(free := true)], start + HEAP_SIZE;
    MarkTiles(bs, start, end, i);
    ForwardTiles(m, start, end, i);
    if i > 0 { ForwardTiles(Forward(m, i), start, end, i - 1); }
    FreedCoalesced(bs, i);
  }

  // ---- What the operations mean for those who hold memory ----

  /** The blocks in use. */
  function Live(bs: seq<Block>): set<Block> {
    if bs == [] then {} else Live(bs[..|bs| - 1]) + if bs[|bs| - 1].free then {} else {bs[|bs| - 1]}
  }

  lemma {:induction false} LiveAppend(a: seq<Block>, b: seq<Block>)
    ensures Live(a + b) == Live(a) + Live(b)
  {
    if b == [] {
      assert a + b == a;
    } else {
      assert (a + b)[..|a + b| - 1] == a + b[..|b| - 1];
      LiveAppend(a, b[..|b| - 1]);
    }
  }

  lemma {:induction false} LiveIs(bs: seq<Block>, x: Block)
    ensures x in Live(bs) <==> x in bs && !x.free
  {
    if bs != [] {
      LiveIs(bs[..|bs| - 1], x);
      assert bs == bs[..|bs| - 1] + [bs[|bs| - 1]];
    }
  }

  lemma LiveOne(b: Block)
    ensures Live([b]) == if b.free then {} else {b}
  {
    assert [b][..0] == [];
  }

  lemma LiveThree(a: seq<Block>, x: seq<Block>, c: seq<Block>)
    ensures Live(a + x + c) == Live(a) + Live(x) + Live(c)
  {
    LiveAppend(a + x, c);
    LiveAppend(a, x);
  }

  lemma CutLive(b: Block, need: nat)
    requires Fits(b, need)
    ensures Live(Cut(b, need)) == {Cut(b, need)[0]}
  {
    var c := Cut(b, need);
    if |c| == 2 {
      assert c == [c[0]] + [c[1]];
      LiveAppend([c[0]], [c[1]]);
      LiveOne(c[1]);
    }
    LiveOne(c[0]);
  }

  /** Allocation adds one block of at least the size asked for, and with less than 20 bytes too many, and leaves every
      other alone. */
  lemma PlacedLive(bs: seq<Block>, start: nat, i: nat, need: nat)
    requires Sound(bs, start) && i < |bs| && Fits(bs[i], need)
    ensures var b := Cut(bs[i], need)[0];
            && b.addr == bs[i].addr && need <= b.size < need + 20
            && b !in Live(bs) && Live(Placed(bs, i, need)) == Live(bs) + {b}
  {
    var a, c := bs[..i], bs[i + 1..];
    assert bs == a + [bs[i]] + c;
    LiveThree(a, [bs[i]], c);
    LiveOne(bs[i]);
    LiveThree(a, Cut(bs[i], need), c);
    CutLive(bs[i], need);
    AddressUnique(bs, start, i, Cut(bs[i], need)[0]);
  }

  lemma AddressUnique(bs: seq<Block>, start: nat, i: nat, b: Block)
    requires Sound(bs, start) && i < |bs| && b.addr == bs[i].addr && b != bs[i]
    ensures b !in Live(bs)
  {
    LiveIs(bs, b);
    if b in bs {
      var j :| 0 <= j < |bs| && bs[j] == b;
      PayloadsDisjoint(bs, start, i, j);
    }
  }

  lemma JoinLive(bs: seq<Block>, i: nat)
    requires Pair(bs, i)
    ensures Live(Join(bs, i)) == Live(bs)
  {
    var a, c := bs[..i], bs[i + 2..];
    assert bs == a + [bs[i], bs[i + 1]] + c;
    LiveThree(a, [bs[i], bs[i + 1]], c);
    assert [bs[i], bs[i + 1]] == [bs[i]] + [bs[i + 1]];
    LiveAppend([bs[i]], [bs[i + 1]]);
    LiveOne(bs[i]);
    LiveOne(bs[i + 1]);
    LiveThree(a, [Merged(bs[i], bs[i + 1])], c);
    LiveOne(Merged(bs[i], bs[i + 1]));
  }

  lemma {:induction false} ForwardLive(bs: seq<Block>, i: nat)
    requires i < |bs|
    ensures Live(Forward(bs, i)) == Live(bs)
    decreases |bs|
  {
    if Pair(bs, i) {
      JoinLive(bs, i);
      ForwardLive(Join(bs, i), i);
    }
  }

  /** Freeing takes away exactly the block freed. */
  lemma FreedLive(bs: seq<Block>, start: nat, i: nat)
    requires Sound(bs, start) && i < |bs| && !bs[i].free
    ensures Live(Freed(bs, i)) == Live(bs) - {bs[i]}
  {
    var a, c, f := bs[..i], bs[i + 1..], bs[i].(free := true);
    var m := bs[i := f];
    assert bs == a + [bs[i]] + c && m == a + [f] + c;
    LiveThree(a, [bs[i]], c);
    LiveOne(bs[i]);
    LiveThree(a, [f], c);
    LiveOne(f);
    ForwardLive(m, i);
    if i > 0 { ForwardLive(Forward(m, i), i - 1); }
    NotElsewhere(bs, start, i);
  }

  lemma NotElsewhere(bs: seq<Block>, start: nat, i: nat)
    requires Sound(bs, start) && i < |bs|
    ensures bs[i] !in Live(bs[..i]) && bs[i] !in Live(bs[i + 1..])
  {
    LiveIs(bs[..i], bs[i]);
    LiveIs(bs[i + 1..], bs[i]);
    forall j | 0 <= j < |bs| && j != i
      ensures bs[j] != bs[i]
    {
      PayloadsDisjoint(bs, start, i, j);
    }
  }

  /** A sound heap in which nothing is in use is the initial one. */
  lemma NothingLive(bs: seq<Block>, start: nat)
    requires Sound(bs, start) && Live(bs) == {}
    ensures bs == Initial(start)
  {
    forall i | 0 <= i < |bs|
      ensures bs[i].free
    {
      LiveIs(bs, bs[i]);
    }
    if |bs| >= 2 {
      assert Pair(bs, 0);
      assert false;
    }
    assert bs == [bs[0]] && bs[1..] == [];
    assert Tiles(bs[1..], start + HEADER + bs[0].size, start + HEAP_SIZE);
  }

  /** Index of the first block that fits from `i` on, or the number of blocks. */
  function FirstFit(bs: seq<Block>, i: nat, need: nat): (k: nat)
    requires i <= |bs|
    ensures i <= k <= |bs| && (k < |bs| ==> Fits(bs[k], need))
    decreases |bs| - i
  {
    if i == |bs| || Fits(bs[i], need) then i else FirstFit(bs, i + 1, need)
  }

  /** Nothing before the first fit fits; if there is none, nothing does. */
  lemma {:induction false} FirstFitIs(bs: seq<Block>, i: nat, need: nat, j: nat)
    requires i <= |bs| && i <= j < FirstFit(bs, i, need)
    ensures !Fits(bs[j], need)
    decreases |bs| - i
  {
    if i < j { FirstFitIs(bs, i + 1, need, j); }
  }

  /** Index of the block in use at `a`, from `k` on, or the number of blocks. */
  function Find(bs: seq<Block>, a: nat, k: nat): (i: nat)
    requires k <= |bs|
    ensures k <= i <= |bs| && (i < |bs| ==> bs[i].addr == a && !bs[i].free)
    decreases |bs| - k
  {
    if k == |bs| || (bs[k].addr == a && !bs[k].free) then k else Find(bs, a, k + 1)
  }

  lemma {:induction false} FindIs(bs: seq<Block>, a: nat, k: nat)
    requires k <= |bs|
    ensures forall j :: k <= j < Find(bs, a, k) ==> bs[j].addr != a || bs[j].free
    decreases |bs| - k
  {
    if k < Find(bs, a, k) { FindIs(bs, a, k + 1); }
  }

  /** `kfree` by address: what is not the address of a block in use is ignored. */
  function FreeAt(bs: seq<Block>, a: nat): (r: seq<Block>) {
    var i := Find(bs, a, 0);
    if i < |bs| then Freed(bs, i) else bs
  }

  datatype Op = Alloc(size: u32) | Release(addr: nat)

  function Step(bs: seq<Block>, op: Op): (r: seq<Block>) {
    match op
    case Alloc(size) =>
      var need, k := Align4(size), FirstFit(bs, 0, Align4(size));
      if need == 0 || k == |bs| then bs else Placed(bs, k, need)
    case Release(a) => FreeAt(bs, a)
  }

  function Run(bs: seq<Block>, ops: seq<Op>): (r: seq<Block>)
    decreases |ops|
  {
    if ops == [] then bs else Run(Step(bs, ops[0]), ops[1..])
  }

  // ---- Sizes in steps of 4 ----

  /** Every block holds a multiple of 4 bytes, and at least 4. */
  ghost predicate Grained(bs: seq<Block>) {
    forall i :: 0 <= i < |bs| ==> Grain(bs[i])
  }

  predicate Grain(b: Block) {
    b.size >= 4 && b.size % 4 == 0
  }

  lemma PlacedGrained(bs: seq<Block>, i: nat, need: nat)
    requires Grained(bs) && i < |bs| && Fits(bs[i], need) && need > 0 && need % 4 == 0
    ensures Grained(Placed(bs, i, need))
  {
    var c, r := Cut(bs[i], need), Placed(bs, i, need);
    forall k | 0 <= k < |r|
      ensures Grain(r[k])
    {
      if i + |c| <= k { assert Grain(bs[k - |c| + 1]); }
    }
  }

  lemma JoinGrained(bs: seq<Block>, i: nat)
    requires Grained(bs) && i + 1 < |bs|
    ensures Grained(Join(bs, i))
  {
    var r := Join(bs, i);
    forall k | 0 <= k < |r|
      ensures Grain(r[k])
    {
      if k == i { assert Grain(bs[i]) && Grain(bs[i + 1]); }
      if k > i { assert Grain(bs[k + 1]); }
    }
  }

  lemma {:induction false} ForwardGrained(bs: seq<Block>, i: nat)
    requires Grained(bs) && i < |bs|
    ensures Grained(Forward(bs, i))
    decreases |bs|
  {
    if Pair(bs, i) {
      JoinGrained(bs, i);
      ForwardGrained(Join(bs, i), i);
    }
  }

  lemma FreedGrained(bs: seq<Block>, i: nat)
    requires Grained(bs) && i < |bs|
    ensures Grained(Freed(bs, i))
  {
    var m := bs[i := bs[i].(free := true)];
    assert Grained(m) by { assert Grain(bs[i]); }
    ForwardGrained(m, i);
    if i > 0 { ForwardGrained(Forward(m, i), i - 1); }
  }

  /** So blocks of a heap that starts at a multiple of 4 do too. */
  lemma {:induction false} Aligned(bs: seq<Block>, from: nat, to: nat, i: nat)
    requires Tiles(bs, from, to) && Grained(bs) && from % 4 == 0 && i < |bs|
    ensures bs[i].addr % 4 == 0
    decreases |bs|
  {
    if i > 0 {
      assert Grain(bs[0]);
      forall k | 0 <= k < |bs| - 1 ensures Grain(bs[1..][k]) { assert Grain(bs[k + 1]); }
      Aligned(bs[1..], from + HEADER + bs[0].size, to, i - 1);
    }
  }

  /** There is room for a request exactly if a free block is as large as the request, unrounded. */
  lemma FirstFitFinds(bs: seq<Block>, size: u32)
    requires Grained(bs) && 0 < size <= 0xFFFF_FFFC
    ensures FirstFit(bs, 0, Align4(size)) < |bs| <==> exists i :: 0 <= i < |bs| && bs[i].free && bs[i].size >= size
  {
    var k := FirstFit(bs, 0, Align4(size));
    if i :| 0 <= i < |bs| && bs[i].free && bs[i].size >= size {
      assert Grain(bs[i]);
      if i < k { FirstFitIs(bs, 0, Align4(size), i); }
    }
  }

  // ---- Runs ----

  /** After any run of calls the blocks tile the heap and no two neighbours are free. */
  lemma {:induction false} RunSound(bs: seq<Block>, start: nat, ops: seq<Op>)
    requires Sound(bs, start)
    ensures Sound(Run(bs, ops), start)
    decreases |ops|
  {
    if ops != [] {
      StepSound(bs, start, ops[0]);
      RunSound(Step(bs, ops[0]), start, ops[1..]);
    }
  }

  lemma StepSound(bs: seq<Block>, start: nat, op: Op)
    requires Sound(bs, start)
    ensures Sound(Step(bs, op), start)
  {
    match op
    case Alloc(size) =>
      var k := FirstFit(bs, 0, Align4(size));
      if k < |bs| { PlacedSound(bs, start, k, Align4(size)); }
    case Release(a) =>
      var i := Find(bs, a, 0);
      if i < |bs| { FreedSound(bs, start, i); }
  }

  function FreeEach(bs: seq<Block>, order: seq<nat>): (r: seq<Block>)
    decreases |order|
  {
    if order == [] then bs else FreeEach(FreeAt(bs, order[0]), order[1..])
  }

  /** Freeing everything, in whatever order, restores the single initial block. */
  lemma {:induction false} FreeAllRestores(bs: seq<Block>, start: nat, order: seq<nat>)
    requires Sound(bs, start) && forall b :: b in Live(bs) ==> b.addr in order
    ensures FreeEach(bs, order) == Initial(start)
    decreases |order|
  {
    if order == [] {
      assert Live(bs) == {};
      NothingLive(bs, start);
    } else {
      var i := Find(bs, order[0], 0);
      if i < |bs| {
        FreedSound(bs, start, i);
        StillListed(bs, start, i, order);
      } else {
        NotListed(bs, order);
      }
      FreeAllRestores(FreeAt(bs, order[0]), start, order[1..]);
    }
  }

  lemma NotListed(bs: seq<Block>, order: seq<nat>)
    requires order != [] && Find(bs, order[0], 0) == |bs| && forall b :: b in Live(bs) ==> b.addr in order
    ensures forall b :: b in Live(bs) ==> b.addr in order[1..]
  {
    FindIs(bs, order[0], 0);
    forall b | b in Live(bs)
      ensures b.addr in order[1..]
    {
      LiveIs(bs, b);
      assert order == [order[0]] + order[1..];
    }
  }

  lemma StillListed(bs: seq<Block>, start: nat, i: nat, order: seq<nat>)
    requires Sound(bs, start) && i < |bs| && !bs[i].free && order != [] && order[0] == bs[i].addr
    requires forall b :: b in Live(bs) ==> b.addr in order
    ensures forall b :: b in Live(Freed(bs, i)) ==> b.addr in order[1..]
  {
    FreedLive(bs, start, i);
    forall b | b in Live(Freed(bs, i))
      ensures b.addr in order[1..]
    {
      SameAddress(bs, start, i, b);
      assert order == [order[0]] + order[1..];
    }
  }

  lemma SameAddress(bs: seq<Block>, start: nat, i: nat, b: Block)
    requires Sound(bs, start) && i < |bs| && b in Live(bs) && b != bs[i]
    ensures b.addr != bs[i].addr
  {
    if b.addr == bs[i].addr { AddressUnique(bs, start, i, b); }
  }

  // ---- A pair of calls ----

  /** Freeing what was just allocated restores the exact list. */
  lemma PlacedFreed(bs: seq<Block>, i: nat, need: nat)
    requires Coalesced(bs) && i < |bs| && Fits(bs[i], need)
    ensures Freed(Placed(bs, i, need), i) == bs
  {
    var r := Placed(bs, i, need);
    var m := r[i := r[i].(free := true)];
    assert i > 0 ==> !Pair(bs, i - 1);
    assert !Pair(bs, i);
    if |Cut(bs[i], need)| == 2 {
      assert Pair(m, i);
      assert Join(m, i) == bs;
      assert Forward(bs, i) == bs;
    } else {
      assert m == bs;
    }
  }

  /** In terms of the calls: releasing the address an allocation chose undoes the allocation. */
  lemma AllocReleased(bs: seq<Block>, start: nat, size: u32)
    requires Sound(bs, start)
    ensures var k := FirstFit(bs, 0, Align4(size));
            Align4(size) > 0 && k < |bs| ==> Step(Step(bs, Alloc(size)), Release(bs[k].addr)) == bs
  {
    var need, k := Align4(size), FirstFit(bs, 0, Align4(size));
    if need > 0 && k < |bs| {
      var r := Placed(bs, k, need);
      assert r[k] == Cut(bs[k], need)[0];
      PlacedSound(bs, start, k, need);
      FoundAt(r, start, k);
      PlacedFreed(bs, k, need);
    }
  }

  /** The address of a live block finds that block. */
  lemma FoundAt(bs: seq<Block>, start: nat, k: nat)
    requires Sound(bs, start) && k < |bs| && !bs[k].free
    ensures Find(bs, bs[k].addr, 0) == k
  {
    FindIs(bs, bs[k].addr, 0);
    var i := Find(bs, bs[k].addr, 0);
    if i < k { PayloadsDisjoint(bs, start, i, k); }
  }

  // ---- Totals ----

  function FreeBytes(bs: seq<Block>): nat {
    if bs == [] then 0 else (if bs[0].free then bs[0].size else 0) + FreeBytes(bs[1..])
  }

  function UsedBytes(bs: seq<Block>): nat {
    if bs == [] then 0 else (if bs[0].free then 0 else bs[0].size) + UsedBytes(bs[1..])
  }

  function FreeBlocks(bs: seq<Block>): nat {
    if bs == [] then 0 else (if bs[0].free then 1 else 0) + FreeBlocks(bs[1..])
  }

  /** Free bytes are in free blocks, used bytes in used ones, and the free blocks are counted once each. */
  lemma {:induction false} TotalsAre(bs: seq<Block>, k: nat)
    requires k <= |bs|
    ensures FreeBlocks(bs[k..]) == |set i | k <= i < |bs| && bs[i].free|
    ensures (forall i :: k <= i < |bs| ==> bs[i].free) ==> UsedBytes(bs[k..]) == 0
    ensures (forall i :: k <= i < |bs| ==> !bs[i].free) ==> FreeBytes(bs[k..]) == 0
    decreases |bs| - k
  {
    if k < |bs| {
      TotalsAre(bs, k + 1);
      assert bs[k..][1..] == bs[k + 1..];
      var rest := set i | k + 1 <= i < |bs| && bs[i].free;
      assert (set i | k <= i < |bs| && bs[i].free) == if bs[k].free then {k} + rest else rest;
    }
  }

  /** Nothing is lost: free, used and header bytes make up the range. */
  lemma {:induction false} Conserved(bs: seq<Block>, from: nat, to: nat)
    requires Tiles(bs, from, to)
    ensures FreeBytes(bs) + UsedBytes(bs) + HEADER * |bs| == to - from
  {
    if bs != [] { Conserved(bs[1..], from + HEADER + bs[0].size, to); }
  }
}
