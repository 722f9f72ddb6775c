/** The heap as the kernel keeps it: headers at addresses, chained by `next` (`kernel/kheap.c`, lines 36-170), proved to
    do to the chain what `Kheap` says of the sequence of blocks. */
module KheapList {
  import opened Bytes
  import opened Kheap

  datatype Header = Header(next: nat, size: nat, free: bool)

  function NextAddr(bs: seq<Block>, i: nat): nat {
    if i + 1 < |bs| then bs[i + 1].addr else 0
  }

  function HeaderOf(bs: seq<Block>, i: nat): Header
    requires i < |bs|
  {
    Header(NextAddr(bs, i), bs[i].size, bs[i].free)
  }

  ghost predicate At(hs: map<nat, Header>, bs: seq<Block>, i: nat) {
    i < |bs| && bs[i].addr in hs && hs[bs[i].addr] == HeaderOf(bs, i)
  }

  ghost predicate Known(bs: seq<Block>, a: nat) {
    exists i :: 0 <= i < |bs| && bs[i].addr == a
  }

  /** The chain of headers is the sequence of blocks, and there are no others. */
  ghost predicate Linked(hs: map<nat, Header>, bs: seq<Block>) {
    && (forall i :: 0 <= i < |bs| ==> At(hs, bs, i))
    && (forall a :: a in hs ==> Known(bs, a))
  }

  lemma OtherAddress(bs: seq<Block>, start: nat, i: nat, j: nat)
    requires Sound(bs, start) && i < |bs| && j < |bs| && i != j
    ensures bs[i].addr != bs[j].addr
  {
    PayloadsDisjoint(bs, start, i, j);
  }

  lemma InsideBlock(bs: seq<Block>, start: nat, i: nat, x: nat, j: nat)
    requires Sound(bs, start) && i < |bs| && bs[i].addr < x < bs[i].addr + HEADER + bs[i].size && j < |bs|
    ensures bs[j].addr != x
  {
    if j < i { TilesOrder(bs, start, start + HEAP_SIZE, j, i); }
    if i < j { TilesOrder(bs, start, start + HEAP_SIZE, i, j); }
  }

  // ---- Updates of the chain ----

  /** Rewriting one header in place. */
  lemma LinkedMark(hs: map<nat, Header>, bs: seq<Block>, start: nat, i: nat, free: bool)
    requires Sound(bs, start) && Linked(hs, bs) && i < |bs|
    ensures Linked(hs[bs[i].addr := HeaderOf(bs, i).(free := free)], bs[i := bs[i].(free := free)])
  {
    var hs', bs' := hs[bs[i].addr := HeaderOf(bs, i).(free := free)], bs[i := bs[i].(free := free)];
    forall k | 0 <= k < |bs'|
      ensures At(hs', bs', k)
    {
      assert At(hs, bs, k);
      if k != i { OtherAddress(bs, start, i, k); }
    }
    forall a | a in hs'
      ensures Known(bs', a)
    {
      assert a in hs ==> Known(bs, a);
      var k :| 0 <= k < |bs| && bs[k].addr == a;
      assert bs'[k].addr == a;
    }
  }

  /** Splitting a block in two. */
  lemma LinkedSplit(hs: map<nat, Header>, bs: seq<Block>, start: nat, i: nat, need: nat, x: nat)
    requires Sound(bs, start) && Linked(hs, bs) && i < |bs| && bs[i].free
    requires bs[i].size >= need + HEADER + 4 && x == bs[i].addr + HEADER + need
    ensures var rest := Header(NextAddr(bs, i), bs[i].size - need - HEADER, true);
            Linked(hs[x := rest][bs[i].addr := Header(x, need, false)], Placed(bs, i, need))
  {
    var hs' := hs[x := Header(NextAddr(bs, i), bs[i].size - need - HEADER, true)][bs[i].addr := Header(x, need, false)];
    var bs' := Placed(bs, i, need);
    forall k | 0 <= k < |bs'|
      ensures At(hs', bs', k)
    {
      if k != i && k != i + 1 {
        var j := if k < i then k else k - 1;
        assert At(hs, bs, j) && bs'[k] == bs[j] && NextAddr(bs', k) == NextAddr(bs, j);
        OtherAddress(bs, start, i, j);
        InsideBlock(bs, start, i, x, j);
      }
    }
    forall a | a in hs'
      ensures Known(bs', a)
    {
      if a == x {
        assert bs'[i + 1].addr == a;
      } else {
        assert a in hs ==> Known(bs, a);
        var j :| 0 <= j < |bs| && bs[j].addr == a;
        assert bs'[if j <= i then j else j + 1].addr == a;
      }
    }
  }

  /** Absorbing the next block. */
  lemma LinkedJoin(hs: map<nat, Header>, bs: seq<Block>, start: nat, i: nat, n: nat)
    requires Sound1(bs, start) && Linked(hs, bs) && i + 1 < |bs| && n == bs[i + 1].addr
    ensures var joined := Header(NextAddr(bs, i + 1), bs[i].size + HEADER + bs[i + 1].size, bs[i].free);
            Linked(hs[bs[i].addr := joined] - {n}, Join(bs, i))
  {
    var hs' := hs[bs[i].addr := Header(NextAddr(bs, i + 1), bs[i].size + HEADER + bs[i + 1].size, bs[i].free)] - {n};
    var bs' := Join(bs, i);
    Distinct(bs, start, i, i + 1);
    forall k | 0 <= k < |bs'|
      ensures At(hs', bs', k)
    {
      if k != i {
        var j := if k < i then k else k + 1;
        assert At(hs, bs, j) && bs'[k] == bs[j] && NextAddr(bs', k) == NextAddr(bs, j);
        Distinct(bs, start, i, j);
        Distinct(bs, start, i + 1, j);
      }
    }
    forall a | a in hs'
      ensures Known(bs', a)
    {
      assert a in hs ==> Known(bs, a);
      var j :| 0 <= j < |bs| && bs[j].addr == a;
      assert bs'[if j <= i then j else j - 1].addr == a;
    }
  }

  // While blocks are being joined neighbours may be free, but they still tile the heap.
  ghost predicate Sound1(bs: seq<Block>, start: nat) {
    Tiles(bs, start, start + HEAP_SIZE)
  }

  lemma Distinct(bs: seq<Block>, start: nat, i: nat, j: nat)
    requires Sound1(bs, start) && i < |bs| && j < |bs| && i != j
    ensures bs[i].addr != bs[j].addr
  {
    var end := start + HEAP_SIZE;
    if i < j { TilesOrder(bs, start, end, i, j); } else { TilesOrder(bs, start, end, j, i); }
  }

  // ---- The heap ----

  function AddrAt(bs: seq<Block>, i: nat): nat {
    if i < |bs| then bs[i].addr else 0
  }

  lemma Ends(bs: seq<Block>, start: nat, i: nat)
    requires Tiles(bs, start, start + HEAP_SIZE) && start > 0 && i <= |bs|
    ensures AddrAt(bs, i) == 0 <==> i == |bs|
    ensures i < |bs| ==> (NextAddr(bs, i) == 0 <==> i + 1 == |bs|)
  {
    if i < |bs| { TilesInside(bs, start, start + HEAP_SIZE, i); }
    if i + 1 < |bs| { TilesInside(bs, start, start + HEAP_SIZE, i + 1); }
  }

  const HEAP_MIN_START: nat := 0xC0_0000

  function HeapStart(minStart: u32): (at: nat)
    ensures at % 4096 == 0 && at % 4 == 0 && 0xC0_0000 <= at && minStart <= at
    ensures at < 0xC0_0000 + 4096 || at < minStart + 4096
  {
    ((if minStart > HEAP_MIN_START then minStart else HEAP_MIN_START) + 4095) / 4096 * 4096
  }

  /** A block for `size` bytes in front of `ptr` has been added to the blocks in use, and nothing else. */
  ghost predicate HandedOut(before: seq<Block>, after: seq<Block>, ptr: nat, size: nat) {
    exists b: Block :: && b.addr + 16 == ptr && size <= b.size < size + 24
                       && b !in Live(before) && Live(after) == Live(before) + {b}
  }

  lemma MallocHit(bs: seq<Block>, start: nat, i: nat, size: u32)
    requires Sound(bs, start) && Grained(bs) && start % 4 == 0 && i < |bs|
    requires Fits(bs[i], Align4(size)) && Align4(size) > 0
    ensures exists k :: 0 <= k < |bs| && bs[k].free && bs[k].size >= size
    ensures (bs[i].addr + HEADER) % 4 == 0
    ensures HandedOut(bs, Placed(bs, i, Align4(size)), bs[i].addr + HEADER, size)
  {
    Aligned(bs, start, start + HEAP_SIZE, i);
    PlacedLive(bs, start, i, Align4(size));
    var b := Cut(bs[i], Align4(size))[0];
    assert b.addr + 16 == bs[i].addr + HEADER;
  }

  lemma InitialSound(at: nat, headers: map<nat, Header>)
    requires at > 0 && headers == map[at := Header(0, HEAP_SIZE - HEADER, true)]
    ensures Sound(Initial(at), at) && Grained(Initial(at)) && Linked(headers, Initial(at))
  {
    var bs := Initial(at);
    assert bs[1..] == [];
    assert forall i: nat :: i + 1 < |bs| ==> !Pair(bs, i);
    assert bs[0].addr == at;
  }

  lemma FreeLive(bs: seq<Block>, start: nat, ptr: nat)
    requires Sound(bs, start)
    ensures ptr < HEADER ==> forall b :: b in Live(bs) ==> b.addr + 16 != ptr
    ensures ptr >= HEADER ==> Live(FreeAt(bs, ptr - HEADER)) == set b | b in Live(bs) && b.addr + 16 != ptr
  {
    if ptr >= HEADER {
      var i := Find(bs, ptr - HEADER, 0);
      FindIs(bs, ptr - HEADER, 0);
      if i < |bs| { FreedLive(bs, start, i); }
      forall b | b in Live(bs)
        ensures b.addr + 16 == ptr <==> i < |bs| && b == bs[i]
      {
        LiveIs(bs, b);
        if i < |bs| && b != bs[i] { SameAddress(bs, start, i, b); }
      }
    }
  }

  class Heap {
    const start: nat
    var headers: map<nat, Header>
    ghost var bs: seq<Block>

    ghost predicate Valid()
      reads this
    {
      start > 0 && start % 4 == 0 && Sound(bs, start) && Grained(bs) && Linked(headers, bs)
    }

    /** `kheap_init`: one free block on a page boundary, at or above both 12 MiB and what the caller keeps free. */
    constructor (minStart: u32)
      requires minStart + 4095 < WORD
      ensures Valid() && bs == Initial(start)
      ensures start % 4096 == 0 && 0xC0_0000 <= start && minStart <= start
      ensures start < 0xC0_0000 + 4096 || start < minStart + 4096
    {
      var at := HeapStart(minStart);
      start := at;
      headers := map[at := Header(0, HEAP_SIZE - HEADER, true)];
      bs := Initial(at);
      new;
      InitialSound(at, headers);
    }

    /** `kmalloc`: first fit, split if worthwhile. It fails exactly for no bytes, for the last three sizes, and if no
        free block has as many bytes as asked for; otherwise the caller gets a block of its own that has them, on a
        multiple of 4. */
    method Malloc(size: u32) returns (ptr: nat)
      requires Valid()
      modifies `headers, `bs
      ensures Valid()
      ensures var need, k := Align4(size), FirstFit(old(bs), 0, Align4(size));
              if need == 0 || k == |old(bs)| then ptr == 0 && bs == old(bs)
              else ptr == old(bs)[k].addr + HEADER && bs == Placed(old(bs), k, need)
      ensures ptr == 0 <==> size == 0 || size > 0xFFFF_FFFC
                            || forall i :: 0 <= i < |old(bs)| && old(bs)[i].free ==> old(bs)[i].size < size
      ensures ptr != 0 ==> ptr % 4 == 0 && HandedOut(old(bs), bs, ptr, size)
    {
      var need := Align4(size);
      if need == 0 { return 0; }
      var curr := start;
      ghost var i := 0;
      assert bs != [];
      while curr != 0
        invariant i <= |bs| && curr == AddrAt(bs, i) && FirstFit(bs, 0, need) == FirstFit(bs, i, need)
        invariant Valid() && bs == old(bs)
        decreases |bs| - i
      {
        assert At(headers, bs, i);
        if headers[curr].free && headers[curr].size >= need {
          MallocHit(bs, start, i, size);
          Place(curr, need, i);
          return curr + HEADER;
        }
        curr := headers[curr].next;
        i := i + 1;
      }
      Ends(bs, start, i);
      FirstFitFinds(bs, size);
      ptr := 0;
    }

    /** The block at `curr` is taken. */
    method Place(curr: nat, need: nat, ghost i: nat)
      requires Valid() && i < |bs| && bs[i].addr == curr && Fits(bs[i], need) && need > 0 && need % 4 == 0
      modifies `headers, `bs
      ensures Valid() && bs == Placed(old(bs), i, need)
    {
      assert At(headers, bs, i);
      var h := headers[curr];
      PlacedSound(bs, start, i, need);
      PlacedGrained(bs, i, need);
      if h.size >= need + HEADER + 4 {
        var x := curr + HEADER + need;
        LinkedSplit(headers, bs, start, i, need, x);
        headers := headers[x := Header(h.next, h.size - need - HEADER, true)][curr := Header(x, need, false)];
      } else {
        LinkedMark(headers, bs, start, i, false);
        assert bs[i := bs[i].(free := false)] == Placed(bs, i, need);
        headers := headers[curr := h.(free := false)];
      }
      bs := Placed(bs, i, need);
    }

    /** `coalesce_forward`. */
    method Coalesce(a: nat, ghost i: nat)
      requires Tiles(bs, start, start + HEAP_SIZE) && Linked(headers, bs) && i < |bs| && bs[i].addr == a && 0 < start
      modifies `headers, `bs
      ensures Tiles(bs, start, start + HEAP_SIZE) && Linked(headers, bs) && bs == Forward(old(bs), i)
    {
      assert At(headers, bs, i);
      Ends(bs, start, i);
      while headers[a].next != 0 && headers[a].free && headers[headers[a].next].free
        invariant Tiles(bs, start, start + HEAP_SIZE) && Linked(headers, bs) && i < |bs| && bs[i].addr == a
        invariant At(headers, bs, i)
        invariant headers[a].next != 0 ==> At(headers, bs, i + 1)
        invariant (headers[a].next == 0 <==> i + 1 == |bs|) && Forward(bs, i) == Forward(old(bs), i)
        decreases |bs|
      {
        var n := headers[a].next;
        LinkedJoin(headers, bs, start, i, n);
        JoinTiles(bs, start, start + HEAP_SIZE, i);
        var joined := Header(headers[n].next, headers[a].size + HEADER + headers[n].size, headers[a].free);
        headers := headers[a := joined] - {n};
        bs := Join(bs, i);
        assert At(headers, bs, i);
        Ends(bs, start, i);
      }
    }

    /** `kfree`: a pointer to a block in use frees it and no other; any other pointer is ignored. */
    method Free(ptr: nat)
      requires Valid()
      modifies `headers, `bs
      ensures Valid()
      ensures bs == if ptr < HEADER then old(bs) else FreeAt(old(bs), ptr - HEADER)
      ensures Live(bs) == set b | b in Live(old(bs)) && b.addr + 16 != ptr
    {
      FreeLive(bs, start, ptr);
      if ptr < HEADER { return; }
      var a := ptr - HEADER;
      ghost var k := Find(bs, a, 0);
      assert k < |bs| ==> At(headers, bs, k);
      if a !in headers { return; }
      assert Known(bs, a);
      ghost var i :| 0 <= i < |bs| && bs[i].addr == a;
      assert At(headers, bs, i);
      FindOnly(bs, start, a, i);
      if headers[a].free { return; }
      FreeBlock(a, i);
    }

    method FreeBlock(a: nat, ghost i: nat)
      requires Valid() && i < |bs| && bs[i].addr == a && !bs[i].free
      modifies `headers, `bs
      ensures Valid() && bs == Freed(old(bs), i)
    {
      ghost var end := start + HEAP_SIZE;
      FreedSound(bs, start, i);
      FreedGrained(bs, i);
      LinkedMark(headers, bs, start, i, true);
      MarkTiles(bs, start, end, i);
      assert At(headers, bs, i);
      headers := headers[a := headers[a].(free := true)];
      bs := bs[i := bs[i].(free := true)];
      ForwardKeeps(bs, i);
      Coalesce(a, i);
      ForwardStart(old(bs), start, i, bs);
      JoinPrevious(a, i);
    }

    /** The search for the block before the one freed. */
    method JoinPrevious(a: nat, ghost i: nat)
      requires Tiles(bs, start, start + HEAP_SIZE) && Linked(headers, bs) && i < |bs| && bs[i].addr == a && 0 < start
      requires bs[0].addr == start
      modifies `headers, `bs
      ensures Linked(headers, bs) && bs == if i > 0 then Forward(old(bs), i - 1) else old(bs)
    {
      var curr := start;
      ghost var k := 0;
      while curr != 0 && headers[curr].next != 0
        invariant k <= |bs| && curr == AddrAt(bs, k) && Linked(headers, bs) && bs == old(bs) && (k < i || i == 0)
        invariant curr != 0 ==> At(headers, bs, k)
        decreases |bs| - k
      {
        Ends(bs, start, k);
        if headers[curr].next == a {
          if k + 1 != i { Distinct(bs, start, k + 1, i); }
          Coalesce(curr, k);
          return;
        }
        curr := headers[curr].next;
        k := k + 1;
        assert At(headers, bs, k);
      }
      Ends(bs, start, k);
    }

    /** `kheap_get_stats`: the totals account for every byte. */
    method Stats() returns (blocks: nat, freeBlocks: nat, free: nat, used: nat)
      requires Valid()
      ensures blocks == |bs| && freeBlocks == FreeBlocks(bs) && free == FreeBytes(bs) && used == UsedBytes(bs)
      ensures free + used + HEADER * blocks == HEAP_SIZE
    {
      blocks, freeBlocks, free, used := 0, 0, 0, 0;
      var curr := start;
      while curr != 0
        invariant blocks <= |bs| && curr == AddrAt(bs, blocks)
        invariant freeBlocks + FreeBlocks(bs[blocks..]) == FreeBlocks(bs)
        invariant free + FreeBytes(bs[blocks..]) == FreeBytes(bs) && used + UsedBytes(bs[blocks..]) == UsedBytes(bs)
        decreases |bs| - blocks
      {
        assert At(headers, bs, blocks) && bs[blocks..][1..] == bs[blocks + 1..];
        if headers[curr].free {
          freeBlocks, free := freeBlocks + 1, free + headers[curr].size;
        } else {
          used := used + headers[curr].size;
        }
        blocks, curr := blocks + 1, headers[curr].next;
      }
      Ends(bs, start, blocks);
      assert bs[|bs|..] == [];
      Conserved(bs, start, start + HEAP_SIZE);
    }
  }

  lemma FindOnly(bs: seq<Block>, start: nat, a: nat, i: nat)
    requires Sound(bs, start) && i < |bs| && bs[i].addr == a
    ensures Find(bs, a, 0) == if bs[i].free then |bs| else i
  {
    FindIs(bs, a, 0);
    var k := Find(bs, a, 0);
    if k < |bs| && k != i { OtherAddress(bs, start, i, k); }
  }

  lemma ForwardStart(bs: seq<Block>, start: nat, i: nat, r: seq<Block>)
    requires Sound(bs, start) && i < |bs| && r == Forward(bs[i := bs[i].(free := true)], i)
    ensures i < |r| && r[i].addr == bs[i].addr && r[0].addr == start
  {
    ForwardKeeps(bs[i := bs[i].(free := true)], i);
  }
}
