/** Buffers made of scattered pages above 4 GiB (`kernel/highmem.c`, lines 11-89). The mapping window is direct access
    to the page it shows. */
module HighMem {
  import opened Bytes
  import opened Bitmap
  import opened BlockData
  import opened HighPool

  /** `hbuf_t`; no pages stands for the null pointer. */
  datatype Buffer = Buffer(pages: seq<nat>, size: nat)

  /** Pages `hbuf_alloc` asks for; the sum wraps for the last page of sizes. */
  function PageCount(size: u32): (n: nat)
    ensures size <= 0xFFFF_F000 ==> size <= 4096 * n < size + 4096
    ensures size > 0xFFFF_F000 ==> n == 0
  {
    (size + 4095) % WORD / 4096
  }

  function Frames(pages: seq<nat>): (fs: seq<nat>)
    ensures |fs| == |pages|
  {
    seq(|pages|, k requires 0 <= k < |pages| => pages[k] / 4096)
  }

  /** `idx` are the numbers of the pages. */
  ghost predicate Addressed(rs: seq<Region>, total: nat, pages: seq<nat>, idx: seq<nat>) {
    |idx| == |pages| && forall k :: 0 <= k < |idx| ==> idx[k] < total && pages[k] == ToPhys(rs, idx[k])
  }

  /** They are all different and all marked. */
  ghost predicate Holding(rs: seq<Region>, total: nat, bits: seq<Word>, pages: seq<nat>, idx: seq<nat>) {
    && |bits| == (total + 31) / 32 && Addressed(rs, total, pages, idx)
    && (forall k :: 0 <= k < |idx| ==> Taken(bits, idx[k]))
    && (forall j, k :: 0 <= j < k < |idx| ==> idx[j] != idx[k])
  }

  ghost predicate Owns(p: Pool, b: Buffer, idx: seq<nat>)
    reads p
  {
    p.Valid() && p.ready && Holding(p.regions, p.total, p.bits, b.pages, idx) && b.size <= 4096 * |b.pages|
  }

  /** Pages of a buffer are different pages. */
  lemma DistinctFrames(rs: seq<Region>, total: nat, bits: seq<Word>, pages: seq<nat>, idx: seq<nat>)
    requires Numbered(rs, total) && AllApart(rs) && Holding(rs, total, bits, pages, idx)
    ensures Distinct(Frames(pages))
  {
    forall j, k | 0 <= j < k < |pages|
      ensures Frames(pages)[j] != Frames(pages)[k]
    {
      IndexOfPhys(rs, total, idx[j]);
      IndexOfPhys(rs, total, idx[k]);
      var a := NumberedFull(rs, total, idx[j]);
      PhysIs(rs, total, a, idx[j]);
      var b := NumberedFull(rs, total, idx[k]);
      PhysIs(rs, total, b, idx[k]);
    }
  }

  // ---- Allocation ----

  lemma HoldMore(rs: seq<Region>, total: nat, bits: seq<Word>, pages: seq<nat>, idx: seq<nat>, b: nat, phys: nat)
    requires Holding(rs, total, bits, pages, idx) && b < total && !Taken(bits, b) && phys == ToPhys(rs, b)
    ensures Holding(rs, total, Take(bits, b), pages + [phys], idx + [b])
  {
    forall k | 0 <= k < |idx|
      ensures Taken(Take(bits, b), idx[k]) && idx[k] != b
    {
      TakeIs(bits, b, idx[k]);
    }
    TakeIs(bits, b, b);
  }

  lemma GrabMore(rs: seq<Region>, total: nat, bits0: seq<Word>, bits: seq<Word>, pages: seq<nat>, idx: seq<nat>,
                 b: nat, phys: nat)
    requires Grabbed(rs, total, bits0, bits, pages, idx) && b < total && !Taken(bits, b) && phys == ToPhys(rs, b)
    ensures Grabbed(rs, total, bits0, Take(bits, b), pages + [phys], idx + [b])
  {
    assert (idx + [b])[..|idx|] == idx;
    TakeEachIs(bits0, idx, b);
    HoldMore(rs, total, bits, pages, idx, b, phys);
  }

  /** The pages were free in `bits0` and are what `bits` has more. */
  ghost predicate Grabbed(rs: seq<Region>, total: nat, bits0: seq<Word>, bits: seq<Word>, pages: seq<nat>,
                          idx: seq<nat>) {
    && Holding(rs, total, bits, pages, idx) && |bits0| == |bits|
    && InMap(bits0, idx) && bits == TakeEach(bits0, idx)
    && (forall k :: 0 <= k < |idx| ==> !Taken(bits0, idx[k]))
  }

  /** The allocation loop. */
  method Grab(p: Pool, n: nat) returns (ok: bool, pages: seq<nat>, ghost idx: seq<nat>)
    requires p.Valid()
    modifies p`bits, p`used
    ensures p.Valid() && (ok <==> n == 0 || (p.ready && n <= p.total - old(p.used)))
    ensures !ok && !p.ready ==> p.bits == old(p.bits) && p.used == old(p.used)
    ensures !ok && p.ready ==> Undone(p.regions, p.total, old(p.bits), p.bits, idx)
    ensures !ok && p.ready ==> (p.bits == old(p.bits) <==> FreeRecovered(p.regions, p.total, old(p.bits)))
    ensures !ok && AllApart(p.regions) ==> p.bits == old(p.bits) && p.used == old(p.used)
    ensures ok && n > 0 ==>
      |pages| == n && Grabbed(p.regions, p.total, old(p.bits), p.bits, pages, idx) && p.used == old(p.used) + n
  {
    ok, pages, idx := true, [], [];
    if n > 0 && !p.ready { return false, [], []; }
    for i := 0 to n
      invariant p.Valid() && |pages| == i
      invariant (n > 0 ==> p.used == old(p.used) + i && Grabbed(p.regions, p.total, old(p.bits), p.bits, pages, idx))
    {
      ghost var bits, b := p.bits, FirstClear(p.bits, 0, p.total);
      var phys := p.Alloc();
      if phys == 0 {
        NoneFound(bits, p.total);
        GiveUp(p, pages, idx);
        UndoneIs(p.regions, p.total, old(p.bits), bits, pages, idx, p.bits);
        return false, [], idx;
      }
      GrabMore(p.regions, p.total, old(p.bits), bits, pages, idx, b, phys);
      pages, idx := pages + [phys], idx + [b];
    }
  }

  // ---- What a failed allocation leaves ----

  ghost function Addresses(rs: seq<Region>, idx: seq<nat>): (pages: seq<nat>)
    ensures |pages| == |idx|
  {
    seq(|idx|, k requires 0 <= k < |idx| => ToPhys(rs, idx[k]))
  }

  /** A failed allocation has taken all that was free, the pages `idx`, and freed it again by its addresses. */
  ghost predicate Undone(rs: seq<Region>, total: nat, bits0: seq<Word>, bits: seq<Word>, idx: seq<nat>) {
    && InMap(bits0, idx) && Grabbed(rs, total, bits0, TakeEach(bits0, idx), Addresses(rs, idx), idx)
    && (forall i :: 0 <= i < total && !Taken(bits0, i) ==> i in idx)
    && bits == FreedAll(rs, TakeEach(bits0, idx), Addresses(rs, idx))
  }

  /** Every free page has its own number back from its address. */
  ghost predicate FreeRecovered(rs: seq<Region>, total: nat, bits: seq<Word>) {
    forall i :: 0 <= i < total && !Taken(bits, i) ==> Recovered(rs, i)
  }

  lemma {:induction false} FreedAllIs(rs: seq<Region>, bits: seq<Word>, pages: seq<nat>, c: nat)
    ensures |FreedAll(rs, bits, pages)| == |bits|
    ensures Taken(FreedAll(rs, bits, pages), c) <==>
      Taken(bits, c) && forall k :: 0 <= k < |pages| ==> ToIndex(rs, pages[k]) != Some(c)
  {
    if pages != [] {
      var n := |pages| - 1;
      FreedAllIs(rs, bits, pages[..n], c);
      FreedIs(rs, FreedAll(rs, bits, pages[..n]), pages[n], c);
    }
  }

  /** Freeing what has just been taken restores the map exactly if each of those pages has its number back. */
  lemma RestoredIff(rs: seq<Region>, total: nat, bits0: seq<Word>, bits: seq<Word>, pages: seq<nat>, idx: seq<nat>)
    requires Numbered(rs, total) && Grabbed(rs, total, bits0, bits, pages, idx)
    ensures FreedAll(rs, bits, pages) == bits0 <==> forall k :: 0 <= k < |idx| ==> Recovered(rs, idx[k])
  {
    var r := FreedAll(rs, bits, pages);
    if k :| 0 <= k < |idx| && !Recovered(rs, idx[k]) {
      StaysTaken(rs, total, bits, pages, idx[k]);
    } else {
      FreedAllIs(rs, bits, pages, 0);
      forall c | 0 <= c < 32 * |bits0|
        ensures Taken(r, c) == Taken(bits0, c)
      {
        BitRestored(rs, total, bits0, bits, pages, idx, c);
      }
      SameBits(r, bits0);
    }
  }

  /** A page that does not have its number back cannot be freed. */
  lemma StaysTaken(rs: seq<Region>, total: nat, bits: seq<Word>, pages: seq<nat>, i: nat)
    requires Numbered(rs, total) && Taken(bits, i) && !Recovered(rs, i)
    ensures Taken(FreedAll(rs, bits, pages), i)
  {
    FreedAllIs(rs, bits, pages, i);
    forall k | 0 <= k < |pages|
      ensures ToIndex(rs, pages[k]) != Some(i)
    {
      if ToIndex(rs, pages[k]) == Some(i) { PhysOfIndex(rs, total, 0, pages[k]); }
    }
  }

  lemma BitRestored(rs: seq<Region>, total: nat, bits0: seq<Word>, bits: seq<Word>, pages: seq<nat>, idx: seq<nat>,
                    c: nat)
    requires Grabbed(rs, total, bits0, bits, pages, idx) && forall k :: 0 <= k < |idx| ==> Recovered(rs, idx[k])
    ensures Taken(FreedAll(rs, bits, pages), c) == Taken(bits0, c)
  {
    FreedAllIs(rs, bits, pages, c);
    TakeEachIs(bits0, idx, c);
    assert forall k :: 0 <= k < |pages| ==> ToIndex(rs, pages[k]) == Some(idx[k]) by {
      forall k | 0 <= k < |pages| ensures ToIndex(rs, pages[k]) == Some(idx[k]) { assert Recovered(rs, idx[k]); }
    }
    if c in idx {
      var k :| 0 <= k < |idx| && idx[k] == c;
      assert ToIndex(rs, pages[k]) == Some(c);
    }
  }

  lemma UndoneIs(rs: seq<Region>, total: nat, bits0: seq<Word>, bits1: seq<Word>, pages: seq<nat>, idx: seq<nat>,
                 bits: seq<Word>)
    requires Numbered(rs, total) && Grabbed(rs, total, bits0, bits1, pages, idx) && FirstClear(bits1, 0, total) == total
    requires bits == FreedAll(rs, bits1, pages)
    ensures Undone(rs, total, bits0, bits, idx)
    ensures (bits == bits0 <==> FreeRecovered(rs, total, bits0)) && (AllApart(rs) ==> bits == bits0)
  {
    BijectionIffApart(rs, total);
    assert pages == Addresses(rs, idx);
    forall i | 0 <= i < total && !Taken(bits0, i)
      ensures i in idx
    {
      FirstClearIs(bits1, 0, total, i);
      TakeEachIs(bits0, idx, i);
    }
    UndoneIff(rs, total, bits0, bits, idx);
  }

  /** So a failed allocation restores the map exactly if each free page has its number back. */
  lemma UndoneIff(rs: seq<Region>, total: nat, bits0: seq<Word>, bits: seq<Word>, idx: seq<nat>)
    requires Numbered(rs, total) && Undone(rs, total, bits0, bits, idx)
    ensures bits == bits0 <==> FreeRecovered(rs, total, bits0)
  {
    RestoredIff(rs, total, bits0, TakeEach(bits0, idx), Addresses(rs, idx), idx);
    forall k | 0 <= k < |idx|
      ensures idx[k] < total && !Taken(bits0, idx[k])
    {
    }
  }

  /** Otherwise the pages that do not have their number back stay in use for good. */
  lemma LeftOver(rs: seq<Region>, total: nat, bits0: seq<Word>, bits: seq<Word>, idx: seq<nat>, i: nat)
    requires Numbered(rs, total) && Undone(rs, total, bits0, bits, idx)
    requires i < total && !Taken(bits0, i) && !Recovered(rs, i)
    ensures Taken(bits, i)
  {
    TakeEachIs(bits0, idx, i);
    StaysTaken(rs, total, TakeEach(bits0, idx), Addresses(rs, idx), i);
  }

  /** Every failed allocation restores the map exactly if no two regions overlap. */
  lemma RestoresIffApart(rs: seq<Region>, total: nat)
    requires Numbered(rs, total)
    ensures (forall bits0, bits, idx :: Undone(rs, total, bits0, bits, idx) ==> bits == bits0) <==> AllApart(rs)
  {
    BijectionIffApart(rs, total);
    if AllApart(rs) {
      forall bits0, bits, idx | Undone(rs, total, bits0, bits, idx)
        ensures bits == bits0
      {
        UndoneIff(rs, total, bits0, bits, idx);
      }
    } else {
      var bits0, bits, idx := TakesAll(rs, total);
      UndoneIff(rs, total, bits0, bits, idx);
    }
  }

  /** On a fresh pool a request that is too large takes every page. */
  lemma TakesAll(rs: seq<Region>, total: nat) returns (bits0: seq<Word>, bits: seq<Word>, idx: seq<nat>)
    requires Numbered(rs, total)
    ensures Undone(rs, total, bits0, bits, idx) && forall i :: 0 <= i < total ==> !Taken(bits0, i)
  {
    bits0, idx := AllClear((total + 31) / 32), seq(total, i => i);
    AllTaken(bits0, idx, total);
    bits := FreedAll(rs, TakeEach(bits0, idx), Addresses(rs, idx));
    forall i | 0 <= i < total
      ensures i in idx
    {
      assert idx[i] == i;
    }
  }

  lemma AllTaken(bits: seq<Word>, idx: seq<nat>, total: nat)
    requires bits == AllClear((total + 31) / 32) && |idx| == total && forall i :: 0 <= i < total ==> idx[i] == i
    ensures InMap(bits, idx) && forall i :: 0 <= i < total ==> !Taken(bits, i) && Taken(TakeEach(bits, idx), i)
  {
    forall i | 0 <= i < total
      ensures !Taken(bits, i) && Taken(TakeEach(bits, idx), i)
    {
      assert idx[i] == i;
      TakeEachIs(bits, idx, i);
    }
  }

  // ---- Freeing ----

  lemma GiveStep(rs: seq<Region>, total: nat, bits: seq<Word>, pages: seq<nat>, idx: seq<nat>, j: nat)
    requires Numbered(rs, total) && AllApart(rs) && Holding(rs, total, bits, pages, idx) && j < |idx|
    ensures InMap(bits, idx[..j]) && InMap(bits, idx[..j + 1]) && ToIndex(rs, pages[j]) == Some(idx[j])
    ensures Taken(GiveEach(bits, idx[..j]), idx[j])
    ensures var b := GiveEach(bits, idx[..j]); GiveEach(bits, idx[..j + 1]) == Give(b, idx[j]) != b
  {
    IndexOfPhys(rs, total, idx[j]);
    assert idx[..j + 1][..j] == idx[..j];
    GiveEachIs(bits, idx[..j], idx[j]);
    GiveIs(GiveEach(bits, idx[..j]), idx[j], idx[j]);
  }

  /** Freeing a list of pages, as both the failing allocation and `hbuf_free` do. */
  method GiveUp(p: Pool, pages: seq<nat>, ghost idx: seq<nat>)
    requires p.Valid() && p.ready && |idx| == |pages|
    modifies p`bits, p`used
    ensures p.Valid() && p.bits == FreedAll(p.regions, old(p.bits), pages)
    ensures old(Freeable(p, pages, idx)) ==> GaveBack(old(p.bits), old(p.used), p.bits, p.used, idx)
  {
    for j := 0 to |pages|
      invariant p.Valid() && p.bits == FreedAll(p.regions, old(p.bits), pages[..j])
      invariant old(Freeable(p, pages, idx)) ==> GaveBack(old(p.bits), old(p.used), p.bits, p.used, idx[..j])
    {
      assert pages[..j + 1][..j] == pages[..j];
      if old(Freeable(p, pages, idx)) { GiveStep(p.regions, p.total, old(p.bits), pages, idx, j); }
      p.Free(pages[j]);
    }
    assert idx[..|pages|] == idx && pages[..|pages|] == pages;
  }

  /** The addresses are pages in use, and each has one number. */
  ghost predicate Freeable(p: Pool, pages: seq<nat>, idx: seq<nat>)
    reads p
  {
    AllApart(p.regions) && Holding(p.regions, p.total, p.bits, pages, idx)
  }

  /** The map after each of the addresses has been freed. */
  function FreedAll(rs: seq<Region>, bits: seq<Word>, pages: seq<nat>): (r: seq<Word>) {
    if pages == [] then bits else Freed(rs, FreedAll(rs, bits, pages[..|pages| - 1]), pages[|pages| - 1])
  }

  /** Exactly the pages `idx` have been given back. */
  ghost predicate GaveBack(bits0: seq<Word>, used0: nat, bits: seq<Word>, used: nat, idx: seq<nat>) {
    InMap(bits0, idx) && bits == GiveEach(bits0, idx) && used == used0 - |idx|
  }

  /** `hbuf_alloc`; `memory` tells whether the page table itself could be allocated. It succeeds exactly if enough pages
      are free and hands out page numbers that were free, no number twice. A failure for want of pages leaves the map as
      it was exactly if each free page has its number back from its address, so always if regions do not overlap. */
  method Alloc(p: Pool, size: u32, memory: bool) returns (ok: bool, b: Buffer, ghost idx: seq<nat>)
    requires p.Valid()
    modifies p`bits, p`used
    ensures p.Valid()
    ensures ok <==> memory && PageCount(size) > 0 && p.ready && PageCount(size) <= p.total - old(p.used)
    ensures !ok ==> (p.bits == old(p.bits) && p.used == old(p.used)) || (p.ready && memory && PageCount(size) > 0)
    ensures !ok && p.ready && memory && PageCount(size) > 0 ==>
      && Undone(p.regions, p.total, old(p.bits), p.bits, idx)
      && (p.bits == old(p.bits) <==> FreeRecovered(p.regions, p.total, old(p.bits)))
    ensures !ok && AllApart(p.regions) ==> p.bits == old(p.bits) && p.used == old(p.used)
    ensures ok ==> b.size == size && |b.pages| == PageCount(size) && Owns(p, b, idx)
                   && Grabbed(p.regions, p.total, old(p.bits), p.bits, b.pages, idx)
                   && p.used == old(p.used) + PageCount(size)
  {
    ok, b, idx := false, Buffer([], 0), [];
    if size == 0 { return; }
    var n := PageCount(size);
    if n == 0 || !memory { return; }
    var pages;
    ok, pages, idx := Grab(p, n);
    if ok { b := Buffer(pages, size); }
  }

  /** `hbuf_free`. */
  method Release(p: Pool, b: Buffer, ghost idx: seq<nat>)
    requires p.Valid() && p.ready && |idx| == |b.pages|
    modifies p`bits, p`used
    ensures p.Valid() && p.bits == FreedAll(p.regions, old(p.bits), b.pages)
    ensures old(Freeable(p, b.pages, idx)) ==> GaveBack(old(p.bits), old(p.used), p.bits, p.used, idx)
  {
    GiveUp(p, b.pages, idx);
  }

  // ---- Copying ----

  /** The bytes of a buffer. */
  ghost function Contents(frames: seq<seq<byte>>, b: Buffer): (s: seq<byte>)
    requires Backed(frames, Frames(b.pages), 4096) && b.size <= 4096 * |b.pages|
    ensures |s| == b.size
  {
    FlatLength(frames, Frames(b.pages), 4096);
    SpanIsProduct(|b.pages|, 4096);
    Flat(frames, Frames(b.pages))[..b.size]
  }

  /** Where the copy loop stands: page, offset in it, and how much fits. */
  lemma PageOf(b: Buffer, pos: nat)
    requires pos < b.size <= 4096 * |b.pages|
    ensures pos / 4096 < |b.pages| && Span(pos / 4096, 4096) + pos % 4096 == pos
  {
    SpanSplit(pos, 4096, |b.pages|);
    SpanIsProduct(|b.pages|, 4096);
  }

  lemma ReadOn(frames: seq<seq<byte>>, fs: seq<nat>, off: nat, done: nat, out: seq<byte>, i: nat, o: nat, chunk: nat)
    requires Backed(frames, fs, 4096) && i < |fs| && o + chunk <= 4096 && Span(i, 4096) + o == off + done
    requires off + done <= |Flat(frames, fs)| && out == Flat(frames, fs)[off..off + done]
    ensures off + done + chunk <= |Flat(frames, fs)|
    ensures out + frames[fs[i]][o..o + chunk] == Flat(frames, fs)[off..off + done + chunk]
  {
    FlatPiece(frames, fs, 4096, i, o, o + chunk);
  }

  /** `hbuf_read`: exactly the requests inside the buffer succeed, and they give its bytes. */
  method Read(p: Pool, b: Buffer, off: nat, len: nat) returns (ok: bool, out: seq<byte>)
    requires Backed(p.frames, Frames(b.pages), 4096) && b.size <= 4096 * |b.pages|
    ensures ok <==> b.pages != [] && off + len <= b.size
    ensures ok ==> out == Contents(p.frames, b)[off..off + len]
  {
    if b.pages == [] || off + len > b.size { return false, []; }
    ghost var fs, flat := Frames(b.pages), Flat(p.frames, Frames(b.pages));
    FlatLength(p.frames, fs, 4096);
    SpanIsProduct(|b.pages|, 4096);
    out := [];
    var done := 0;
    while done < len
      invariant 0 <= done <= len && off + done <= |flat| && out == flat[off..off + done]
    {
      var pos := off + done;
      PageOf(b, pos);
      var i, o := pos / 4096, pos % 4096;
      var chunk := Min(4096 - o, len - done);
      ReadOn(p.frames, fs, off, done, out, i, o, chunk);
      out := out + p.frames[b.pages[i] / 4096][o..o + chunk];
      done := done + chunk;
    }
    SliceSlice(flat, 0, b.size, off, off + len);
    ok := true;
  }

  /** No page occurs twice. */
  ghost predicate Distinct(fs: seq<nat>) {
    forall j, k :: 0 <= j < k < |fs| ==> fs[j] != fs[k]
  }

  /** Only pages of the buffer have changed. */
  ghost predicate Within(f0: seq<seq<byte>>, f: seq<seq<byte>>, fs: seq<nat>) {
    |f| == |f0| && forall c :: 0 <= c < |f| ==> |f[c]| == |f0[c]| && (c !in fs ==> f[c] == f0[c])
  }

  /** The last of the first `k` pages that is frame `c` and whose byte `o` has its place in `[lo, hi)`; -1 if none. */
  function LastIn(fs: seq<nat>, c: nat, o: nat, lo: nat, hi: nat, k: nat): (j: int)
    requires k <= |fs|
    ensures -1 <= j < k && (j >= 0 ==> fs[j] == c && lo <= 4096 * j + o < hi)
    decreases k
  {
    if k == 0 then -1
    else if fs[k - 1] == c && lo <= 4096 * (k - 1) + o < hi then k - 1
    else LastIn(fs, c, o, lo, hi, k - 1)
  }

  /** The byte at `o` of frame `c` after `d` has been put at `off`: the last one that belongs there, if any. */
  function PouredByte(y: byte, fs: seq<nat>, c: nat, o: nat, off: nat, d: seq<byte>): byte {
    var j := if o < 4096 then LastIn(fs, c, o, off, off + |d|, |fs|) else -1;
    if j < 0 then y else d[4096 * j + o - off]
  }

  ghost predicate PouredFrame(x0: seq<byte>, x: seq<byte>, fs: seq<nat>, c: nat, off: nat, d: seq<byte>) {
    |x| == |x0| && forall o :: 0 <= o < |x| ==> x[o] == PouredByte(x0[o], fs, c, o, off, d)
  }

  /** What memory holds after `d` has been put at `off` of a buffer, page after page, even if a page occurs twice. */
  ghost predicate Poured(f0: seq<seq<byte>>, f: seq<seq<byte>>, fs: seq<nat>, off: nat, d: seq<byte>) {
    |f| == |f0| && forall c :: 0 <= c < |f| ==> PouredFrame(f0[c], f[c], fs, c, off, d)
  }

  lemma {:induction false} LastInNone(fs: seq<nat>, c: nat, o: nat, lo: nat, hi: nat, k: nat)
    requires k <= |fs| && (hi <= lo || 4096 * (k - 1) + o < lo)
    ensures LastIn(fs, c, o, lo, hi, k) == -1
    decreases k
  {
    if k > 0 { LastInNone(fs, c, o, lo, hi, k - 1); }
  }

  lemma {:induction false} LastInSplit(fs: seq<nat>, c: nat, o: nat, lo: nat, mid: nat, hi: nat, k: nat)
    requires k <= |fs| && lo <= mid <= hi
    ensures LastIn(fs, c, o, lo, hi, k) ==
      if LastIn(fs, c, o, mid, hi, k) >= 0 then LastIn(fs, c, o, mid, hi, k) else LastIn(fs, c, o, lo, mid, k)
    decreases k
  {
    if k > 0 {
      LastInSplit(fs, c, o, lo, mid, hi, k - 1);
      if 4096 * (k - 1) + o < mid { LastInNone(fs, c, o, mid, hi, k - 1); }
    }
  }

  /** A piece inside page `i`. */
  lemma {:induction false} LastInPiece(fs: seq<nat>, c: nat, q: nat, i: nat, o: nat, m: nat, k: nat)
    requires k <= |fs| && q < 4096 && i < |fs| && o + m <= 4096
    ensures LastIn(fs, c, q, 4096 * i + o, 4096 * i + o + m, k) ==
      if i < k && fs[i] == c && o <= q < o + m then i else -1
    decreases k
  {
    if k > 0 { LastInPiece(fs, c, q, i, o, m, k - 1); }
  }

  /** At least the page itself, if its byte belongs there. */
  lemma {:induction false} LastInReaches(fs: seq<nat>, o: nat, lo: nat, hi: nat, i: nat, k: nat)
    requires i < k <= |fs| && lo <= 4096 * i + o < hi
    ensures LastIn(fs, fs[i], o, lo, hi, k) >= i
    decreases k
  {
    if i < k - 1 { LastInReaches(fs, o, lo, hi, i, k - 1); }
  }

  lemma PouredNothing(f: seq<seq<byte>>, fs: seq<nat>, off: nat)
    ensures Poured(f, f, fs, off, [])
  {
    forall c, o | 0 <= c < |f| && 0 <= o < |f[c]|
      ensures f[c][o] == PouredByte(f[c][o], fs, c, o, off, [])
    {
      LastInNone(fs, c, o, off, off, |fs|);
    }
  }

  lemma PouredPiece(f: seq<seq<byte>>, fs: seq<nat>, i: nat, o: nat, p: seq<byte>, x: seq<byte>)
    requires i < |fs| && fs[i] < |f| && |f[fs[i]]| == 4096 && o + |p| <= 4096 && x == Overwrite(f[fs[i]], o, p)
    ensures Poured(f, f[fs[i] := x], fs, 4096 * i + o, p)
  {
    var g := f[fs[i] := x];
    forall c | 0 <= c < |f|
      ensures PouredFrame(f[c], g[c], fs, c, 4096 * i + o, p)
    {
      forall q | 0 <= q < |f[c]|
        ensures g[c][q] == PouredByte(f[c][q], fs, c, q, 4096 * i + o, p)
      {
        if q < 4096 { LastInPiece(fs, c, q, i, o, |p|, |fs|); }
      }
    }
  }

  lemma PouredJoin(f0: seq<seq<byte>>, f1: seq<seq<byte>>, f2: seq<seq<byte>>, fs: seq<nat>, off: nat,
                   d: seq<byte>, p: seq<byte>)
    requires Poured(f0, f1, fs, off, d) && Poured(f1, f2, fs, off + |d|, p)
    ensures Poured(f0, f2, fs, off, d + p)
  {
    forall c | 0 <= c < |f0|
      ensures PouredFrame(f0[c], f2[c], fs, c, off, d + p)
    {
      assert PouredFrame(f0[c], f1[c], fs, c, off, d) && PouredFrame(f1[c], f2[c], fs, c, off + |d|, p);
      forall o | 0 <= o < |f0[c]|
        ensures f2[c][o] == PouredByte(f0[c][o], fs, c, o, off, d + p)
      {
        ByteJoin(f0[c][o], fs, c, o, off, d, p);
      }
    }
  }

  lemma ByteJoin(y: byte, fs: seq<nat>, c: nat, o: nat, off: nat, d: seq<byte>, p: seq<byte>)
    ensures PouredByte(y, fs, c, o, off, d + p) == PouredByte(PouredByte(y, fs, c, o, off, d), fs, c, o, off + |d|, p)
  {
    if o < 4096 { LastInSplit(fs, c, o, off, off + |d|, off + |d + p|, |fs|); }
  }

  // ---- What a buffer holds after it has been filled ----

  /** Where in the source byte `q` of the buffer comes from. */
  function SourceOf(fs: seq<nat>, n: nat, q: nat): (r: nat)
    requires q < n
    ensures r < n
  {
    var j := if q / 4096 < |fs| then LastIn(fs, fs[q / 4096], q % 4096, 0, n, |fs|) else -1;
    if j < 0 then q else 4096 * j + q % 4096
  }

  function Held(fs: seq<nat>, src: seq<byte>): (r: seq<byte>)
    ensures |r| == |src|
  {
    seq(|src|, q requires 0 <= q < |src| => src[SourceOf(fs, |src|, q)])
  }

  lemma HeldAfter(f0: seq<seq<byte>>, f: seq<seq<byte>>, b: Buffer, src: seq<byte>)
    requires Poured(f0, f, Frames(b.pages), 0, src) && Backed(f, Frames(b.pages), 4096)
    requires b.size == |src| <= 4096 * |b.pages|
    ensures Contents(f, b) == Held(Frames(b.pages), src)
  {
    var fs := Frames(b.pages);
    SpanIsProduct(|b.pages|, 4096);
    forall q | 0 <= q < |src|
      ensures Contents(f, b)[q] == Held(fs, src)[q]
    {
      ByteOfFlat(f, fs, 4096, q);
      LastInReaches(fs, q % 4096, 0, |src|, q / 4096, |fs|);
      assert PouredFrame(f0[fs[q / 4096]], f[fs[q / 4096]], fs, fs[q / 4096], 0, src);
    }
  }

  predicate Agree(src: seq<byte>, j: nat, k: nat, o: nat)
    requires j < k && 4096 * k + o < |src|
  {
    src[4096 * j + o] == src[4096 * k + o]
  }

  /** Wherever the buffer has one page twice, the source has the same bytes twice. */
  ghost predicate Consistent(fs: seq<nat>, src: seq<byte>) {
    forall j, k, o {:trigger Agree(src, j, k, o), fs[j], fs[k]} ::
      0 <= j < k < |fs| && fs[j] == fs[k] && 0 <= o < 4096 && 4096 * k + o < |src| ==> Agree(src, j, k, o)
  }

  /** Two places that share a page hold the same byte. */
  lemma SharedByte(fs: seq<nat>, src: seq<byte>, j: nat, k: nat, o: nat)
    requires j < k < |fs| && fs[j] == fs[k] && o < 4096 && 4096 * k + o < |src|
    ensures Held(fs, src)[4096 * j + o] == Held(fs, src)[4096 * k + o]
  {
    var a, b := 4096 * j + o, 4096 * k + o;
    assert a / 4096 == j && a % 4096 == o && b / 4096 == k && b % 4096 == o;
    LastInReaches(fs, o, 0, |src|, j, |fs|);
  }

  lemma TrueByte(fs: seq<nat>, src: seq<byte>, q: nat)
    requires q < |src| <= 4096 * |fs| && Consistent(fs, src)
    ensures Held(fs, src)[q] == src[q]
  {
    var i, o := q / 4096, q % 4096;
    LastInReaches(fs, o, 0, |src|, i, |fs|);
    var j := LastIn(fs, fs[i], o, 0, |src|, |fs|);
    if i < j { assert Agree(src, i, j, o); }
  }

  /** A buffer holds the source it has been filled with exactly in that case. */
  lemma HeldIff(fs: seq<nat>, src: seq<byte>)
    requires |src| <= 4096 * |fs|
    ensures Held(fs, src) == src <==> Consistent(fs, src)
  {
    if Consistent(fs, src) {
      forall q | 0 <= q < |src| ensures Held(fs, src)[q] == src[q] { TrueByte(fs, src, q); }
    } else {
      var j, k, o :| 0 <= j < k < |fs| && fs[j] == fs[k]
                     && 0 <= o < 4096 && 4096 * k + o < |src| && !Agree(src, j, k, o);
      SharedByte(fs, src, j, k, o);
    }
  }

  function Marked(n: nat, at: nat): (s: seq<byte>)
    ensures |s| == n && forall q :: 0 <= q < n ==> s[q] == if q == at then 1 else 0
  {
    seq(n, q => if q == at then 1 else 0)
  }

  /** So it can hold every source of its size exactly if its pages are different pages. */
  lemma HoldsAllIffDistinct(fs: seq<nat>, n: nat)
    requires n <= 4096 * |fs| < n + 4096
    ensures (forall src: seq<byte> | |src| == n :: Held(fs, src) == src) <==> Distinct(fs)
  {
    if Distinct(fs) {
      forall src: seq<byte> | |src| == n
        ensures Held(fs, src) == src
      {
        HeldIff(fs, src);
      }
    } else {
      var j, k :| 0 <= j < k < |fs| && fs[j] == fs[k];
      var src := Marked(n, 4096 * k);
      HeldIff(fs, src);
      assert !Agree(src, j, k, 0);
    }
  }

  /** And every buffer has different pages exactly if no two regions overlap. */
  lemma DistinctIffApart(rs: seq<Region>, total: nat)
    requires Numbered(rs, total)
    ensures (forall bits, pages, idx :: Holding(rs, total, bits, pages, idx) ==> Distinct(Frames(pages))) <==>
      AllApart(rs)
  {
    if AllApart(rs) {
      forall bits, pages, idx | Holding(rs, total, bits, pages, idx)
        ensures Distinct(Frames(pages))
      {
        DistinctFrames(rs, total, bits, pages, idx);
      }
    } else {
      var a, b :| 0 <= a < b < |rs| && !Apart(rs[a], rs[b]);
      var i := OverlapConfuses(rs, total, a, b);
      var j := ToIndex(rs, ToPhys(rs, i)).value;
      PhysOfIndex(rs, total, 0, ToPhys(rs, i));
      IndexBelow(rs, total, 0, ToPhys(rs, i));
      var bits := HoldTwo(rs, total, i, j);
      assert Frames([ToPhys(rs, i), ToPhys(rs, j)])[0] == Frames([ToPhys(rs, i), ToPhys(rs, j)])[1];
    }
  }

  lemma HoldTwo(rs: seq<Region>, total: nat, i: nat, j: nat) returns (bits: seq<Word>)
    requires i < total && j < total && i != j
    ensures Holding(rs, total, bits, [ToPhys(rs, i), ToPhys(rs, j)], [i, j])
  {
    var idx := [i, j];
    bits := TakeEach(AllClear((total + 31) / 32), idx);
    TakeEachIs(AllClear((total + 31) / 32), idx, i);
    TakeEachIs(AllClear((total + 31) / 32), idx, j);
  }

  /** `hbuf_write`: only pages of the buffer change, each byte to the last one that belongs there; if they are different
      pages the buffer holds what it held with `d` put at `off`. */
  method Write(p: Pool, b: Buffer, off: nat, d: seq<byte>) returns (ok: bool)
    requires Backed(p.frames, Frames(b.pages), 4096) && b.size <= 4096 * |b.pages|
    modifies p`frames
    ensures ok <==> b.pages != [] && off + |d| <= b.size
    ensures !ok ==> p.frames == old(p.frames)
    ensures ok ==> CopiedTo(old(p.frames), p.frames, Frames(b.pages), off, d)
  {
    if b.pages == [] || off + |d| > b.size { return false; }
    ghost var f0, fs := p.frames, Frames(b.pages);
    CopyNothing(f0, fs, off);
    SpanIsProduct(|b.pages|, 4096);
    var done := 0;
    while done < |d|
      invariant 0 <= done <= |d| && CopiedTo(f0, p.frames, fs, off, d[..done])
    {
      var chunk := CopyPiece(p, b, off, d, done, f0);
      done := done + chunk;
    }
    assert d[..done] == d;
    ok := true;
  }

  /** One pass of the loop: as much as fits the page. */
  method CopyPiece(p: Pool, b: Buffer, off: nat, d: seq<byte>, done: nat, ghost f0: seq<seq<byte>>) returns (chunk: nat)
    requires done < |d| && off + |d| <= b.size <= 4096 * |b.pages| && Backed(f0, Frames(b.pages), 4096)
    requires CopiedTo(f0, p.frames, Frames(b.pages), off, d[..done])
    modifies p`frames
    ensures 0 < chunk <= |d| - done && CopiedTo(f0, p.frames, Frames(b.pages), off, d[..done + chunk])
  {
    var pos := off + done;
    PageOf(b, pos);
    var i, o := pos / 4096, pos % 4096;
    chunk := Min(4096 - o, |d| - done);
    var piece := d[done..done + chunk];
    var page := b.pages[i] / 4096;
    ghost var f := p.frames;
    FrameSize(f0, f, Frames(b.pages), i);
    p.frames := p.frames[page := Overwrite(p.frames[page], o, piece)];
    SplitTake(d, done, done + chunk);
    CopyStep(f0, f, Frames(b.pages), off, d[..done], i, o, piece, p.frames, d[..done + chunk]);
  }

  lemma FrameSize(f0: seq<seq<byte>>, f: seq<seq<byte>>, fs: seq<nat>, i: nat)
    requires Backed(f0, fs, 4096) && Within(f0, f, fs) && i < |fs|
    ensures fs[i] < |f| && |f[fs[i]]| == 4096
  {
  }

  /** `d` has been copied to `off` of the buffer: only its pages have changed, each byte to the last one that belongs
      there; if they are different pages, they hold their old contents with `d` put in. */
  ghost predicate CopiedTo(f0: seq<seq<byte>>, f: seq<seq<byte>>, fs: seq<nat>, off: nat, d: seq<byte>) {
    Within(f0, f, fs) && Poured(f0, f, fs, off, d) && (Distinct(fs) ==> Stored(f0, f, fs, 4096, off, d))
  }

  lemma CopyNothing(f: seq<seq<byte>>, fs: seq<nat>, off: nat)
    requires Backed(f, fs, 4096) && off <= 4096 * |fs|
    ensures CopiedTo(f, f, fs, off, [])
  {
    SpanIsProduct(|fs|, 4096);
    StoredNothing(f, fs, 4096, off);
    PouredNothing(f, fs, off);
  }

  lemma CopyStep(f0: seq<seq<byte>>, f: seq<seq<byte>>, fs: seq<nat>, off: nat, d: seq<byte>,
                 i: nat, o: nat, p: seq<byte>, f': seq<seq<byte>>, d': seq<byte>)
    requires Backed(f0, fs, 4096) && CopiedTo(f0, f, fs, off, d)
    requires i < |fs| && o + |p| <= 4096 && Span(i, 4096) + o == off + |d|
    requires |f[fs[i]]| == 4096 && f' == f[fs[i] := Overwrite(f[fs[i]], o, p)] && d' == d + p
    ensures CopiedTo(f0, f', fs, off, d')
  {
    var x := Overwrite(f[fs[i]], o, p);
    SpanIsProduct(i, 4096);
    PouredPiece(f, fs, i, o, p, x);
    PouredJoin(f0, f, f[fs[i] := x], fs, off, d, p);
    if Distinct(fs) { StoredMore(f0, f, fs, 4096, off, d, i, o, p, x); }
  }

  // ---- A memory map that lists a page twice ----

  function Twice(): seq<Region> {
    [Region(HIGH_START, 1, 0), Region(HIGH_START, 1, 1)]
  }

  lemma TwiceOverlaps()
    ensures Numbered(Twice(), 2) && !AllApart(Twice()) && !Recovered(Twice(), 1)
    ensures ToPhys(Twice(), 0) == ToPhys(Twice(), 1) == HIGH_START && ToIndex(Twice(), HIGH_START) == Some(0)
  {
    var rs := Twice();
    assert rs[..1] == [rs[0]] && rs[..1][..0] == [];
    assert Numbered(rs[..1], 1);
    PhysIs(rs, 2, 0, 0);
    PhysIs(rs, 2, 1, 1);
    assert !Apart(rs[0], rs[1]);
  }

  lemma OnePageRange(total: nat)
    requires total < 2
    ensures Fresh(HIGH_START, 4096) && NewRegion(HIGH_START, 4096, total) == Region(HIGH_START, 1, total)
  {
    assert FirstPage(HIGH_START) == HIGH_START;
    assert LastPage(HIGH_START, 4096) == HIGH_START + 4096;
  }

  /** The pool the kernel sets up from it. */
  method ListedTwice(memory: seq<seq<byte>>) returns (p: Pool)
    ensures fresh(p) && p.Valid() && p.ready && p.used == 0
    ensures p.regions == Twice() && p.total == 2 && p.frames == memory
  {
    OnePageRange(0);
    OnePageRange(1);
    p := new Pool(memory);
    p.Record(HIGH_START, 4096);
    p.Record(HIGH_START, 4096);
    p.Start(true);
  }

  /** Asking it for three pages fails, and one page stays in use that nobody has. */
  method FailureLeaks(memory: seq<seq<byte>>) returns (ok: bool, used: nat)
    ensures !ok && used > 0
  {
    var p := ListedTwice(memory);
    var b;
    ghost var bits, idx := p.bits, [];
    TwiceOverlaps();
    assert Count(bits, 2) == 0 && !Taken(bits, 1);
    ok, b, idx := Alloc(p, 12288, true);
    LeftOver(p.regions, p.total, bits, p.bits, idx, 1);
    assert Count(p.bits, 2) > 0;
    used := p.used;
  }

  /** A buffer of two pages is there to be had, but its pages are one: what is read back of a source whose pages differ
      is not the source. */
  method CopyGarbled(memory: seq<seq<byte>>, src: seq<byte>) returns (ok: bool, out: seq<byte>)
    requires |memory| > 0x10_0000 && |memory[0x10_0000]| == 4096 && |src| == 8192 && src[0] != src[4096]
    ensures ok && |out| == 8192 && out[0] == out[4096] == src[4096] && out != src
  {
    var p := ListedTwice(memory);
    var b;
    ghost var idx;
    TwiceOverlaps();
    ok, b, idx := Alloc(p, 8192, true);
    OnePage(b.pages, idx);
    ghost var fs := Frames(b.pages);
    ok := Write(p, b, 0, src);
    FrameSize(memory, p.frames, fs, 0);
    FrameSize(memory, p.frames, fs, 1);
    HeldAfter(memory, p.frames, b, src);
    ok, out := Read(p, b, 0, 8192);
    assert Contents(p.frames, b)[0..8192] == Contents(p.frames, b);
    SharedByte(fs, src, 0, 1, 0);
    LastInReaches(fs, 0, 0, 8192, 1, 2);
    assert SourceOf(fs, 8192, 4096) == 4096;
  }

  lemma OnePage(pages: seq<nat>, idx: seq<nat>)
    requires Addressed(Twice(), 2, pages, idx) && |pages| == 2
    ensures Frames(pages) == [0x10_0000, 0x10_0000]
  {
    TwiceOverlaps();
  }
}
