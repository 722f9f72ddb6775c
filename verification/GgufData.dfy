/** Moving a model's tensor data above 4 GiB and reading it from wherever it is
    (`kernel/llm_gguf.c`, lines 466-548). */
module GgufData {
  import opened Bytes
  import opened Bitmap
  import opened BlockData
  import opened HighPool
  import opened HighMem

  const MIN_BYTES: nat := 8 * 1024 * 1024
  const COPY_CHUNK: nat := 65536

  /** The pages of the pool exist. */
  ghost predicate PagesExist(rs: seq<Region>, total: nat, frames: seq<seq<byte>>) {
    forall i :: 0 <= i < total ==> PageExists(rs, frames, i)
  }

  predicate PageExists(rs: seq<Region>, frames: seq<seq<byte>>, i: nat) {
    ToPhys(rs, i) / 4096 < |frames| && |frames[ToPhys(rs, i) / 4096]| == 4096
  }

  lemma HeldBacked(rs: seq<Region>, total: nat, pages: seq<nat>, idx: seq<nat>, frames: seq<seq<byte>>)
    requires Addressed(rs, total, pages, idx) && PagesExist(rs, total, frames)
    ensures Backed(frames, Frames(pages), 4096)
  {
    forall k | 0 <= k < |pages|
      ensures Frames(pages)[k] < |frames| && |frames[Frames(pages)[k]]| == 4096
    {
      assert PageExists(rs, frames, idx[k]);
    }
  }

  lemma StillExist(rs: seq<Region>, total: nat, f0: seq<seq<byte>>, f: seq<seq<byte>>, fs: seq<nat>)
    requires PagesExist(rs, total, f0) && Within(f0, f, fs)
    ensures PagesExist(rs, total, f)
  {
    forall i | 0 <= i < total
      ensures PageExists(rs, f, i)
    {
      assert PageExists(rs, f0, i);
    }
  }

  /** The buffer has been filled with the data section of the file at `start`. */
  ghost predicate Copied(low: seq<byte>, frames: seq<seq<byte>>, b: Buffer, start: nat, dataOff: nat) {
    start + dataOff + b.size <= |low| && Filled(frames, b, low[start + dataOff..start + dataOff + b.size])
  }

  /** Copying `src` into a buffer in chunks. */
  method CopyIn(p: Pool, b: Buffer, src: seq<byte>)
    requires Backed(p.frames, Frames(b.pages), 4096) && b.pages != [] && b.size == |src| <= 4096 * |b.pages|
    modifies p`frames
    ensures CopiedTo(old(p.frames), p.frames, Frames(b.pages), 0, src)
  {
    ghost var f0, fs := p.frames, Frames(b.pages);
    CopyNothing(f0, fs, 0);
    var off := 0;
    while off < |src|
      invariant 0 <= off <= |src| && CopiedTo(f0, p.frames, fs, 0, src[..off])
    {
      var n := CopyChunk(p, b, src, off, f0);
      off := off + n;
    }
    assert src[..off] == src;
  }

  method CopyChunk(p: Pool, b: Buffer, src: seq<byte>, off: nat, ghost f0: seq<seq<byte>>) returns (n: nat)
    requires Backed(f0, Frames(b.pages), 4096) && b.pages != [] && off < b.size == |src| <= 4096 * |b.pages|
    requires CopiedTo(f0, p.frames, Frames(b.pages), 0, src[..off])
    modifies p`frames
    ensures 0 < n <= |src| - off && CopiedTo(f0, p.frames, Frames(b.pages), 0, src[..off + n])
  {
    n := Min(|src| - off, COPY_CHUNK);
    ghost var f := p.frames;
    StillBacked(f0, f, Frames(b.pages));
    var ok := Write(p, b, off, src[off..off + n]);
    SplitTake(src, off, off + n);
    CopyJoin(f0, f, p.frames, Frames(b.pages), src[..off], src[off..off + n], src[..off + n]);
  }

  lemma CopyJoin(f0: seq<seq<byte>>, f1: seq<seq<byte>>, f2: seq<seq<byte>>, fs: seq<nat>,
                 d: seq<byte>, p: seq<byte>, d': seq<byte>)
    requires Backed(f0, fs, 4096) && CopiedTo(f0, f1, fs, 0, d) && CopiedTo(f1, f2, fs, |d|, p) && d' == d + p
    ensures CopiedTo(f0, f2, fs, 0, d')
  {
    PouredJoin(f0, f1, f2, fs, 0, d, p);
    if Distinct(fs) { StoredJoin(f0, f1, f2, fs, 4096, 0, d, p); }
  }

  lemma StillBacked(f0: seq<seq<byte>>, f: seq<seq<byte>>, fs: seq<nat>)
    requires Backed(f0, fs, 4096) && Within(f0, f, fs)
    ensures Backed(f, fs, 4096)
  {
  }

  /** Filling a fresh buffer. */
  method Fill(p: Pool, b: Buffer, src: seq<byte>, ghost idx: seq<nat>)
    requires Owns(p, b, idx) && PagesExist(p.regions, p.total, p.frames) && b.pages != [] && b.size == |src|
    modifies p`frames
    ensures PagesExist(p.regions, p.total, p.frames) && Backed(p.frames, Frames(b.pages), 4096)
    ensures Within(old(p.frames), p.frames, Frames(b.pages))
    ensures Contents(p.frames, b) == Held(Frames(b.pages), src)
    ensures Contents(p.frames, b) == src <==> Consistent(Frames(b.pages), src)
    ensures AllApart(p.regions) ==> Contents(p.frames, b) == src
  {
    ghost var frames := p.frames;
    HeldBacked(p.regions, p.total, b.pages, idx, frames);
    if AllApart(p.regions) { DistinctFrames(p.regions, p.total, p.bits, b.pages, idx); }
    CopyIn(p, b, src);
    StillBacked(frames, p.frames, Frames(b.pages));
    StillExist(p.regions, p.total, frames, p.frames, Frames(b.pages));
    HeldAfter(frames, p.frames, b, src);
    HeldIff(Frames(b.pages), src);
  }

  /** A buffer with the bytes `src`, if there is one to be had. */
  method FreshCopy(p: Pool, src: seq<byte>, memory: bool) returns (ok: bool, b: Buffer, ghost idx: seq<nat>)
    requires p.Valid() && PagesExist(p.regions, p.total, p.frames) && 0 < |src| < WORD
    modifies p`bits, p`used, p`frames
    ensures p.Valid() && PagesExist(p.regions, p.total, p.frames)
    ensures ok <==> memory && p.ready && 0 < PageCount(|src|) <= p.total - old(p.used)
    ensures !ok ==> p.frames == old(p.frames)
    ensures !ok && !(p.ready && memory && PageCount(|src|) > 0) ==> p.bits == old(p.bits) && p.used == old(p.used)
    ensures !ok && p.ready && memory && PageCount(|src|) > 0 ==>
      RanOut(p.regions, p.total, old(p.bits), old(p.used), p.bits, p.used, idx)
    ensures ok ==> b.size == |src| && p.used == old(p.used) + PageCount(|src|)
                   && Grabbed(p.regions, p.total, old(p.bits), p.bits, b.pages, idx)
                   && Within(old(p.frames), p.frames, Frames(b.pages)) && Filled(p.frames, b, src)
  {
    ok, b, idx := Alloc(p, |src|, memory);
    if ok { Fill(p, b, src, idx); }
  }

  /** Pages ran out: what was taken has been freed by its addresses, which restores the map exactly if each free page
      has its number back from its address, so always if no regions overlap. */
  ghost predicate RanOut(rs: seq<Region>, total: nat, bits0: seq<Word>, used0: nat, bits: seq<Word>, used: nat,
                         idx: seq<nat>) {
    && Undone(rs, total, bits0, bits, idx)
    && (bits == bits0 <==> FreeRecovered(rs, total, bits0))
    && (AllApart(rs) ==> bits == bits0 && used == used0)
  }

  /** The buffer has been filled with `src`. */
  ghost predicate Filled(frames: seq<seq<byte>>, b: Buffer, src: seq<byte>) {
    && b.pages != [] && b.size == |src| <= 4096 * |b.pages| && Backed(frames, Frames(b.pages), 4096)
    && Contents(frames, b) == Held(Frames(b.pages), src)
  }

  /** The pages have these numbers, and are in use as long as no two regions overlap. */
  ghost predicate HasPages(rs: seq<Region>, total: nat, bits: seq<Word>, pages: seq<nat>, idx: seq<nat>) {
    Addressed(rs, total, pages, idx) && (AllApart(rs) ==> Holding(rs, total, bits, pages, idx))
  }

  lemma GrabbedPages(rs: seq<Region>, total: nat, bits0: seq<Word>, bits: seq<Word>, pages: seq<nat>, idx: seq<nat>)
    requires Grabbed(rs, total, bits0, bits, pages, idx)
    ensures HasPages(rs, total, bits, pages, idx)
  {
  }

  lemma CopiedIs(low: seq<byte>, frames: seq<seq<byte>>, b: Buffer, start: nat, dataOff: nat, src: seq<byte>)
    requires Filled(frames, b, src) && start + dataOff + |src| <= |low|
    requires src == low[start + dataOff..start + dataOff + |src|]
    ensures Copied(low, frames, b, start, dataOff)
  {
  }

  class DataStore {
    const pool: Pool
    var low: seq<byte>
    /** Start of the file whose data is held in `buf`, or 0. */
    var backed: nat
    var buf: Buffer
    ghost var idx: seq<nat>
    ghost var dataAt: nat

    /** The buffer has pages of the pool and has been filled with the file's data; if no regions overlap, the pages are
        the buffer's own. */
    ghost predicate Valid()
      reads this, pool
    {
      && pool.Valid() && PagesExist(pool.regions, pool.total, pool.frames)
      && (backed != 0 ==> pool.ready && Copied(low, pool.frames, buf, backed, dataAt)
                          && HasPages(pool.regions, pool.total, pool.bits, buf.pages, idx))
    }

    constructor (p: Pool, memory: seq<byte>)
      requires p.Valid() && PagesExist(p.regions, p.total, p.frames)
      ensures Valid() && pool == p && low == memory && backed == 0
    {
      pool, low, backed, buf, idx, dataAt := p, memory, 0, Buffer([], 0), [], 0;
    }

    /** Conditions under which high pages are asked for: the data is there and large enough, and there is a pool. */
    ghost predicate Attempted(size: nat, dataOff: nat, memory: bool)
      requires size < WORD
      reads pool
    {
      && dataOff < size && size - dataOff >= 8388608 && pool.total != 0 && pool.ready
      && memory && PageCount(size - dataOff) > 0
    }

    /** And the pool has room. */
    ghost predicate Movable(size: nat, dataOff: nat, memory: bool)
      requires size < WORD
      reads pool
    {
      Attempted(size, dataOff, memory) && PageCount(size - dataOff) <= pool.total - pool.used
    }

    /** `gguf_migrate_data_to_high_mem`. */
    method Migrate(start: nat, size: nat, dataOff: nat, memory: bool) returns (ok: bool, ghost ids: seq<nat>)
      requires Valid() && 0 < start && start + size <= |low| && size < WORD
      modifies this`backed, this`buf, this`idx, this`dataAt, pool`bits, pool`used, pool`frames
      ensures Valid() && ok == old(Movable(size, dataOff, memory))
      ensures ok ==> backed == start && dataAt == dataOff && buf.size == size - dataOff
      ensures ok ==> Grabbed(pool.regions, pool.total, old(pool.bits), pool.bits, buf.pages, idx)
                     && pool.used == old(pool.used) + PageCount(size - dataOff)
                     && Within(old(pool.frames), pool.frames, Frames(buf.pages))
      ensures !ok ==> unchanged(this) && pool.frames == old(pool.frames)
      ensures !ok && !old(Attempted(size, dataOff, memory)) ==> unchanged(pool)
      ensures !ok && old(Attempted(size, dataOff, memory)) ==>
        RanOut(pool.regions, pool.total, old(pool.bits), old(pool.used), pool.bits, pool.used, ids)
    {
      if dataOff >= size || size - dataOff < MIN_BYTES { return false, []; }
      if pool.total == 0 || !pool.ready { return false, []; }
      var src := low[start + dataOff..start + size];
      assert |src| == size - dataOff;
      ok, ids := Move(start, dataOff, src, memory);
    }

    /** The allocation, the copy, and the slot. */
    method Move(start: nat, dataOff: nat, src: seq<byte>, memory: bool) returns (ok: bool, ghost ids: seq<nat>)
      requires Valid() && 0 < start && pool.ready && 0 < |src| < WORD
      requires start + dataOff + |src| <= |low| && src == low[start + dataOff..start + dataOff + |src|]
      modifies this`backed, this`buf, this`idx, this`dataAt, pool`bits, pool`used, pool`frames
      ensures Valid() && ok == (memory && 0 < PageCount(|src|) <= pool.total - old(pool.used))
      ensures ok ==> backed == start && dataAt == dataOff && buf.size == |src|
      ensures ok ==> Grabbed(pool.regions, pool.total, old(pool.bits), pool.bits, buf.pages, idx)
                     && pool.used == old(pool.used) + PageCount(|src|)
                     && Within(old(pool.frames), pool.frames, Frames(buf.pages))
      ensures !ok ==> unchanged(this) && pool.frames == old(pool.frames)
      ensures !ok && !(memory && PageCount(|src|) > 0) ==> unchanged(pool)
      ensures !ok && memory && PageCount(|src|) > 0 ==>
        RanOut(pool.regions, pool.total, old(pool.bits), old(pool.used), pool.bits, pool.used, ids)
    {
      var b;
      ghost var bits := pool.bits;
      ok, b, ids := FreshCopy(pool, src, memory);
      if ok {
        GrabbedPages(pool.regions, pool.total, bits, pool.bits, b.pages, ids);
        CopiedIs(low, pool.frames, b, start, dataOff, src);
        backed, buf, idx, dataAt := start, b, ids, dataOff;
      }
    }

    /** `gguf_release_high_mem_backing`. */
    method ReleaseBacking(start: nat)
      requires Valid()
      modifies this`backed, pool`bits, pool`used
      ensures Valid() && (backed == if old(backed) == start then 0 else old(backed))
      ensures old(backed) != start || start == 0 ==> unchanged(pool)
      ensures old(backed) == start != 0 ==> pool.bits == FreedAll(pool.regions, old(pool.bits), buf.pages)
      ensures old(backed) == start != 0 && AllApart(pool.regions) ==>
        GaveBack(old(pool.bits), old(pool.used), pool.bits, pool.used, idx)
    {
      if backed != 0 && backed == start {
        Release(pool, buf, idx);
        backed := 0;
      }
    }

    /** The data section in low memory, and what the buffer holds of it. */
    ghost function Original(): seq<byte>
      requires backed + dataAt + buf.size <= |low|
      reads this
    {
      low[backed + dataAt..backed + dataAt + buf.size]
    }

    ghost function Moved(): seq<byte>
      requires backed + dataAt + buf.size <= |low|
      reads this
    {
      Held(Frames(buf.pages), Original())
    }

    /** `gguf_read_data_bytes`. From low memory it gives the bytes at that place. Of a file that has moved it gives
        exactly the requests inside what has moved, and of these what the pages hold of the file in low memory, counted
        from the offset it was moved with: the same bytes for every request exactly if pages that occur twice were given
        the same bytes twice, so always if no regions overlap. */
    method ReadData(start: nat, dataOff: nat, tensorOff: nat, len: nat) returns (ok: bool, out: seq<byte>)
      requires Valid() && (backed != start || start == 0 ==> start + dataOff + tensorOff + len <= |low|)
      ensures backed != start || start == 0 ==>
        ok && out == low[start + dataOff + tensorOff..start + dataOff + tensorOff + len]
      ensures backed == start != 0 ==> (ok <==> tensorOff + len <= buf.size)
      ensures backed == start != 0 && ok ==> out == Moved()[tensorOff..tensorOff + len]
      ensures backed == start != 0 ==> (Moved() == Original() <==> Consistent(Frames(buf.pages), Original()))
      ensures backed == start != 0 && AllApart(pool.regions) ==> Moved() == Original()
    {
      if backed != 0 && backed == start {
        HeldBacked(pool.regions, pool.total, buf.pages, idx, pool.frames);
        assert Contents(pool.frames, buf) == Moved();
        ok, out := Read(pool, buf, tensorOff, len);
        HeldIff(Frames(buf.pages), Original());
        if AllApart(pool.regions) {
          DistinctFrames(pool.regions, pool.total, pool.bits, buf.pages, idx);
        }
        return;
      }
      ok, out := true, low[start + dataOff + tensorOff..start + dataOff + tensorOff + len];
    }
  }
}
