/** The low-memory page allocator (`kernel/pmm.c`, lines 31-40, 64-74 and 200-310). */
module Pmm {
  import opened Bytes
  import opened Bitmap

  const MAX_BLOCKS: nat := 0xF_FFFF

  /** `align_up`: the next page boundary, or the highest address where there is none. */
  function AlignUp(v: u32): (r: u32)
    ensures v <= r && (v <= 0xFFFF_F000 ==> r < v + 4096 && r % 4096 == 0) && (v > 0xFFFF_F000 ==> r == 0xFFFF_FFFF)
  {
    if v > 0xFFFF_FFFF - 4095 then 0xFFFF_FFFF else (v + 4095) / 4096 * 4096
  }

  /** Blocks asked for by a request of `size` bytes. */
  function Needed(size: u32): (n: nat)
    ensures n <= MAX_BLOCKS && (size > 0 ==> n > 0)
  {
    AlignUp(size) / 4096
  }

  lemma NeededFits(size: u32, blocks: nat)
    requires blocks < MAX_BLOCKS
    ensures Needed(size) <= blocks <==> size <= blocks * 4096
  {
  }

  // ---- Free runs ----

  ghost predicate Run(bits: seq<Word>, s: nat, n: nat) {
    forall c :: s <= c < s + n ==> !Taken(bits, c)
  }

  /** Length of the free run that ends just below `b`, not counting block 0. */
  function Current(bits: seq<Word>, b: nat): (n: nat)
    ensures n == 0 || n < b
  {
    if b <= 1 || Taken(bits, b - 1) then 0 else Current(bits, b - 1) + 1
  }

  /** Length of the longest free run below `b`, not counting block 0. */
  function Largest(bits: seq<Word>, b: nat): (n: nat)
    ensures Current(bits, b) <= n && (n == 0 || n < b)
  {
    if b <= 1 then 0 else if Current(bits, b) > Largest(bits, b - 1) then Current(bits, b) else Largest(bits, b - 1)
  }

  lemma {:induction false} CurrentIsRun(bits: seq<Word>, b: nat)
    ensures Run(bits, b - Current(bits, b), Current(bits, b))
  {
    if b > 1 && !Taken(bits, b - 1) { CurrentIsRun(bits, b - 1); }
  }

  lemma {:induction false} RunInCurrent(bits: seq<Word>, b: nat, s: nat)
    requires 1 <= s <= b && Run(bits, s, b - s)
    ensures b - s <= Current(bits, b)
  {
    if s < b {
      assert !Taken(bits, b - 1);
      RunInCurrent(bits, b - 1, s);
    }
  }

  /** No run below `b` is longer than the largest. */
  lemma {:induction false} LargestBounds(bits: seq<Word>, b: nat, s: nat, n: nat)
    requires 1 <= s && s + n <= b && Run(bits, s, n)
    ensures n <= Largest(bits, b)
    decreases b
  {
    if s + n == b {
      RunInCurrent(bits, b, s);
    } else {
      LargestBounds(bits, b - 1, s, n);
    }
  }

  /** The largest run is there. */
  lemma {:induction false} LargestAttained(bits: seq<Word>, b: nat) returns (s: nat)
    requires b >= 1
    ensures 1 <= s && s + Largest(bits, b) <= b && Run(bits, s, Largest(bits, b))
    decreases b
  {
    if b == 1 {
      s := 1;
    } else if Current(bits, b) > Largest(bits, b - 1) {
      CurrentIsRun(bits, b);
      s := b - Current(bits, b);
    } else {
      s := LargestAttained(bits, b - 1);
    }
  }

  /** A place for `n` blocks above block 0 exists exactly if the largest run is long enough. */
  lemma RoomIffLargest(bits: seq<Word>, max: nat, n: nat)
    requires n > 0
    ensures n <= Largest(bits, max) <==> exists s :: 1 <= s && s + n <= max && Run(bits, s, n)
  {
    if n <= Largest(bits, max) {
      var s := LargestAttained(bits, max);
      assert Run(bits, s, n);
    } else if s :| 1 <= s && s + n <= max && Run(bits, s, n) {
      LargestBounds(bits, max, s, n);
    }
  }

  // ---- Marking ranges ----

  function TakeAll(bits: seq<Word>, s: nat, n: nat): (r: seq<Word>)
    requires n > 0 ==> (s + n - 1) / 32 < |bits|
    ensures |r| == |bits|
  {
    if n == 0 then bits else Take(TakeAll(bits, s, n - 1), s + n - 1)
  }

  function GiveAll(bits: seq<Word>, s: nat, n: nat): (r: seq<Word>)
    requires n > 0 ==> (s + n - 1) / 32 < |bits|
    ensures |r| == |bits|
  {
    if n == 0 then bits else Give(GiveAll(bits, s, n - 1), s + n - 1)
  }

  /** Marking a range marks it and nothing else. */
  lemma {:induction false} TakeAllIs(bits: seq<Word>, s: nat, n: nat, c: nat)
    requires n > 0 ==> (s + n - 1) / 32 < |bits|
    ensures Taken(TakeAll(bits, s, n), c) <==> s <= c < s + n || Taken(bits, c)
    decreases n
  {
    if n > 0 {
      TakeAllIs(bits, s, n - 1, c);
      TakeIs(TakeAll(bits, s, n - 1), s + n - 1, c);
    }
  }

  lemma {:induction false} GiveAllIs(bits: seq<Word>, s: nat, n: nat, c: nat)
    requires n > 0 ==> (s + n - 1) / 32 < |bits|
    ensures Taken(GiveAll(bits, s, n), c) <==> !(s <= c < s + n) && Taken(bits, c)
    decreases n
  {
    if n > 0 {
      GiveAllIs(bits, s, n - 1, c);
      GiveIs(GiveAll(bits, s, n - 1), s + n - 1, c);
    }
  }

  lemma TakeTaken(bits: seq<Word>, b: nat)
    requires Taken(bits, b)
    ensures Take(bits, b) == bits
  {
    assert bits[b / 32][b % 32 := true] == bits[b / 32];
  }

  lemma GiveClear(bits: seq<Word>, b: nat)
    requires b / 32 < |bits| && !Taken(bits, b)
    ensures Give(bits, b) == bits
  {
    assert bits[b / 32][b % 32 := false] == bits[b / 32];
  }

  /** Freeing a region that was allocated out of a free run restores the bitmap. */
  lemma GiveBack(bits: seq<Word>, s: nat, n: nat)
    requires (n > 0 ==> (s + n - 1) / 32 < |bits|) && Run(bits, s, n)
    ensures GiveAll(TakeAll(bits, s, n), s, n) == bits
  {
    var t := TakeAll(bits, s, n);
    forall c | 0 <= c < 32 * |bits|
      ensures Taken(GiveAll(t, s, n), c) == Taken(bits, c)
    {
      GiveAllIs(t, s, n, c);
      TakeAllIs(bits, s, n, c);
    }
    SameBits(GiveAll(t, s, n), bits);
  }

  // ---- The allocator ----

  /** Blocks `[first, last)` a region of bytes touches; empty if the end wraps below the start. */
  function FirstBlock(base: u32): nat { base / 4096 }

  function LastBlock(base: u32, size: u32, max: nat): nat {
    Min(AlignUp((base + size) % WORD) / 4096, max)
  }

  /** Block `c` has a byte of the range, or would have its first byte. */
  predicate Touched(base: nat, end: nat, c: nat) {
    base < (c + 1) * 4096 && c * 4096 < end
  }

  /** Those are the blocks named, in so far as there are so many. */
  lemma TouchedIff(base: u32, size: u32, max: nat, c: nat)
    requires max <= MAX_BLOCKS
    ensures FirstBlock(base) <= c < LastBlock(base, size, max) <==> c < max && Touched(base, (base + size) % WORD, c)
  {
    if c < max { BlockBelow((base + size) % WORD, c); }
    assert base / 4096 <= c <==> base < (c + 1) * 4096;
  }

  lemma BlockBelow(end: u32, c: nat)
    requires c < MAX_BLOCKS
    ensures c < AlignUp(end) / 4096 <==> c * 4096 < end
  {
  }

  lemma RegionTaken(bits: seq<Word>, base: u32, size: u32, max: nat)
    requires max <= MAX_BLOCKS && |bits| == (max + 31) / 32
    ensures var first := FirstBlock(base);
            var n := Span(first, LastBlock(base, size, max));
            && (n > 0 ==> (first + n - 1) / 32 < |bits|)
            && forall c: nat :: Taken(TakeAll(bits, first, n), c) <==>
                 Taken(bits, c) || (c < max && Touched(base, (base + size) % WORD, c))
  {
    var first := FirstBlock(base);
    var n := Span(first, LastBlock(base, size, max));
    forall c: nat
      ensures Taken(TakeAll(bits, first, n), c) <==>
        Taken(bits, c) || (c < max && Touched(base, (base + size) % WORD, c))
    {
      TakeAllIs(bits, first, n, c);
      TouchedIff(base, size, max, c);
    }
  }

  lemma RegionGiven(bits: seq<Word>, base: u32, size: u32, max: nat)
    requires max <= MAX_BLOCKS && |bits| == (max + 31) / 32
    ensures var first := FirstBlock(base);
            var n := Span(first, LastBlock(base, size, max));
            && (n > 0 ==> (first + n - 1) / 32 < |bits|)
            && forall c: nat :: Taken(GiveAll(bits, first, n), c) <==>
                 Taken(bits, c) && !(c < max && Touched(base, (base + size) % WORD, c))
  {
    var first := FirstBlock(base);
    var n := Span(first, LastBlock(base, size, max));
    forall c: nat
      ensures Taken(GiveAll(bits, first, n), c) <==>
        Taken(bits, c) && !(c < max && Touched(base, (base + size) % WORD, c))
    {
      GiveAllIs(bits, first, n, c);
      TouchedIff(base, size, max, c);
    }
  }

  class Allocator {
    var bits: seq<Word>
    var max: nat
    var used: nat

    /** The counter always is the number of marked blocks. */
    ghost predicate Valid()
      reads this
    {
      max <= MAX_BLOCKS && |bits| == (max + 31) / 32 && used == Count(bits, max)
    }

    /** `pmm_init`: everything starts out in use. */
    constructor (memSize: u32)
      ensures Valid() && max == memSize / 4096 && forall b :: 0 <= b < max ==> Taken(bits, b)
    {
      max := memSize / 4096;
      bits := seq((memSize / 4096 + 31) / 32, i => FULL);
      used := memSize / 4096;
      new;
      AllCounted(bits, max);
    }

    method SetBlock(b: nat)
      requires Valid()
      modifies `bits, `used
      ensures Valid() && bits == if b < max then Take(old(bits), b) else old(bits)
    {
      if b >= max { return; }
      if !bits[b / 32][b % 32] {
        CountTake(bits, b, max);
        bits, used := Take(bits, b), used + 1;
      } else {
        TakeTaken(bits, b);
      }
    }

    method UnsetBlock(b: nat)
      requires Valid()
      modifies `bits, `used
      ensures Valid() && bits == if b < max then Give(old(bits), b) else old(bits)
    {
      if b >= max { return; }
      if bits[b / 32][b % 32] {
        CountGive(bits, b, max);
        bits, used := Give(bits, b), used - 1;
      } else {
        GiveClear(bits, b);
      }
    }

    /** `pmm_alloc_block`: the lowest free block is marked and its address returned. Address 0 means failure, but is
        also the address of block 0, which is then lost. */
    method AllocBlock() returns (addr: nat)
      requires Valid()
      modifies `bits, `used
      ensures Valid()
      ensures var b := FirstClear(old(bits), 0, max);
              if b == max then addr == 0 && bits == old(bits) else addr == b * 4096 && bits == Take(old(bits), b)
    {
      var b := LowestClear(bits, max);
      if b == max { return 0; }
      SetBlock(b);
      addr := b * 4096;
    }

    method FreeBlock(addr: nat)
      requires Valid()
      modifies `bits, `used
      ensures Valid() && bits == if addr / 4096 < max then Give(old(bits), addr / 4096) else old(bits)
    {
      UnsetBlock(addr / 4096);
    }

    method MarkRun(s: nat, n: nat)
      requires Valid() && s + n <= max
      modifies `bits, `used
      ensures Valid() && bits == TakeAll(old(bits), s, n)
    {
      for i := 0 to n
        invariant Valid() && bits == TakeAll(old(bits), s, i)
      {
        SetBlock(s + i);
      }
    }

    /** `pmm_alloc_region`: succeeds exactly for sizes up to the largest free run, takes the lowest place above block 0
        that is long enough, and marks exactly the blocks asked for. */
    method AllocRegion(size: u32) returns (addr: nat)
      requires Valid()
      modifies `bits, `used
      ensures Valid()
      ensures addr != 0 <==> 0 < size <= Largest(old(bits), max) * 4096
      ensures addr == 0 ==> bits == old(bits)
      ensures addr != 0 ==> Placed(old(bits), max, addr / 4096, Needed(size))
                            && addr % 4096 == 0 && bits == TakeAll(old(bits), addr / 4096, Needed(size))
    {
      if size == 0 { return 0; }
      var need := Needed(size);
      NeededFits(size, Largest(bits, max));
      var s := FindRun(need);
      if s == 0 { return 0; }
      MarkRun(s, need);
      addr := s * 4096;
    }

    /** The search loop: the start of the lowest run of `need` free blocks, 0 if there is none. */
    method FindRun(need: nat) returns (s: nat)
      requires Valid() && need > 0
      ensures s != 0 <==> need <= Largest(bits, max)
      ensures s != 0 ==> Placed(bits, max, s, need)
    {
      var runStart, runLen, block := 0, 0, 1;
      while block < max
        invariant 1 <= block && (block <= max || block == 1) && runLen == Current(bits, block)
        invariant (runLen > 0 ==> runStart == block - runLen)
        invariant runLen < need && Largest(bits, block) < need
      {
        RunOn(bits, block);
        if !bits[block / 32][block % 32] {
          if runLen == 0 { runStart := block; }
          runLen := runLen + 1;
          if runLen >= need {
            FoundLowest(bits, max, block, need);
            return runStart;
          }
        } else {
          runLen := 0;
        }
        block := block + 1;
      }
      s := 0;
    }

    /** `pmm_largest_free_region_bytes`. */
    method LargestFreeBytes() returns (bytes: nat)
      requires Valid()
      ensures bytes == Largest(bits, max) * 4096 && bytes < WORD
    {
      var largest, current, block := 0, 0, 1;
      while block < max
        invariant 1 <= block && (block <= max || block == 1) && current == Current(bits, block)
        invariant largest == Largest(bits, block)
      {
        if !bits[block / 32][block % 32] {
          current := current + 1;
          if current > largest { largest := current; }
        } else {
          current := 0;
        }
        block := block + 1;
      }
      assert max <= 1 ==> Largest(bits, block) == Largest(bits, max);
      assert largest <= 0xF_FFFE;
      bytes := largest * 4096;
    }

    method MarkNext(block: nat, start: nat, ghost n: nat, ghost was: seq<Word>) returns (ghost m: nat)
      requires Valid() && start <= block && |was| == |bits| && n == Span(start, Min(block, max))
      requires bits == TakeAll(was, start, n)
      modifies `bits, `used
      ensures Valid() && m == Span(start, Min(block + 1, max)) && bits == TakeAll(was, start, m)
    {
      SpanOn(start, block, max);
      m := if block < max then n + 1 else n;
      SetBlock(block);
    }

    /** `pmm_reserve_region`. */
    method Reserve(base: u32, size: u32)
      requires Valid()
      modifies `bits, `used
      ensures Valid()
      ensures bits == TakeAll(old(bits), FirstBlock(base), Span(FirstBlock(base), LastBlock(base, size, max)))
      ensures forall c: nat ::
        Taken(bits, c) <==> Taken(old(bits), c) || (c < max && Touched(base, (base + size) % 0x1_0000_0000, c))
    {
      var start, end := base / 4096, AlignUp((base + size) % WORD) / 4096;
      var block := start;
      ghost var n := 0;
      while block < end
        invariant start <= block && (block <= end || block == start) && Valid()
        invariant n == Span(start, Min(block, max)) && bits == TakeAll(old(bits), start, n)
      {
        n := MarkNext(block, start, n, old(bits));
        block := block + 1;
      }
      assert n == Span(start, LastBlock(base, size, max));
      RegionTaken(old(bits), base, size, max);
    }

    method ClearNext(block: nat, start: nat, ghost n: nat, ghost was: seq<Word>) returns (ghost m: nat)
      requires Valid() && start <= block && |was| == |bits| && n == Span(start, Min(block, max))
      requires bits == GiveAll(was, start, n)
      modifies `bits, `used
      ensures Valid() && m == Span(start, Min(block + 1, max)) && bits == GiveAll(was, start, m)
    {
      SpanOn(start, block, max);
      m := if block < max then n + 1 else n;
      UnsetBlock(block);
    }

    /** `pmm_free_region`. */
    method Free(base: u32, size: u32)
      requires Valid()
      modifies `bits, `used
      ensures Valid()
      ensures bits == GiveAll(old(bits), FirstBlock(base), Span(FirstBlock(base), LastBlock(base, size, max)))
      ensures forall c: nat ::
        Taken(bits, c) <==> Taken(old(bits), c) && !(c < max && Touched(base, (base + size) % 0x1_0000_0000, c))
    {
      var start, end := base / 4096, AlignUp((base + size) % WORD) / 4096;
      var block := start;
      ghost var n := 0;
      while block < end
        invariant start <= block && (block <= end || block == start) && Valid()
        invariant n == Span(start, Min(block, max)) && bits == GiveAll(old(bits), start, n)
      {
        n := ClearNext(block, start, n, old(bits));
        block := block + 1;
      }
      assert n == Span(start, LastBlock(base, size, max));
      RegionGiven(old(bits), base, size, max);
    }
  }

  lemma RunOn(bits: seq<Word>, b: nat)
    requires b >= 1
    ensures Current(bits, b + 1) == if Taken(bits, b) then 0 else Current(bits, b) + 1
    ensures var n := Current(bits, b + 1); Largest(bits, b + 1) == if n > Largest(bits, b) then n else Largest(bits, b)
  {
  }

  function Span(first: nat, last: int): nat {
    if last <= first then 0 else last - first
  }

  lemma SpanOn(start: nat, b: nat, max: nat)
    requires start <= b
    ensures Span(start, Min(b + 1, max)) == Span(start, Min(b, max)) + if b < max then 1 else 0
    ensures b < max ==> start + Span(start, Min(b, max)) == b
  {
  }

  /** `s` is the lowest place above block 0 with `n` free blocks. */
  ghost predicate Placed(bits: seq<Word>, max: nat, s: nat, n: nat) {
    1 <= s && s + n <= max && Run(bits, s, n) && forall t :: 1 <= t < s ==> !Run(bits, t, n)
  }

  lemma FoundLowest(bits: seq<Word>, max: nat, block: nat, n: nat)
    requires 1 <= block < max && 0 < n && Largest(bits, block) < n && Current(bits, block + 1) == n
    ensures Placed(bits, max, block + 1 - n, n) && n <= Largest(bits, max)
  {
    CurrentIsRun(bits, block + 1);
    var s := block + 1 - n;
    forall t | 1 <= t < s
      ensures !Run(bits, t, n)
    {
      if Run(bits, t, n) { LargestBounds(bits, block, t, n); }
    }
    LargestBounds(bits, max, s, n);
  }

  lemma {:induction false} AllCounted(bits: seq<Word>, n: nat)
    requires |bits| == (n + 31) / 32 && forall i :: 0 <= i < |bits| ==> bits[i] == FULL
    ensures Count(bits, n) == n && forall b :: 0 <= b < n ==> Taken(bits, b)
  {
    CountedUpTo(bits, n);
  }

  lemma {:induction false} CountedUpTo(bits: seq<Word>, n: nat)
    requires (n + 31) / 32 <= |bits| && forall i :: 0 <= i < |bits| ==> bits[i] == FULL
    ensures Count(bits, n) == n
  {
    if n > 0 { CountedUpTo(bits, n - 1); }
  }
}
