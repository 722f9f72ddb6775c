/** The pool of pages above 4 GiB: its region table, the numbering of pages it defines, and allocation
    (`kernel/pmm.c`, lines 115-165 and 372-429). */
module HighPool {
  import opened Bytes
  import opened Bitmap

  const HIGH_START: nat := 0x1_0000_0000
  const MAX_REGIONS: nat := 32

  datatype Region = Region(base: nat, blocks: nat, first: nat)

  /** Regions number their pages consecutively, `total` in all, and start on page boundaries. */
  ghost predicate Numbered(rs: seq<Region>, total: nat) {
    if rs == [] then total == 0
    else
      var r := rs[|rs| - 1];
      r.first + r.blocks == total && r.base % 4096 == 0 && Numbered(rs[..|rs| - 1], r.first)
  }

  predicate AllHigh(rs: seq<Region>) {
    forall a :: 0 <= a < |rs| ==> rs[a].base >= HIGH_START
  }

  predicate Holds(r: Region, i: nat) {
    r.first <= i < r.first + r.blocks
  }

  predicate Covers(r: Region, phys: nat) {
    r.base <= phys < r.base + r.blocks * 4096 && (phys - r.base) % 4096 == 0
  }

  /** No page belongs to both regions: something that can be read off the memory map. */
  predicate Apart(r: Region, s: Region) {
    r.blocks == 0 || s.blocks == 0 || r.base + r.blocks * 4096 <= s.base || s.base + s.blocks * 4096 <= r.base
  }

  ghost predicate AllApart(rs: seq<Region>) {
    forall a, b :: 0 <= a < b < |rs| ==> Apart(rs[a], rs[b])
  }

  lemma {:induction false} NumberedOne(rs: seq<Region>, total: nat, a: nat)
    requires Numbered(rs, total) && a < |rs|
    ensures rs[a].first + rs[a].blocks <= total && rs[a].base % 4096 == 0
    decreases |rs|
  {
    if a < |rs| - 1 { NumberedOne(rs[..|rs| - 1], rs[|rs| - 1].first, a); }
  }

  lemma {:induction false} NumberedOrder(rs: seq<Region>, total: nat, a: nat, b: nat)
    requires Numbered(rs, total) && a < b < |rs|
    ensures rs[a].first + rs[a].blocks <= rs[b].first
    decreases |rs|
  {
    var rest := rs[..|rs| - 1];
    if b < |rest| { NumberedOrder(rest, rs[|rs| - 1].first, a, b); } else { NumberedOne(rest, rs[|rs| - 1].first, a); }
  }

  lemma {:induction false} NumberedFull(rs: seq<Region>, total: nat, i: nat) returns (a: nat)
    requires Numbered(rs, total) && i < total
    ensures a < |rs| && Holds(rs[a], i)
    decreases |rs|
  {
    var r := rs[|rs| - 1];
    if i < r.first { a := NumberedFull(rs[..|rs| - 1], r.first, i); } else { a := |rs| - 1; }
  }

  // ---- Page numbers and addresses ----

  /** `high_block_index_to_phys`, from region `k` on. */
  function PhysFrom(rs: seq<Region>, k: nat, i: nat): (phys: nat)
    requires k <= |rs|
    decreases |rs| - k
  {
    if k == |rs| then 0
    else if Holds(rs[k], i) then rs[k].base + (i - rs[k].first) * 4096
    else PhysFrom(rs, k + 1, i)
  }

  function ToPhys(rs: seq<Region>, i: nat): nat { PhysFrom(rs, 0, i) }

  /** `high_phys_to_block_index`, from region `k` on. */
  function IndexFrom(rs: seq<Region>, k: nat, phys: nat): (i: Option<nat>)
    requires k <= |rs|
    decreases |rs| - k
  {
    if k == |rs| then None
    else if Covers(rs[k], phys) then Some(rs[k].first + (phys - rs[k].base) / 4096)
    else IndexFrom(rs, k + 1, phys)
  }

  function ToIndex(rs: seq<Region>, phys: nat): Option<nat> { IndexFrom(rs, 0, phys) }

  lemma {:induction false} PhysFromIs(rs: seq<Region>, k: nat, b: nat, i: nat)
    requires k <= b < |rs| && Holds(rs[b], i) && forall a :: k <= a < b ==> !Holds(rs[a], i)
    ensures PhysFrom(rs, k, i) == rs[b].base + (i - rs[b].first) * 4096
    decreases b - k
  {
    if k < b { PhysFromIs(rs, k + 1, b, i); }
  }

  lemma {:induction false} IndexFromIs(rs: seq<Region>, k: nat, b: nat, phys: nat)
    requires k <= b < |rs| && Covers(rs[b], phys) && forall a :: k <= a < b ==> !Covers(rs[a], phys)
    ensures IndexFrom(rs, k, phys) == Some(rs[b].first + (phys - rs[b].base) / 4096)
    decreases b - k
  {
    if k < b { IndexFromIs(rs, k + 1, b, phys); }
  }

  /** A number no region holds has no address. */
  lemma {:induction false} PhysNone(rs: seq<Region>, k: nat, i: nat)
    requires k <= |rs| && forall a :: k <= a < |rs| ==> !Holds(rs[a], i)
    ensures PhysFrom(rs, k, i) == 0
    decreases |rs| - k
  {
    if k < |rs| { PhysNone(rs, k + 1, i); }
  }

  /** The address of a page is that of its place in its region. */
  lemma PhysIs(rs: seq<Region>, total: nat, b: nat, i: nat)
    requires Numbered(rs, total) && b < |rs| && Holds(rs[b], i)
    ensures ToPhys(rs, i) == rs[b].base + (i - rs[b].first) * 4096 && Covers(rs[b], ToPhys(rs, i))
    ensures ToPhys(rs, i) % 4096 == 0 && ToPhys(rs, i) >= rs[b].base
  {
    forall a | 0 <= a < b
      ensures !Holds(rs[a], i)
    {
      NumberedOrder(rs, total, a, b);
    }
    PhysFromIs(rs, 0, b, i);
    NumberedOne(rs, total, b);
  }

  lemma ApartCovers(r: Region, s: Region, phys: nat)
    requires Apart(r, s) && Covers(r, phys)
    ensures !Covers(s, phys)
  {
  }

  /** The number of the page's address is the page's number. */
  predicate Recovered(rs: seq<Region>, i: nat) {
    ToIndex(rs, ToPhys(rs, i)) == Some(i)
  }

  /** The other way round there is never a doubt: the address of an address' number is the address. */
  lemma {:induction false} PhysOfIndex(rs: seq<Region>, total: nat, k: nat, phys: nat)
    requires Numbered(rs, total) && k <= |rs| && IndexFrom(rs, k, phys).Some?
    ensures ToPhys(rs, IndexFrom(rs, k, phys).value) == phys
    decreases |rs| - k
  {
    if Covers(rs[k], phys) {
      PhysIs(rs, total, k, IndexFrom(rs, k, phys).value);
    } else {
      PhysOfIndex(rs, total, k + 1, phys);
    }
  }

  /** With disjoint regions, the number of a page's address is the page's number. */
  lemma IndexOfPhys(rs: seq<Region>, total: nat, i: nat)
    requires Numbered(rs, total) && AllApart(rs) && i < total
    ensures Recovered(rs, i)
  {
    var b := NumberedFull(rs, total, i);
    PhysIs(rs, total, b, i);
    forall a | 0 <= a < b
      ensures !Covers(rs[a], ToPhys(rs, i))
    {
      assert Apart(rs[a], rs[b]);
      if Covers(rs[a], ToPhys(rs, i)) { ApartCovers(rs[a], rs[b], ToPhys(rs, i)); }
    }
    IndexFromIs(rs, 0, b, ToPhys(rs, i));
  }

  /** Two regions that overlap share a page, and that page's number is not recovered. */
  lemma OverlapConfuses(rs: seq<Region>, total: nat, a: nat, b: nat) returns (i: nat)
    requires Numbered(rs, total) && a < b < |rs| && !Apart(rs[a], rs[b])
    ensures i < total && ToIndex(rs, ToPhys(rs, i)).Some? && !Recovered(rs, i)
  {
    NumberedOne(rs, total, a);
    NumberedOne(rs, total, b);
    var phys := SharedPage(rs[a], rs[b]);
    i := rs[b].first + (phys - rs[b].base) / 4096;
    PhysIs(rs, total, b, i);
    var c := FirstCover(rs, 0, a, phys);
    IndexFromIs(rs, 0, c, phys);
    NumberedOrder(rs, total, c, b);
  }

  lemma SharedPage(r: Region, s: Region) returns (phys: nat)
    requires !Apart(r, s) && r.base % 4096 == 0 && s.base % 4096 == 0
    ensures Covers(r, phys) && Covers(s, phys)
  {
    phys := if r.base <= s.base then s.base else r.base;
  }

  lemma {:induction false} FirstCover(rs: seq<Region>, k: nat, a: nat, phys: nat) returns (c: nat)
    requires k <= a < |rs| && Covers(rs[a], phys)
    ensures k <= c <= a && Covers(rs[c], phys) && forall d :: k <= d < c ==> !Covers(rs[d], phys)
    decreases a - k
  {
    if Covers(rs[k], phys) { c := k; } else { c := FirstCover(rs, k + 1, a, phys); }
  }

  /** Numbers and addresses correspond exactly if the regions do not overlap. */
  lemma BijectionIffApart(rs: seq<Region>, total: nat)
    requires Numbered(rs, total)
    ensures (forall i :: 0 <= i < total ==> Recovered(rs, i)) <==> AllApart(rs)
  {
    if AllApart(rs) {
      forall i | 0 <= i < total
        ensures Recovered(rs, i)
      {
        IndexOfPhys(rs, total, i);
      }
    } else {
      var a, b :| 0 <= a < b < |rs| && !Apart(rs[a], rs[b]);
      var i := OverlapConfuses(rs, total, a, b);
    }
  }

  // ---- The pool ----

  class Pool {
    var regions: seq<Region>
    var total: nat
    var used: nat
    var bits: seq<Word>
    var ready: bool
    /** Contents of physical memory, page by page. */
    var frames: seq<seq<byte>>

    ghost predicate Valid()
      reads this
    {
      && Numbered(regions, total) && |regions| <= MAX_REGIONS && total < WORD
      && (total < WORD - 1 ==> AllHigh(regions))
      && (ready ==> |bits| == (total + 31) / 32 && used == Count(bits, total) && total + 31 < WORD)
    }

    constructor (memory: seq<seq<byte>>)
      ensures Valid() && regions == [] && total == 0 && !ready && frames == memory
    {
      regions, total, used, bits, ready, frames := [], 0, 0, [], false, memory;
    }

    /** `pmm_record_high_memory_region` for usable memory: the whole pages of the part above 4 GiB join the pool. */
    method Record(base: u64, length: u64)
      requires Valid() && !ready
      modifies `regions, `total
      ensures Valid()
      ensures var r := NewRegion(base, length, old(total));
              if Fresh(base, length) && |old(regions)| < 32
              then regions == old(regions) + [r] && total == old(total) + r.blocks
              else regions == old(regions) && total == old(total)
    {
      var ok, first, last := WholePages(base, length);
      if ok && |regions| < MAX_REGIONS {
        var r := Region(first, Min((last - first) / 4096, WORD - 1 - total), total);
        Joined(regions, total, r);
        NewRegionHigh(base, length, total);
        regions, total := regions + [r], total + r.blocks;
      }
    }

    /** `pmm_init_high`; `memory` tells whether there was low memory for the bitmap. The number of its words is computed
        in 32 bits and comes out as 0 for the largest pools, so those are not available; nor is any pool with a region
        that does not lie above 4 GiB. */
    method Start(memory: bool)
      requires Valid() && !ready
      modifies `bits, `used, `ready
      ensures Valid() && (ready <==> 0 < total && total + 31 < WORD && memory)
      ensures ready ==> used == 0 && AllHigh(regions)
    {
      if total == 0 { return; }
      var words := (total + 31) % WORD / 32;
      WordsOf(total);
      if words == 0 || !memory { return; }
      var clear := AllClear(words);
      NoneCounted(clear, total);
      bits, used, ready := clear, 0, true;
    }

    /** `pmm_alloc_high_block`: the lowest free page, 0 if there is none. */
    method Alloc() returns (phys: nat)
      requires Valid()
      modifies `bits, `used
      ensures Valid()
      ensures if !ready || FirstClear(old(bits), 0, total) == total
              then phys == 0 && bits == old(bits) && used == old(used)
              else bits == Take(old(bits), FirstClear(old(bits), 0, total)) && used == old(used) + 1
                   && phys == ToPhys(regions, FirstClear(old(bits), 0, total)) && phys >= HIGH_START
    {
      if !ready || total == 0 { return 0; }
      var b := LowestClear(bits, total);
      if b == total { return 0; }
      CountTake(bits, b, total);
      bits, used := Take(bits, b), used + 1;
      phys := IndexToPhys(b);
      ghost var a := NumberedFull(regions, total, b);
      PhysIs(regions, total, a, b);
    }

    method IndexToPhys(i: nat) returns (phys: nat)
      requires Valid() && i < total
      ensures phys == ToPhys(regions, i)
    {
      var k := 0;
      while k < |regions|
        invariant 0 <= k <= |regions| && ToPhys(regions, i) == PhysFrom(regions, k, i)
      {
        if Holds(regions[k], i) { return regions[k].base + (i - regions[k].first) * 4096; }
        k := k + 1;
      }
      phys := 0;
    }

    method PhysToIndex(phys: nat) returns (i: Option<nat>)
      ensures i == ToIndex(regions, phys)
    {
      var k := 0;
      while k < |regions|
        invariant 0 <= k <= |regions| && ToIndex(regions, phys) == IndexFrom(regions, k, phys)
      {
        if Covers(regions[k], phys) { return Some(regions[k].first + (phys - regions[k].base) / 4096); }
        k := k + 1;
      }
      i := None;
    }

    /** `pmm_free_high_block`: clears the page the address is numbered as, if it is one and in use. */
    method Free(phys: nat)
      requires Valid()
      modifies `bits, `used
      ensures Valid() && (if ready then bits == Freed(regions, old(bits), phys) else unchanged(this))
      ensures used == if bits == old(bits) then old(used) else old(used) - 1
    {
      var b := PhysToIndex(phys);
      if !ready || b.None? { return; }
      IndexBelow(regions, total, 0, phys);
      if bits[b.value / 32][b.value % 32] {
        CountGive(bits, b.value, total);
        GiveIs(bits, b.value, b.value);
        bits, used := Give(bits, b.value), used - 1;
      }
    }
  }

  lemma {:induction false} IndexBelow(rs: seq<Region>, total: nat, k: nat, phys: nat)
    requires Numbered(rs, total) && k <= |rs| && IndexFrom(rs, k, phys).Some?
    ensures IndexFrom(rs, k, phys).value < total
    decreases |rs| - k
  {
    if Covers(rs[k], phys) { NumberedOne(rs, total, k); } else { IndexBelow(rs, total, k + 1, phys); }
  }

  /** The map after the page that `phys` is numbered as has been given back, if it is one and in use. */
  function Freed(rs: seq<Region>, bits: seq<Word>, phys: nat): (r: seq<Word>) {
    var b := ToIndex(rs, phys);
    if b.Some? && Taken(bits, b.value) then Give(bits, b.value) else bits
  }

  lemma FreedIs(rs: seq<Region>, bits: seq<Word>, phys: nat, c: nat)
    ensures |Freed(rs, bits, phys)| == |bits|
    ensures Taken(Freed(rs, bits, phys), c) <==> Taken(bits, c) && ToIndex(rs, phys) != Some(c)
  {
    var b := ToIndex(rs, phys);
    if b.Some? && Taken(bits, b.value) { GiveIs(bits, b.value, c); }
  }

  function EndOf(base: u64, length: u64): nat {
    if base + length >= WORD64 then WORD64 - 1 else base + length
  }

  /** First page boundary in the part of a range above 4 GiB, and last one in the range. */
  function FirstPage(base: u64): nat {
    (StartOf(base) + 4095) % WORD64 / 4096 * 4096
  }

  function StartOf(base: u64): nat {
    if base > HIGH_START then base else HIGH_START
  }

  function LastPage(base: u64, length: u64): nat {
    EndOf(base, length) / 4096 * 4096
  }

  /** The range holds whole pages above 4 GiB. */
  predicate Fresh(base: u64, length: u64) {
    LastPage(base, length) > FirstPage(base) && EndOf(base, length) - StartOf(base) >= 1024
  }

  /** The second condition matters only for a range in the last page below 2^64, where it is the only one. */
  lemma FreshIs(base: u64, length: u64)
    ensures base + 4095 < WORD64 ==> (Fresh(base, length) <==> LastPage(base, length) > FirstPage(base))
    ensures base + 4095 >= WORD64 ==> (Fresh(base, length) <==> length >= 1024 && base < 0xFFFF_FFFF_FFFF_FC00)
  {
    PageAfter(StartOf(base));
  }

  lemma PageAfter(x: nat)
    ensures x <= (x + 4095) / 4096 * 4096 < x + 4096
  {
  }

  /** The pages a usable range adds to the pool. */
  function NewRegion(base: u64, length: u64, total: nat): (r: Region)
    requires total < WORD
  {
    var pages := if Fresh(base, length) then (LastPage(base, length) - FirstPage(base)) / 4096 else 0;
    Region(FirstPage(base), Min(pages, WORD - 1 - total), total)
  }

  /** They lie above 4 GiB, unless rounding up the start of a range in the last page below 2^64 wraps to 0; that range
      fills the pool up to the largest number of pages. */
  lemma NewRegionHigh(base: u64, length: u64, total: nat)
    requires total < WORD && Fresh(base, length)
    ensures NewRegion(base, length, total).base % 4096 == 0
    ensures base + 4095 < WORD64 ==> NewRegion(base, length, total).base >= HIGH_START
    ensures base + 4095 >= WORD64 ==> FirstPage(base) == 0 && NewRegion(base, length, total).blocks == WORD - 1 - total
  {
    if base + 4095 >= WORD64 {
      assert (base + 4095) % WORD64 == base + 4095 - WORD64;
      LastOfAll(EndOf(base, length));
    }
  }

  lemma LastOfAll(end: nat)
    requires WORD64 - 4096 <= end < WORD64
    ensures end / 4096 * 4096 == WORD64 - 4096
  {
  }

  /** A sum that wrapped is recognised by being too small. */
  lemma WrappedEnd(base: u64, length: u64, end: nat)
    requires end == (base + length) % WORD64
    ensures EndOf(base, length) == if end < base then WORD64 - 1 else end
  {
    if base + length >= WORD64 { assert end == base + length - WORD64; }
  }

  method WholePages(base: u64, length: u64) returns (ok: bool, first: nat, last: nat)
    ensures ok == Fresh(base, length) && (ok ==> first == FirstPage(base) && last == LastPage(base, length))
  {
    ok, first, last := false, 0, 0;
    var end := (base + length) % WORD64;
    if length == 0 { return; }
    WrappedEnd(base, length, end);
    if end < base { end := WORD64 - 1; }
    if end <= HIGH_START { return; }
    var start := if base > HIGH_START then base else HIGH_START;
    if (end - start) / 1024 == 0 { return; }
    first, last := (start + 4095) % WORD64 / 4096 * 4096, end / 4096 * 4096;
    ok := last > first;
  }

  lemma Joined(rs: seq<Region>, total: nat, r: Region)
    requires Numbered(rs, total) && r.first == total && r.base % 4096 == 0
    ensures Numbered(rs + [r], total + r.blocks)
  {
    assert (rs + [r])[..|rs|] == rs;
  }

  /** The number of bitmap words comes out as 0 exactly if it wraps. */
  lemma WordsOf(total: nat)
    requires 0 < total < WORD
    ensures (total + 31) % WORD / 32 == if total + 31 < WORD then (total + 31) / 32 else 0
    ensures (total + 31) / 32 > 0
  {
    if total + 31 >= WORD { assert (total + 31) % WORD == total + 31 - WORD; }
  }

  function AllClear(words: nat): (bits: seq<Word>)
    ensures |bits| == words && forall i :: 0 <= i < words ==> bits[i] == seq(32, j => false)
  {
    seq(words, i => seq(32, j => false))
  }

  lemma {:induction false} NoneCounted(bits: seq<Word>, n: nat)
    requires forall i :: 0 <= i < |bits| ==> bits[i] == seq(32, j => false)
    ensures Count(bits, n) == 0
  {
    if n > 0 { NoneCounted(bits, n - 1); }
  }
}
