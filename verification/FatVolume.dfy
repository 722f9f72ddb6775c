/** The on-disk layout of a FAT32 volume: where the table and the clusters sit on the device, and the
    device transfers that read and change one table entry or one cluster. `kernel/fat32.c`, lines 100-165. */
module FatVolume {
  import opened Bytes
  import opened Ata
  import opened FatTable

  /** The mount record: what `fat32_mount` derives from the boot sector. */
  datatype Geometry = Geometry(fatStart: nat, dataStart: nat, sectorsPerFat: nat, sectorsPerCluster: nat) {
    function FatOff(): nat { fatStart * SECTOR }
    function DataOff(): nat { dataStart * SECTOR }
    function Entries(): nat { sectorsPerFat * 128 }
    function ClusterSize(): nat { sectorsPerCluster * SECTOR }

    /** Byte address of cluster `c`: the data area is a row of clusters starting with number 2. */
    function Address(c: nat): (a: nat)
      requires 2 <= c
      ensures a >= DataOff()
    {
      if c == 2 then DataOff() else Address(c - 1) + ClusterSize()
    }

    /** The table lies in front of the data area, and every byte address the driver can form for a
        cluster named by the table fits in 32 bits. */
    ghost predicate Valid() {
      && sectorsPerFat >= 1 && 1 <= sectorsPerCluster <= 255
      && fatStart + sectorsPerFat <= dataStart
      && Address(Entries()) <= WORD
    }

    /** `fat32_cluster_to_lba(c) * 512`. */
    lemma {:induction false} AddressIsLba(c: nat)
      requires 2 <= c
      ensures Address(c) == (dataStart + (c - 2) * sectorsPerCluster) * SECTOR
    {
      if c > 2 { AddressIsLba(c - 1); }
    }

    lemma {:induction false} Apart(c: nat, d: nat)
      requires 2 <= c < d
      ensures Address(c) + ClusterSize() <= Address(d)
      decreases d
    {
      if c < d - 1 { Apart(c, d - 1); }
    }

    lemma Layout()
      requires Valid()
      ensures 2 <= Entries() <= EOC
    {
      AddressGrows(Entries());
    }

    lemma {:induction false} AddressGrows(c: nat)
      requires 2 <= c && sectorsPerCluster >= 1
      ensures Address(c) >= DataOff() + (c - 2) * SECTOR
    {
      if c > 2 { AddressGrows(c - 1); }
    }
  }

  /** `fat32_mount` places the table behind the reserved sectors and the data behind every table copy. */
  function Mount(reserved: nat, fatCount: nat, sectorsPerFat: nat, sectorsPerCluster: nat): (g: Geometry)
    requires fatCount >= 1
    ensures g.fatStart + g.sectorsPerFat <= g.dataStart
  {
    assert (fatCount - 1) * sectorsPerFat >= 0;
    Geometry(reserved, reserved + fatCount * sectorsPerFat, sectorsPerFat, sectorsPerCluster)
  }

  // ---- Views of a device image ----

  /** The first `n` table entries, in on-disk order. */
  function Words(image: seq<byte>, at: nat, n: nat): (w: seq<u32>)
    requires at + 4 * n <= |image|
    ensures |w| == n
  {
    if n == 0 then [] else Words(image, at, n - 1) + [Le32At(image, at + 4 * (n - 1))]
  }

  lemma {:induction false} WordAt(image: seq<byte>, at: nat, n: nat, k: nat)
    requires at + 4 * n <= |image| && k < n
    ensures Words(image, at, n)[k] == Le32At(image, at + 4 * k)
  {
    if k < n - 1 { WordAt(image, at, n - 1, k); }
  }

  function FatOf(g: Geometry, image: seq<byte>): (fat: seq<u32>)
    requires g.Valid() && g.DataOff() <= |image|
    ensures |fat| == g.Entries()
  {
    Words(image, g.FatOff(), g.Entries())
  }

  /** The part of cluster `c` that lies on the device; all of it unless the device ends too early. */
  function ClusterOf(g: Geometry, image: seq<byte>, c: nat): (bytes: seq<byte>) {
    if c < 2 then [] else Clip(image, g.Address(c), g.ClusterSize())
  }

  function ClusterRow(g: Geometry, image: seq<byte>, n: nat): (cl: seq<seq<byte>>)
    ensures |cl| == n
    ensures forall c :: 0 <= c < n ==> |cl[c]| <= g.ClusterSize()
  {
    if n == 0 then [] else ClusterRow(g, image, n - 1) + [ClusterOf(g, image, n - 1)]
  }

  lemma {:induction false} ClusterAt(g: Geometry, image: seq<byte>, n: nat, c: nat)
    requires c < n
    ensures ClusterRow(g, image, n)[c] == ClusterOf(g, image, c)
  {
    if c < n - 1 { ClusterAt(g, image, n - 1, c); }
  }

  function ClustersOf(g: Geometry, image: seq<byte>): (cl: seq<seq<byte>>)
    ensures |cl| == g.Entries()
    ensures forall c :: 0 <= c < |cl| ==> |cl[c]| <= g.ClusterSize()
  {
    ClusterRow(g, image, g.Entries())
  }

  lemma SameFat(g: Geometry, image: seq<byte>, image': seq<byte>)
    requires g.Valid() && g.DataOff() <= |image| == |image'|
    requires image'[..g.DataOff()] == image[..g.DataOff()]
    ensures FatOf(g, image') == FatOf(g, image)
  {
    forall c | 0 <= c < g.Entries() ensures FatOf(g, image')[c] == FatOf(g, image)[c] {
      var o := g.FatOff() + 4 * c;
      assert image'[o..o + 4] == image'[..g.DataOff()][o..o + 4] == image[..g.DataOff()][o..o + 4] == image[o..o + 4];
      Le32Local(image, o, image', o);
      WordAt(image, g.FatOff(), g.Entries(), c);
      WordAt(image', g.FatOff(), g.Entries(), c);
    }
  }

  lemma WordAfterPut(image: seq<byte>, o: nat, d: seq<byte>, p: nat)
    requires |d| == 4 && o + 4 <= |image| && p + 4 <= |image| && (p == o || p + 4 <= o || o + 4 <= p)
    ensures Le32At(Overwrite(image, o, d), p) == if p == o then Le32At(d, 0) else Le32At(image, p)
  {
    if p == o {
      OverwriteHere(image, o, d);
      assert d[0..4] == d;
      Le32Local(Overwrite(image, o, d), p, d, 0);
    } else {
      OverwriteElsewhere(image, o, d, p, p + 4);
      Le32Local(image, p, Overwrite(image, o, d), p);
    }
  }

  lemma WordsAfterPut(image: seq<byte>, at: nat, n: nat, c: nat, d: seq<byte>)
    requires at + 4 * n <= |image| && c < n && |d| == 4
    ensures Words(Overwrite(image, at + 4 * c, d), at, n) == Words(image, at, n)[c := Le32At(d, 0)]
  {
    var before, after := Words(image, at, n), Words(Overwrite(image, at + 4 * c, d), at, n);
    forall k | 0 <= k < n ensures after[k] == before[c := Le32At(d, 0)][k] {
      WordAt(image, at, n, k);
      WordAt(Overwrite(image, at + 4 * c, d), at, n, k);
      WordAfterPut(image, at + 4 * c, d, at + 4 * k);
    }
  }

  lemma SameClusters(g: Geometry, image: seq<byte>, at: nat, d: seq<byte>)
    requires g.Valid() && g.DataOff() <= |image| && at + |d| <= g.DataOff()
    ensures ClustersOf(g, Overwrite(image, at, d)) == ClustersOf(g, image)
  {
    var image' := Overwrite(image, at, d);
    forall c | 0 <= c < g.Entries() ensures ClustersOf(g, image')[c] == ClustersOf(g, image)[c] {
      ClusterAt(g, image, g.Entries(), c);
      ClusterAt(g, image', g.Entries(), c);
      if 2 <= c { ClipElsewhere(image, at, d, g.Address(c), g.ClusterSize()); }
    }
  }

  lemma ClustersAfterStore(g: Geometry, image: seq<byte>, c: nat, d: seq<byte>)
    requires g.Valid() && g.DataOff() <= |image| && 2 <= c < g.Entries()
    requires |d| == InDevice(|image|, g.Address(c), g.ClusterSize())
    ensures ClustersOf(g, Written(image, g.Address(c), d)) == ClustersOf(g, image)[c := d]
    ensures Written(image, g.Address(c), d)[..g.DataOff()] == image[..g.DataOff()]
  {
    var image' := Written(image, g.Address(c), d);
    forall k | 0 <= k < g.Entries() ensures ClustersOf(g, image')[k] == ClustersOf(g, image)[c := d][k] {
      ClusterAt(g, image, g.Entries(), k);
      ClusterAt(g, image', g.Entries(), k);
      if 2 <= k && k != c {
        if k < c { g.Apart(k, c); } else { g.Apart(c, k); }
        ClipElsewhere(image, g.Address(c), d, g.Address(k), g.ClusterSize());
      } else if k == c {
        ClipStored(image, g.Address(c), d, g.ClusterSize());
      }
    }
  }

  lemma ClusterPlace(g: Geometry, c: nat, lba: nat)
    requires g.Valid() && 2 <= c < g.Entries() && lba == g.dataStart + (c - 2) * g.sectorsPerCluster
    ensures lba * SECTOR == g.Address(c) && lba * SECTOR + g.ClusterSize() <= WORD
  {
    g.Apart(c, g.Entries());
    g.AddressIsLba(c);
  }

  lemma ClusterStored(g: Geometry, image: seq<byte>, c: nat, at: nat, temp: seq<byte>, n: nat, image': seq<byte>)
    requires g.Valid() && g.DataOff() <= |image| && 2 <= c < g.Entries() && |temp| == g.ClusterSize()
    requires at == g.Address(c)
    requires n == InDevice(|image|, at, |temp|) && image' == Written(image, at, temp[..n])
    ensures |ClustersOf(g, image)[c]| == n && g.DataOff() <= |image'|
    ensures FatOf(g, image') == FatOf(g, image) && ClustersOf(g, image') == ClustersOf(g, image)[c := temp[..n]]
  {
    g.Apart(c, g.Entries());
    ClusterAt(g, image, g.Entries(), c);
    ClustersAfterStore(g, image, c, temp[..n]);
    SameFat(g, image, image');
  }

  /** A table sector holds 128 consecutive entries. */
  lemma SectorWord(g: Geometry, image: seq<byte>, s: nat, e: nat)
    requires g.Valid() && g.DataOff() <= |image| && s < g.sectorsPerFat && e < 128
    ensures var x := (g.fatStart + s) * SECTOR;
            && x + SECTOR <= g.DataOff() <= WORD && x + 4 * e == g.FatOff() + 4 * (s * 128 + e)
            && Clip(image, x, SECTOR) == image[x..x + SECTOR]
            && Le32At(image[x..x + SECTOR], 4 * e) == FatOf(g, image)[s * 128 + e]
  {
    var x := (g.fatStart + s) * SECTOR;
    SliceSlice(image, x, x + SECTOR, 4 * e, 4 * e + 4);
    Le32Local(image[x..x + SECTOR], 4 * e, image, x + 4 * e);
    WordAt(image, g.FatOff(), g.Entries(), s * 128 + e);
  }

  /** Entry `c` is the word at `4c % 512` of table sector `4c / 512`. */
  lemma EntryInSector(g: Geometry, image: seq<byte>, c: nat)
    requires g.Valid() && g.DataOff() <= |image| && c < g.Entries()
    ensures var x, ent := (g.fatStart + 4 * c / SECTOR) * SECTOR, 4 * c % SECTOR;
            && x + SECTOR <= g.DataOff() <= WORD && ent + 4 <= SECTOR && x + ent == g.FatOff() + 4 * c
            && Clip(image, x, SECTOR) == image[x..x + SECTOR]
            && Le32At(image[x..x + SECTOR], ent) == FatOf(g, image)[c]
  {
    var s, e := c / 128, c % 128;
    assert 4 * c / SECTOR == s && 4 * c % SECTOR == 4 * e && s * 128 + e == c;
    SectorWord(g, image, s, e);
  }

  lemma EntryRewritten(g: Geometry, image: seq<byte>, c: nat, x: nat, ent: nat, v: nat)
    requires g.Valid() && g.DataOff() <= |image| && c < g.Entries()
    requires x + SECTOR <= g.DataOff() && ent + 4 <= SECTOR && x + ent == g.FatOff() + 4 * c
    ensures var word := Relink(FatOf(g, image)[c], v);
            var image' := Overwrite(image, x, Overwrite(image[x..x + SECTOR], ent, PutLe32(word)));
            FatOf(g, image') == Put(FatOf(g, image), c, v) && ClustersOf(g, image') == ClustersOf(g, image)
  {
    var word := Relink(FatOf(g, image)[c], v);
    WordsAfterPut(image, g.FatOff(), g.Entries(), c, PutLe32(word));
    SameClusters(g, image, x + ent, PutLe32(word));
    ReadModifyWrite(image, x, x + SECTOR, ent, PutLe32(word));
  }

  class Volume {
    const g: Geometry
    const dev: Drive

    /** A mounted volume: a device and its layout. */
    constructor (g: Geometry, dev: Drive)
      ensures this.g == g && this.dev == dev
    {
      this.g, this.dev := g, dev;
    }

    ghost predicate Valid()
      reads this, dev
    {
      g.Valid() && dev.Valid() && g.DataOff() <= |dev.image|
    }

    ghost function Fat(): seq<u32>
      requires Valid()
      reads this, dev
    {
      FatOf(g, dev.image)
    }

    ghost function Clusters(): seq<seq<byte>>
      requires Valid()
      reads this, dev
    {
      ClustersOf(g, dev.image)
    }

    /** `fat32_get_next_cluster`. */
    method GetNext(c: nat) returns (next: nat)
      requires Valid() && c < g.Entries()
      ensures next == Entry(Fat(), c)
    {
      var fatSector, ent := g.fatStart + 4 * c / SECTOR, 4 * c % SECTOR;
      EntryInSector(g, dev.image, c);
      var sector := dev.BlockRead(fatSector * SECTOR, SECTOR);
      next := Le32At(sector, ent) % LINK;
    }

    /** `fat32_set_cluster`: read-modify-write of one table sector. */
    method SetCluster(c: nat, v: nat)
      requires Valid() && c < g.Entries()
      modifies dev
      ensures Valid() && |dev.image| == |old(dev.image)|
      ensures Fat() == Put(old(Fat()), c, v)
      ensures Clusters() == old(Clusters())
    {
      var fatSector, ent := g.fatStart + 4 * c / SECTOR, 4 * c % SECTOR;
      EntryInSector(g, dev.image, c);
      var x := fatSector * SECTOR;
      var sector := dev.BlockRead(x, SECTOR);
      var word := Relink(Le32At(sector, ent), v);
      EntryRewritten(g, dev.image, c, x, ent, v);
      sector := Overwrite(sector, ent, PutLe32(word));
      var n := dev.BlockWrite(x, sector);
      assert sector[..n] == sector;
    }

    /** The first free entry of table sector `s`, if it has one; entries 0 and 1 are reserved. */
    method ScanSector(s: nat) returns (found: bool, f: nat)
      requires Valid() && s < g.sectorsPerFat
      ensures found ==> s * 128 <= f < g.Entries() && IsFree(Fat(), f) && NoneFree(Fat(), s * 128, f)
      ensures !found ==> NoneFree(Fat(), s * 128, s * 128 + 128)
    {
      ghost var fat, image := Fat(), dev.image;
      SectorWord(g, image, s, 0);
      var sector := dev.BlockRead((g.fatStart + s) * SECTOR, SECTOR);
      for e := 0 to 128
        invariant NoneFree(fat, s * 128, s * 128 + e)
      {
        SectorWord(g, image, s, e);
        if s * 128 + e >= 2 && Le32At(sector, 4 * e) % LINK == 0 {
          return true, s * 128 + e;
        }
      }
      return false, 0;
    }

    /** `fat32_find_free_cluster`: the table sector by sector. */
    method FindFree() returns (f: nat)
      requires Valid()
      ensures f == FirstFree(Fat())
    {
      g.Layout();
      ghost var fat := Fat();
      for s := 0 to g.sectorsPerFat
        invariant NoneFree(fat, 0, s * 128)
      {
        var found, c := ScanSector(s);
        if found {
          FirstFreeIs(fat, c);
          return c;
        }
      }
      FirstFreeIs(fat, g.Entries());
      f := g.Entries();
    }

    /** Reads a cluster over the front of `temp`, as far as the device goes. */
    method ReadCluster(c: nat, temp: seq<byte>) returns (out: seq<byte>)
      requires Valid() && 2 <= c < g.Entries() && |temp| == g.ClusterSize()
      ensures out == Clusters()[c] + temp[|Clusters()[c]|..]
    {
      var at := ByteAddress(c);
      var got := dev.BlockRead(at, g.ClusterSize());
      ClusterAt(g, dev.image, g.Entries(), c);
      out := got + temp[|got|..];
    }

    /** Where on the device a cluster starts. */
    method ByteAddress(c: nat) returns (at: nat)
      requires g.Valid() && 2 <= c < g.Entries()
      ensures at == g.Address(c) && at + g.ClusterSize() <= WORD
    {
      var lba := g.dataStart + (c - 2) * g.sectorsPerCluster;
      ClusterPlace(g, c, lba);
      at := lba * SECTOR;
    }

    method WriteCluster(c: nat, temp: seq<byte>)
      requires Valid() && 2 <= c < g.Entries() && |temp| == g.ClusterSize()
      modifies dev
      ensures Valid() && |dev.image| == |old(dev.image)|
      ensures Fat() == old(Fat())
      ensures Clusters() == old(Clusters())[c := temp[..|old(Clusters())[c]|]]
    {
      var at := ByteAddress(c);
      WriteAt(at, c, temp);
    }

    method WriteAt(at: nat, c: nat, temp: seq<byte>)
      requires Valid() && 2 <= c < g.Entries() && |temp| == g.ClusterSize() && at == g.Address(c) && at + |temp| <= WORD
      modifies dev
      ensures Valid() && |dev.image| == |old(dev.image)|
      ensures Fat() == old(Fat())
      ensures Clusters() == old(Clusters())[c := temp[..|old(Clusters())[c]|]]
    {
      var n := dev.BlockWrite(at, temp);
      ClusterStored(g, old(dev.image), c, at, temp, n, dev.image);
    }
  }
}
