/** Whole-volume consequences: what a write and a delete keep for every other file, when the bytes written can
    be read back, and the write/read round trip. */
module FatSystem {
  import opened Bytes
  import opened Ata
  import opened FatTable
  import opened FatVolume
  import opened BlockData
  import opened FatDelete
  import opened Fat32

  /** Every file is a chain and no two files share a cluster. */
  ghost predicate FileSystem(fat: seq<u32>, files: seq<seq<nat>>) {
    && (forall f :: 0 <= f < |files| ==> IsChain(fat, files[f]))
    && (forall f, h :: 0 <= f < |files| && 0 <= h < |files| && f != h ==> Disjoint(files[f], files[h]))
  }

  lemma DisjointSym(s: seq<nat>, t: seq<nat>)
    requires Disjoint(s, t)
    ensures Disjoint(t, s)
  {
  }

  /** A write keeps the file system: the written file is longer by formerly free clusters, all the others keep
      their clusters and their bytes. */
  lemma WriteKeepsFileSystem(fat: seq<u32>, cl: seq<seq<byte>>, files: seq<seq<nat>>, k: nat,
                             fat': seq<u32>, cl': seq<seq<byte>>, s': seq<nat>, cs: nat, off: nat, d: seq<byte>)
    requires FileSystem(fat, files) && k < |files| && |cl| == |fat|
    requires Wrote(fat, cl, files[k], fat', cl', s', cs, off, d)
    ensures FileSystem(fat', files[k := s'])
    ensures files[k] <= s' && forall i :: |files[k]| <= i < |s'| ==> IsFree(fat, s'[i])
    ensures forall h :: 0 <= h < |files| && h != k ==> Flat(cl', files[h]) == Flat(cl, files[h])
  {
    forall h | 0 <= h < |files| && h != k
      ensures IsChain(fat', files[h]) && Disjoint(s', files[h]) && Disjoint(files[h], s')
      ensures Flat(cl', files[h]) == Flat(cl, files[h])
    {
      var t := files[h];
      OtherFileKept(fat, files[k], fat', s', t);
      DisjointSym(s', t);
      forall i | 0 <= i < |t| ensures t[i] < |cl| && cl'[t[i]] == cl[t[i]] { assert t[i] in t; }
      FlatAgree(cl, cl', t);
    }
  }

  /** Deleting a file keeps the file system of the files that remain, and every cluster of the deleted file
      is free afterwards. */
  lemma DeleteKeepsFileSystem(fat: seq<u32>, files: seq<seq<nat>>, k: nat, fat': seq<u32>)
    requires FileSystem(fat, files) && k < |files| && |fat'| == |fat| <= EOC
    requires forall c :: 0 <= c < |fat| ==>
      fat'[c] == if Reaches(fat, files[k][0], c) then Relink(fat[c], 0) else fat[c]
    ensures FileSystem(fat', files[..k] + files[k + 1..])
    ensures forall c :: c in files[k] ==> IsFree(fat', c)
  {
    var rest := files[..k] + files[k + 1..];
    forall h | 0 <= h < |rest| ensures IsChain(fat', rest[h]) {
      var j := if h < k then h else h + 1;
      assert rest[h] == files[j] && Disjoint(files[k], files[j]);
      forall c | c in files[j] ensures c < |fat| && fat'[c] == fat[c] {
        ChainUsed(fat, files[j], c);
        ReachesIsMember(fat, files[k], c);
      }
      ChainKept(fat, fat', files[j]);
    }
    forall c | c in files[k] ensures IsFree(fat', c) {
      var i :| 0 <= i < |files[k]| && files[k][i] == c;
      ReachesIsMember(fat, files[k], c);
    }
  }

  // ---- When the bytes of a write are on the device ----

  /** `d` is where the device ends: the clusters below it are stored completely, cluster `d` not, and nothing of the
      clusters above it. */
  ghost predicate DeviceEnd(cl: seq<seq<byte>>, cs: nat, d: nat) {
    d <= |cl| && forall c :: 2 <= c < |cl| ==> (|cl[c]| == cs <==> c < d) && |cl[c]| <= cs && (c > d ==> |cl[c]| == 0)
  }

  /** The file that occupies `s` has the bytes `data` at `off`. */
  ghost predicate Kept(cl: seq<seq<byte>>, s: seq<nat>, off: nat, data: seq<byte>) {
    && (forall i :: 0 <= i < |s| ==> s[i] < |cl|)
    && off + |data| <= |Flat(cl, s)| && Flat(cl, s)[off..off + |data|] == data
  }

  /** How far a file of `len` clusters can reach on the device: its clusters, the free ones below the end, and the
      part of the last cluster that is still there, if that cluster is free. */
  function Room(fat: seq<u32>, cl: seq<seq<byte>>, len: nat, cs: nat, d: nat): nat
    requires d <= |fat| == |cl|
  {
    Span(len + FreeBelow(fat, d), cs) + if d < |fat| && IsFree(fat, d) then |cl[d]| else 0
  }

  /** The table names no free cluster past the end of the device. */
  predicate NoPhantoms(fat: seq<u32>, d: nat)
    requires d <= |fat|
  {
    FreeBelow(fat, d) == FreeBelow(fat, |fat|)
  }

  /** Exactly when the bytes a write reports are on the device. The table may name clusters past its end, and those look
      free; the lowest-first search reaches them only when nothing else is left. So a write is kept if and only if there
      are no such entries, or its end fits the room on the device. */
  lemma KeptIffRoomOnDevice(fat: seq<u32>, cl: seq<seq<byte>>, s0: seq<nat>,
                            fat': seq<u32>, cl': seq<seq<byte>>, s: seq<nat>,
                            cs: nat, off: nat, size: nat, d: nat, stored: seq<byte>)
    requires |cl| == |fat| && cs > 0 && Wrote(fat, cl, s0, fat', cl', s, cs, off, stored)
    requires Extent(fat', |s0|, |s|, cs, off, |stored|, size)
    requires DeviceEnd(cl, cs, d) && Backed(cl, s0, cs)
    ensures Kept(cl', s, off, stored) <==> NoPhantoms(fat, d) || off + size <= Room(fat, cl, |s0|, cs, d)
  {
    var k := ReachOf(fat, cl, s0, fat', cl', s, cs, off, d, stored);
    KeptIffLong(cl, cl', s, cs, off, stored, k);
    Supply(fat, s0, fat', s, cs, off, |stored|, size);
    ReachDecides(fat, cl, |s0|, |s|, cs, off, |stored|, size, d);
  }

  /** How far a file that grew from `len0` clusters to `len` reaches on the device. */
  function Reach(fat: seq<u32>, cl: seq<seq<byte>>, len0: nat, len: nat, cs: nat, d: nat): nat
    requires d <= |fat| == |cl|
  {
    if len <= len0 + FreeBelow(fat, d) then Span(len, cs) else Room(fat, cl, len0, cs, d)
  }

  lemma ReachDecides(fat: seq<u32>, cl: seq<seq<byte>>, len0: nat, len: nat, cs: nat, off: nat, n: nat, size: nat,
                     d: nat)
    requires d <= |fat| == |cl| && len0 <= len <= len0 + FreeBelow(fat, |fat|)
    requires (d < |fat| && IsFree(fat, d) ==> |cl[d]| < cs)
    requires n <= size && off + n <= Span(len, cs) && cs > 0
    requires n < size ==> off + n == Span(len, cs) && len0 + FreeBelow(fat, |fat|) <= len
    ensures off + n <= Reach(fat, cl, len0, len, cs, d) <==>
      NoPhantoms(fat, d) || off + size <= Room(fat, cl, len0, cs, d)
  {
    var f := FreeBelow(fat, d);
    FreeBelowMonotone(fat, d, |fat|);
    if len < len0 + f { SpanOrder(len, len0 + f, cs); }
    if len0 + f < len { SpanOrder(len0 + f, len, cs); }
    if d < |fat| && IsFree(fat, d) { FreeBelowMonotone(fat, d + 1, |fat|); }
  }

  /** A write takes no more clusters than the table has free, and all of them if it stops short. */
  lemma Supply(fat: seq<u32>, s0: seq<nat>, fat': seq<u32>, s: seq<nat>, cs: nat, off: nat, n: nat, size: nat)
    requires |fat| == |fat'| && |s0| <= |s| && TakenLowestFirst(fat, s0, fat', s) && NthFree(fat, |s0|, s)
    requires Extent(fat', |s0|, |s|, cs, off, n, size)
    ensures |s| <= |s0| + FreeBelow(fat, |fat|) && (n < size ==> |s0| + FreeBelow(fat, |fat|) <= |s|)
  {
    assert TakenUpTo(fat, s0, fat', s, |fat|);
    if n < size { FreeBelowZero(fat', |fat'|); }
    if |s| > |s0| { NthBelow(fat, s[|s| - 1], |s| - 1 - |s0|, |fat|); }
  }

  /** From cluster `k` on the file is not complete on the device, and past `k` there is nothing of it. */
  ghost predicate Cut(cl: seq<seq<byte>>, s: seq<nat>, cs: nat, k: nat) {
    k <= |s| && forall i :: 0 <= i < |s| ==>
      s[i] < |cl| && |cl[s[i]]| <= cs && (i < k ==> |cl[s[i]]| == cs) && (i > k ==> |cl[s[i]]| == 0)
  }

  lemma {:induction false} FlatCut(cl: seq<seq<byte>>, s: seq<nat>, cs: nat, k: nat)
    requires Cut(cl, s, cs, k)
    ensures Backed(cl, s[..k], cs) && Flat(cl, s) == Flat(cl, s[..k]) + if k < |s| then cl[s[k]] else []
  {
    if k == |s| {
      assert s[..k] == s;
    } else if k + 1 < |s| {
      var t := s[..|s| - 1];
      FlatCut(cl, t, cs, k);
      assert t[..k] == s[..k];
    }
  }

  lemma LengthCut(cl: seq<seq<byte>>, s: seq<nat>, cs: nat, k: nat)
    requires Cut(cl, s, cs, k)
    ensures |Flat(cl, s)| == Span(k, cs) + if k < |s| then |cl[s[k]]| else 0
  {
    FlatCut(cl, s, cs, k);
    FlatLength(cl, s[..k], cs);
  }

  /** What has been laid into such a file is there as far as the file goes. */
  lemma KeptIffLong(cl0: seq<seq<byte>>, cl: seq<seq<byte>>, s: seq<nat>, cs: nat, off: nat, d: seq<byte>, k: nat)
    requires LaidOut(cl0, cl, s, cs, off, d) && Cut(cl, s, cs, k) && cs > 0
    ensures Kept(cl, s, off, d) <==> off + |d| <= |Flat(cl, s)|
  {
    if off + |d| <= |Flat(cl, s)| {
      forall j | 0 <= j < |d|
        ensures Flat(cl, s)[off + j] == d[j]
      {
        ByteLaid(cl0, cl, s, cs, off, d, k, off + j);
      }
    }
  }

  lemma ByteLaid(cl0: seq<seq<byte>>, cl: seq<seq<byte>>, s: seq<nat>, cs: nat, off: nat, d: seq<byte>, k: nat, q: nat)
    requires LaidOut(cl0, cl, s, cs, off, d) && Cut(cl, s, cs, k) && cs > 0
    requires off <= q < off + |d| && q < |Flat(cl, s)|
    ensures Flat(cl, s)[q] == d[q - off]
  {
    var i, j := PlaceInCut(cl, s, cs, k, q);
    LaidAt(cl0[s[i]], cl[s[i]], Span(i, cs), off, d, j);
  }

  /** Byte `q` of such a file is byte `j` of its cluster `i`. */
  lemma PlaceInCut(cl: seq<seq<byte>>, s: seq<nat>, cs: nat, k: nat, q: nat) returns (i: nat, j: nat)
    requires Cut(cl, s, cs, k) && cs > 0 && q < |Flat(cl, s)|
    ensures i < |s| && s[i] < |cl| && j < |cl[s[i]]| && Span(i, cs) + j == q && Flat(cl, s)[q] == cl[s[i]][j]
  {
    FlatCut(cl, s, cs, k);
    FlatLength(cl, s[..k], cs);
    if q < Span(k, cs) {
      ByteOfFlat(cl, s[..k], cs, q);
      i, j := q / cs, q % cs;
    } else {
      i, j := k, q - Span(k, cs);
    }
  }

  lemma LaidAt(x0: seq<byte>, x: seq<byte>, at: nat, off: nat, d: seq<byte>, j: nat)
    requires Laid(x0, x, at, off, d) && j < |x| && off <= at + j < off + |d|
    ensures x[j] == d[at + j - off]
  {
  }

  /** The length of a grown file on the device, and where it leaves it. */
  lemma ReachOf(fat: seq<u32>, cl: seq<seq<byte>>, s0: seq<nat>, fat': seq<u32>, cl': seq<seq<byte>>, s: seq<nat>,
                cs: nat, off: nat, d: nat, stored: seq<byte>) returns (k: nat)
    requires |cl| == |fat| && Wrote(fat, cl, s0, fat', cl', s, cs, off, stored)
    requires DeviceEnd(cl, cs, d) && Backed(cl, s0, cs)
    ensures Cut(cl', s, cs, k) && |Flat(cl', s)| == Reach(fat, cl, |s0|, |s|, cs, d)
    ensures d < |fat| && IsFree(fat, d) ==> |cl[d]| < cs
  {
    k := CutPoint(fat, cl, s0, fat', cl', s, cs, d);
    LengthCut(cl', s, cs, k);
  }

  /** Where a grown file leaves the device. */
  lemma CutPoint(fat: seq<u32>, cl: seq<seq<byte>>, s0: seq<nat>, fat': seq<u32>, cl': seq<seq<byte>>, s: seq<nat>,
                 cs: nat, d: nat) returns (k: nat)
    requires |fat'| == |fat| && s0 <= s && NthFree(fat, |s0|, s) && DeviceEnd(cl, cs, d) && Backed(cl, s0, cs)
    requires |cl| == |fat| == |cl'| && forall c :: 0 <= c < |cl| ==> |cl'[c]| == |cl[c]|
    ensures Cut(cl', s, cs, k) && k == |s0| + Min(|s| - |s0|, FreeBelow(fat, d))
    ensures k < |s| ==> |cl'[s[k]]| == Room(fat, cl, |s0|, cs, d) - Span(k, cs) < cs
  {
    k := |s0| + Min(|s| - |s0|, FreeBelow(fat, d));
    forall i | 0 <= i < |s|
      ensures s[i] < |cl| && |cl[s[i]]| <= cs && (i < k ==> |cl[s[i]]| == cs) && (i > k ==> |cl[s[i]]| == 0)
    {
      if i < |s0| { assert s[i] == s0[i]; } else { PlaceOfNth(fat, s[i], i - |s0|, d); }
    }
    if k < |s| { PlaceOfNth(fat, s[k], k - |s0|, d); }
  }

  lemma PlaceOfNth(fat: seq<u32>, c: nat, n: nat, d: nat)
    requires IsNthFree(fat, c, n) && d <= |fat|
    ensures 2 <= c && (c < d <==> n < FreeBelow(fat, d)) && (n > FreeBelow(fat, d) ==> c > d)
    ensures n == FreeBelow(fat, d) ==> (c == d <==> d < |fat| && IsFree(fat, d))
  {
    NthBelow(fat, c, n, d);
    if d < |fat| { NthBelow(fat, c, n, d + 1); }
  }

  /** Every volume has such an end. */
  lemma DeviceEnds(g: Geometry, image: seq<byte>) returns (d: nat)
    requires g.Valid()
    ensures DeviceEnd(ClustersOf(g, image), g.ClusterSize(), d)
  {
    d := 2;
    g.Layout();
    while d < g.Entries() && g.Address(d) + g.ClusterSize() <= |image|
      invariant 2 <= d <= g.Entries()
      invariant forall c :: 2 <= c < d ==> |ClustersOf(g, image)[c]| == g.ClusterSize()
    {
      ClusterAt(g, image, g.Entries(), d);
      d := d + 1;
    }
    forall c | d <= c < g.Entries()
      ensures |ClustersOf(g, image)[c]| < g.ClusterSize() && (c > d ==> |ClustersOf(g, image)[c]| == 0)
    {
      PastEnd(g, image, d, c);
    }
  }

  lemma PastEnd(g: Geometry, image: seq<byte>, d: nat, c: nat)
    requires g.Valid() && 2 <= d <= c < g.Entries() && g.Address(d) + g.ClusterSize() > |image|
    ensures |ClustersOf(g, image)[c]| < g.ClusterSize() && (c > d ==> |ClustersOf(g, image)[c]| == 0)
  {
    ClusterAt(g, image, g.Entries(), c);
    if d < c { g.Apart(d, c); }
  }

  /** Write, then read the same range: as many bytes come back as the write reported, and they are the bytes written
      whenever those are on the device; the whole request is taken if its end fits the room there. */
  method WriteThenRead(v: Volume, first: nat, off: nat, data: seq<byte>, memory: bool, ghost s0: seq<nat>, ghost d: nat)
    returns (n: nat, back: seq<byte>)
    requires v.Valid() && ValidCluster(first) && FileAt(v, first, s0)
    requires DeviceEnd(v.Clusters(), v.g.ClusterSize(), d)
    modifies v.dev
    ensures n <= |data| && |back| == n
    ensures old(NoPhantoms(v.Fat(), d) || off + |data| <= Room(v.Fat(), v.Clusters(), |s0|, v.g.ClusterSize(), d)) ==>
      back == data[..n]
    ensures old(off + |data| <= Room(v.Fat(), v.Clusters(), |s0|, v.g.ClusterSize(), d)) ==>
      n == if off < Span(|s0|, v.g.ClusterSize()) && memory then |data| else 0
  {
    ghost var fat, cl, cs := v.Fat(), v.Clusters(), v.g.ClusterSize();
    ghost var s;
    v.g.Layout();
    n, s := Write(v, first, off, data, memory, s0);
    back := Read(v, first, off, n, memory, s);
    if off < Span(|s0|, cs) && memory {
      RoundTrip(fat, cl, s0, v.Fat(), v.Clusters(), s, cs, off, |data|, d, data[..n], back);
    }
  }

  lemma RoundTrip(fat: seq<u32>, cl: seq<seq<byte>>, s0: seq<nat>, fat': seq<u32>, cl': seq<seq<byte>>, s: seq<nat>,
                  cs: nat, off: nat, size: nat, d: nat, stored: seq<byte>, back: seq<byte>)
    requires |cl| == |fat| && cs > 0 && Wrote(fat, cl, s0, fat', cl', s, cs, off, stored)
    requires Extent(fat', |s0|, |s|, cs, off, |stored|, size)
    requires DeviceEnd(cl, cs, d) && Backed(cl, s0, cs)
    requires |back| == ReadCount(Span(|s|, cs), off, |stored|) && Shows(cl', s, cs, off, back)
    ensures |back| == |stored|
    ensures NoPhantoms(fat, d) || off + size <= Room(fat, cl, |s0|, cs, d) ==> back == stored
    ensures off + size <= Room(fat, cl, |s0|, cs, d) ==> |stored| == size
  {
    var k := ReachOf(fat, cl, s0, fat', cl', s, cs, off, d, stored);
    KeptIffLong(cl, cl', s, cs, off, stored, k);
    if Kept(cl', s, off, stored) { ShowsKept(cl', s, cs, off, stored, back, k); }
    Supply(fat, s0, fat', s, cs, off, |stored|, size);
    ReachDecides(fat, cl, |s0|, |s|, cs, off, |stored|, size, d);
    TakenAll(fat, cl, |s0|, |s|, cs, off, |stored|, size, d);
  }

  lemma TakenAll(fat: seq<u32>, cl: seq<seq<byte>>, len0: nat, len: nat, cs: nat, off: nat, n: nat, size: nat, d: nat)
    requires d <= |fat| == |cl| && len0 <= len && (d < |fat| && IsFree(fat, d) ==> |cl[d]| < cs)
    requires n <= size && (n < size ==> off + n == Span(len, cs) && len0 + FreeBelow(fat, |fat|) <= len)
    ensures off + size <= Room(fat, cl, len0, cs, d) ==> n == size
  {
    var f := FreeBelow(fat, d);
    FreeBelowMonotone(fat, d, |fat|);
    if d < |fat| && IsFree(fat, d) { FreeBelowMonotone(fat, d + 1, |fat|); }
    if len0 + f < len { SpanOrder(len0 + f, len, cs); }
  }

  /** A read over bytes that are on the device gives them back. */
  lemma ShowsKept(cl: seq<seq<byte>>, s: seq<nat>, cs: nat, off: nat, d: seq<byte>, out: seq<byte>, k: nat)
    requires Cut(cl, s, cs, k) && cs > 0 && Kept(cl, s, off, d)
    requires |out| == |d| && Shows(cl, s, cs, off, out)
    ensures out == d
  {
    forall m | 0 <= m < |d|
      ensures out[m] == d[m]
    {
      var i, j := PlaceInCut(cl, s, cs, k, off + m);
      assert ShowsBlock(cl[s[i]], Span(i, cs), off, out);
      assert Flat(cl, s)[off..off + |d|][m] == d[m];
    }
  }

  // ---- A volume on which a write is lost ----

  /** One sector of table, clusters of one sector. */
  function SmallLayout(): Geometry {
    Geometry(1, 2, 1, 1)
  }

  /** Three sectors: one in front, the table with a file in cluster 2, and that cluster. The device ends there, and the
      table goes on up to cluster 127. */
  function SmallImage(): (image: seq<byte>)
    ensures |image| == 1536
  {
    seq(1536, i => if 520 <= i < 523 then 0xFF else if i == 523 then 0x0F else 0)
  }

  lemma SmallEntry(c: nat)
    requires c < 128
    ensures SmallLayout().Valid() && SmallLayout().Entries() == 128 && SmallLayout().ClusterSize() == 512
    ensures FatOf(SmallLayout(), SmallImage())[c] == if c == 2 then EOC_MARK else 0
  {
    SmallLayout().AddressIsLba(128);
    WordAt(SmallImage(), 512, 128, c);
  }

  lemma SmallCluster(c: nat)
    requires 2 <= c < 128
    ensures |ClustersOf(SmallLayout(), SmallImage())[c]| == if c == 2 then 512 else 0
  {
    SmallLayout().AddressIsLba(c);
    ClusterAt(SmallLayout(), SmallImage(), 128, c);
  }

  lemma SmallVolume(fat: seq<u32>, cl: seq<seq<byte>>)
    requires SmallLayout().Valid()
    requires fat == FatOf(SmallLayout(), SmallImage()) && cl == ClustersOf(SmallLayout(), SmallImage())
    ensures IsChain(fat, [2]) && Backed(cl, [2], 512) && DeviceEnd(cl, 512, 3)
    ensures !NoPhantoms(fat, 3) && Room(fat, cl, 1, 512, 3) == 512
  {
    SmallEntry(2);
    SmallFree(fat);
    forall c | 2 <= c < 128
      ensures |cl[c]| == if c == 2 then 512 else 0
    {
      SmallCluster(c);
    }
    assert Span(1, 512) == 512;
  }

  lemma SmallFree(fat: seq<u32>)
    requires SmallLayout().Valid() && fat == FatOf(SmallLayout(), SmallImage())
    ensures |fat| == 128 && FreeBelow(fat, 3) == 0 < FreeBelow(fat, 128)
  {
    SmallEntry(2);
    SmallEntry(3);
    assert FreeBelow(fat, 2) == 0;
    assert FreeBelow(fat, 3) == 0;
    assert FreeBelow(fat, 4) == 1;
    FreeBelowMonotone(fat, 4, 128);
  }

  /** A write of 513 bytes to that file reports 513 and does not keep them: the file has 512 bytes on the device. */
  method LostBeyondDevice(data: seq<byte>) returns (n: nat, v: Volume, ghost s: seq<nat>)
    requires |data| == 513
    ensures n == 513 && fresh(v) && v.Valid() && IsChain(v.Fat(), s) && s[0] == 2
    ensures !Kept(v.Clusters(), s, 0, data)
  {
    var dev := new Drive(SmallImage());
    v := new Volume(SmallLayout(), dev);
    SmallEntry(2);
    ghost var fat, cl := v.Fat(), v.Clusters();
    SmallVolume(fat, cl);
    n, s := Write(v, 2, 0, data, true, [2]);
    LostBytes(fat, cl, v.Fat(), v.Clusters(), s, data, n);
  }

  lemma LostBytes(fat: seq<u32>, cl: seq<seq<byte>>, fat': seq<u32>, cl': seq<seq<byte>>, s: seq<nat>,
                  data: seq<byte>, n: nat)
    requires |data| == 513 && n <= 513 && |cl| == |fat| && Wrote(fat, cl, [2], fat', cl', s, 512, 0, data[..n])
    requires Extent(fat', 1, |s|, 512, 0, n, 513) && DeviceEnd(cl, 512, 3) && Backed(cl, [2], 512)
    requires 3 <= |fat| && !NoPhantoms(fat, 3) && Room(fat, cl, 1, 512, 3) == 512
    ensures n == 513 && !Kept(cl', s, 0, data)
  {
    Supply(fat, [2], fat', s, 512, 0, n, 513);
    FreeBelowMonotone(fat, 3, |fat|);
    assert Span(2, 512) == 1024;
    if 2 < |s| { SpanOrder(2, |s|, 512); }
    assert data[..513] == data;
    KeptIffRoomOnDevice(fat, cl, [2], fat', cl', s, 512, 0, 513, 3, data[..n]);
  }
}
