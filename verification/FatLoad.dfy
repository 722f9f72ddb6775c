/** Loading a whole file in bursts of contiguous clusters: the loop of `fat32_load_file`,
    `kernel/fat32.c`, lines 902-963. */
module FatLoad {
  import opened Bytes
  import opened Ata
  import opened FatTable
  import opened FatVolume
  import opened BlockData
  import opened Fat32

  const MAX_BURST: nat := 64

  /** Clusters `i .. i + n` of the file follow one another on the disk. */
  ghost predicate Contiguous(s: seq<nat>, i: nat, n: nat) {
    i + n <= |s| && forall k :: i <= k < i + n ==> s[k] == s[i] + (k - i)
  }

  lemma ContiguousSnoc(s: seq<nat>, i: nat, n: nat)
    requires Contiguous(s, i, n) && n > 0 && i + n < |s| && s[i + n] == s[i + n - 1] + 1
    ensures Contiguous(s, i, n + 1)
  {
  }

  /** The search for the end of a burst. */
  method FindBurst(v: Volume, start: nat, ghost s: seq<nat>, ghost i: nat) returns (count: nat, next: nat)
    requires v.Valid() && IsChain(v.Fat(), s) && i < |s| && start == s[i]
    ensures 1 <= count <= 64 && Contiguous(s, i, count)
    ensures ValidCluster(next) <==> i + count < |s|
    ensures i + count < |s| ==> next == s[i + count]
  {
    v.g.Layout();
    ghost var fat := v.Fat();
    var cluster := start;
    count := 1;
    NextOnChain(fat, s, i);
    next := v.GetNext(cluster);
    while ValidCluster(next) && next == cluster + 1 && count < MAX_BURST
      invariant 1 <= count <= MAX_BURST && Contiguous(s, i, count) && cluster == s[i + count - 1]
      invariant ValidCluster(next) <==> i + count < |s|
      invariant i + count < |s| ==> next == s[i + count]
      decreases MAX_BURST - count
    {
      ContiguousSnoc(s, i, count);
      NextOnChain(fat, s, i + count);
      cluster := next;
      next := v.GetNext(cluster);
      count := count + 1;
    }
  }

  lemma {:induction false} AddressSpan(g: Geometry, c: nat, n: nat)
    requires 2 <= c
    ensures g.Address(c + n) == g.Address(c) + Span(n, g.ClusterSize())
  {
    if n > 0 { AddressSpan(g, c, n - 1); }
  }

  lemma RunFits(g: Geometry, c: nat, n: nat)
    requires g.Valid() && 2 <= c && 1 <= n && c + n <= g.Entries()
    ensures g.Address(c) + Span(n, g.ClusterSize()) <= WORD
  {
    AddressSpan(g, c, n);
    if c + n < g.Entries() { g.Apart(c + n, g.Entries()); }
  }

  /** A file that fits its table is short enough for 32-bit byte counts. */
  lemma FileFitsWord(g: Geometry, fat: seq<u32>, s: seq<nat>)
    requires g.Valid() && |fat| == g.Entries() && IsChain(fat, s)
    ensures Span(|s|, g.ClusterSize()) < WORD
  {
    g.Layout();
    ChainBounded(fat, s);
    AddressSpan(g, 2, g.Entries() - 2);
    if |s| < g.Entries() - 2 { SpanOrder(|s|, g.Entries() - 2, g.ClusterSize()); }
  }

  /** Where the load loop stands: the file up to cluster `i`, or all that was asked for. */
  ghost predicate LoadInv(cl: seq<seq<byte>>, s: seq<nat>, cs: nat, size: nat, out: seq<byte>, cluster: nat, i: nat) {
    && (forall j :: 0 <= j < |s| ==> s[j] < |cl|)
    && |out| <= size && Shows(cl, s, cs, 0, out)
    && i <= |s| && (ValidCluster(cluster) <==> i < |s|) && (i < |s| ==> cluster == s[i])
    && |out| <= Span(i, cs) && (|out| < size ==> |out| == Span(i, cs))
  }

  /** Clusters `i .. i + n` of the file are the stretch of the device from `a` on. */
  ghost predicate IsStretch(cl: seq<seq<byte>>, s: seq<nat>, cs: nat, i: nat, n: nat, image: seq<byte>, a: nat) {
    && i + n <= |s| && (forall j :: 0 <= j < |s| ==> s[j] < |cl|)
    && forall k :: i <= k < i + n ==> IsPiece(cl[s[k]], image, a + Span(k - i, cs))
  }

  /** `x` is on the device from `at` on. */
  ghost predicate IsPiece(x: seq<byte>, image: seq<byte>, at: nat) {
    forall j :: 0 <= j < |x| ==> at + j < |image| && image[at + j] == x[j]
  }

  /** A run of clusters is one stretch of the device. */
  lemma RunIsStretch(g: Geometry, image: seq<byte>, cl: seq<seq<byte>>, s: seq<nat>, i: nat, n: nat, a: nat)
    requires g.Valid() && cl == ClustersOf(g, image) && Contiguous(s, i, n) && n > 0
    requires (forall j :: 0 <= j < |s| ==> 2 <= s[j] < |cl|) && a == g.Address(s[i])
    ensures IsStretch(cl, s, g.ClusterSize(), i, n, image, a)
  {
    forall k | i <= k < i + n
      ensures IsPiece(cl[s[k]], image, a + Span(k - i, g.ClusterSize()))
    {
      assert s[k] == s[i] + (k - i);
      RunCluster(g, image, cl, s[i], k - i, s[k], a);
    }
  }

  lemma RunCluster(g: Geometry, image: seq<byte>, cl: seq<seq<byte>>, first: nat, k: nat, c: nat, a: nat)
    requires g.Valid() && cl == ClustersOf(g, image) && 2 <= first && c == first + k < |cl| && a == g.Address(first)
    ensures IsPiece(cl[c], image, a + Span(k, g.ClusterSize()))
  {
    AddressSpan(g, first, k);
    ClusterAt(g, image, g.Entries(), c);
  }

  /** Reading the stretch shows every cluster of the run. */
  lemma LoadStep(cl: seq<seq<byte>>, s: seq<nat>, cs: nat, image: seq<byte>, a: nat, out: seq<byte>, i: nat, n: nat,
                 piece: seq<byte>)
    requires IsStretch(cl, s, cs, i, n, image, a) && forall c :: 0 <= c < |cl| ==> |cl[c]| <= cs
    requires Shows(cl, s, cs, 0, out) && |out| == Span(i, cs)
    requires |piece| <= Span(n, cs) && Clip(image, a, |piece|) <= piece
    ensures Shows(cl, s, cs, 0, out + piece)
  {
    forall b | 0 <= b < |s|
      ensures ShowsBlock(cl[s[b]], Span(b, cs), 0, out + piece)
    {
      assert b < i ==> ShowsBlock(cl[s[b]], Span(b, cs), 0, out);
      LoadBlock(cl[s[b]], cs, image, a, out, i, n, b, piece);
    }
  }

  lemma LoadBlock(x: seq<byte>, cs: nat, image: seq<byte>, a: nat, out: seq<byte>, i: nat, n: nat, b: nat,
                  piece: seq<byte>)
    requires |out| == Span(i, cs) && |piece| <= Span(n, cs) && Clip(image, a, |piece|) <= piece && |x| <= cs
    requires b < i ==> ShowsBlock(x, Span(b, cs), 0, out)
    requires i <= b < i + n ==> IsPiece(x, image, a + Span(b - i, cs))
    ensures ShowsBlock(x, Span(b, cs), 0, out + piece)
  {
    if b < i {
      SpanOrder(b, i, cs);
      BlockBefore(x, Span(b, cs), out, piece);
    } else if b < i + n {
      SpanSum(i, b - i, cs);
      BlockShown(x, image, a, Span(b - i, cs), out, piece);
    } else {
      SpanSum(i, n, cs);
      if i + n < b { SpanOrder(i + n, b, cs); }
      BlockAfter(x, Span(b, cs), out + piece);
    }
  }

  lemma BlockBefore(x: seq<byte>, at: nat, out: seq<byte>, piece: seq<byte>)
    requires ShowsBlock(x, at, 0, out) && at + |x| <= |out|
    ensures ShowsBlock(x, at, 0, out + piece)
  {
  }

  lemma BlockAfter(x: seq<byte>, at: nat, out: seq<byte>)
    requires |out| <= at
    ensures ShowsBlock(x, at, 0, out)
  {
  }

  lemma BlockShown(x: seq<byte>, image: seq<byte>, a: nat, o: nat, out: seq<byte>, piece: seq<byte>)
    requires IsPiece(x, image, a + o) && Clip(image, a, |piece|) <= piece
    ensures ShowsBlock(x, |out| + o, 0, out + piece)
  {
    forall j | 0 <= j < |x| && o + j < |piece|
      ensures (out + piece)[|out| + o + j] == x[j]
    {
      assert image[a + o + j] == x[j];
      assert piece[o + j] == Clip(image, a, |piece|)[o + j];
    }
  }

  lemma RunInWord(g: Geometry, s: seq<nat>, i: nat, n: nat)
    requires g.Valid() && Contiguous(s, i, n) && n > 0 && forall j :: 0 <= j < |s| ==> 2 <= s[j] < g.Entries()
    ensures g.Address(s[i]) + Span(n, g.ClusterSize()) <= WORD
  {
    assert s[i + n - 1] == s[i] + (n - 1);
    RunFits(g, s[i], n);
  }

  /** The end of a burst stays within 32 bits, so the cut to the file size compares true byte counts. */
  lemma BurstInWord(g: Geometry, fat: seq<u32>, s: seq<nat>, i: nat, n: nat)
    requires g.Valid() && |fat| == g.Entries() && IsChain(fat, s) && i + n <= |s|
    ensures Span(i + n, g.ClusterSize()) == Span(i, g.ClusterSize()) + Span(n, g.ClusterSize()) < WORD
  {
    FileFitsWord(g, fat, s);
    SpanSum(i, n, g.ClusterSize());
    if i + n < |s| { SpanOrder(i + n, |s|, g.ClusterSize()); }
  }

  lemma {:induction false} SpanSum(m: nat, n: nat, cs: nat)
    ensures Span(m + n, cs) == Span(m, cs) + Span(n, cs)
  {
    if n > 0 { SpanSum(m, n - 1, cs); }
  }

  /** One burst: find it, cut it to what is still wanted, read it straight into the caller's buffer. What the device
      does not have stays as it was in the buffer. */
  method LoadBurst(v: Volume, size: nat, buffer: seq<byte>, out: seq<byte>, cluster: nat, ghost s: seq<nat>,
                   ghost i: nat)
    returns (out': seq<byte>, next: nat, ghost i': nat)
    requires v.Valid() && IsChain(v.Fat(), s) && size < WORD && size <= |buffer|
    requires LoadInv(v.Clusters(), s, v.g.ClusterSize(), size, out, cluster, i)
    requires ValidCluster(cluster) && |out| < size
    ensures |out| < |out'| && LoadInv(v.Clusters(), s, v.g.ClusterSize(), size, out', next, i')
  {
    var count;
    count, next := FindBurst(v, cluster, s, i);
    BurstInWord(v.g, v.Fat(), s, i, count);
    var bytes := BurstBytes(|out|, count, v.g.ClusterSize(), size);
    RunInWord(v.g, s, i, count);
    var piece := ReadInto(v, cluster, bytes, buffer[|out|..|out| + bytes]);
    out', i' := out + piece, i + count;
    ghost var cl, a := v.Clusters(), v.g.Address(cluster);
    RunIsStretch(v.g, v.dev.image, cl, s, i, count, a);
    LoadInvStep(cl, s, v.g.ClusterSize(), v.dev.image, a, size, out, i, count, piece, next, out', i');
  }

  lemma LoadInvStep(cl: seq<seq<byte>>, s: seq<nat>, cs: nat, image: seq<byte>, a: nat, size: nat,
                    out: seq<byte>, i: nat, n: nat, piece: seq<byte>, next: nat, out': seq<byte>, i': nat)
    requires IsStretch(cl, s, cs, i, n, image, a) && forall c :: 0 <= c < |cl| ==> |cl[c]| <= cs
    requires Shows(cl, s, cs, 0, out) && |out| == Span(i, cs) < size && Span(i + n, cs) == Span(i, cs) + Span(n, cs)
    requires |piece| == Min(Span(n, cs), size - |out|) && Clip(image, a, |piece|) <= piece
    requires (ValidCluster(next) <==> i + n < |s|) && (i + n < |s| ==> next == s[i + n])
    requires out' == out + piece && i' == i + n
    ensures LoadInv(cl, s, cs, size, out', next, i')
  {
    LoadStep(cl, s, cs, image, a, out, i, n, piece);
  }

  /** Reads `bytes` bytes from the start of a cluster on over `piece`, as far as the device goes. */
  method ReadInto(v: Volume, cluster: nat, bytes: nat, piece: seq<byte>) returns (piece': seq<byte>)
    requires v.Valid() && 2 <= cluster < v.g.Entries() && |piece| == bytes && v.g.Address(cluster) + bytes <= WORD
    ensures |piece'| == bytes && Clip(v.dev.image, v.g.Address(cluster), bytes) <= piece'
  {
    v.g.AddressIsLba(cluster);
    var lba := v.g.dataStart + (cluster - 2) * v.g.sectorsPerCluster;
    var got := v.dev.BlockRead(lba * SECTOR, bytes);
    piece' := got + piece[|got|..];
  }

  /** How much of a burst is read: all of it, or what is left of the file. */
  method BurstBytes(total: nat, count: nat, cs: nat, size: nat) returns (bytes: nat)
    requires total < size && 1 <= count && 1 <= cs && total + Span(count, cs) < WORD
    ensures 1 <= bytes == Min(Span(count, cs), size - total)
  {
    SpanIsProduct(count, cs);
    bytes := count * cs;
    if (total + bytes) % WORD > size { bytes := size - total; }
  }

  /** `fat32_load_file`, once the directory entry (`first`, `size`) has been resolved. */
  method LoadFile(v: Volume, first: nat, size: nat, buffer: seq<byte>, ghost s: seq<nat>)
    returns (ok: bool, out: seq<byte>)
    requires v.Valid() && size < WORD
    requires ValidCluster(first) ==> IsChain(v.Fat(), s) && s[0] == first
    ensures ok <==> size <= |buffer| && (size == 0 || (ValidCluster(first) && size <= Span(|s|, v.g.ClusterSize())))
    ensures size > |buffer| || !ValidCluster(first) ==> out == []
    ensures size <= |buffer| && ValidCluster(first) ==>
      |out| == Min(Span(|s|, v.g.ClusterSize()), size) && Shows(v.Clusters(), s, v.g.ClusterSize(), 0, out)
    // For a file on the device that is what `fat32_read` returns from offset 0.
    ensures size <= |buffer| && ValidCluster(first) && FileAt(v, first, s) ==> out == Window(Content(v, s), 0, size)
  {
    out := [];
    if size > |buffer| { return false, out; }
    if size == 0 { return true, out; }
    if !ValidCluster(first) { return false, out; }
    v.g.Layout();
    ghost var i, cl, cs := 0, v.Clusters(), v.g.ClusterSize();
    var cluster := first;
    while ValidCluster(cluster) && |out| < size
      invariant 0 <= i && LoadInv(cl, s, cs, size, out, cluster, i)
      decreases size - |out|
    {
      out, cluster, i := LoadBurst(v, size, buffer, out, cluster, s, i);
    }
    LoadDone(cl, s, cs, size, out, cluster, i);
    ok := |out| == size;
  }

  lemma LoadDone(cl: seq<seq<byte>>, s: seq<nat>, cs: nat, size: nat, out: seq<byte>, cluster: nat, i: nat)
    requires LoadInv(cl, s, cs, size, out, cluster, i) && (|out| >= size || !ValidCluster(cluster)) && cs > 0
    ensures |out| == Min(Span(|s|, cs), size)
    ensures Backed(cl, s, cs) ==> out == Window(Flat(cl, s), 0, size)
  {
    if i < |s| { SpanOrder(i, |s|, cs); }
    if Backed(cl, s, cs) { ShowsWindow(cl, s, cs, 0, size, out); }
  }
}
