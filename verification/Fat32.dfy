/** File operations on a FAT32 volume: reading, writing with growth, burst loading and deleting.
    `kernel/fat32.c`, lines 169-261, 916-963 and 1161-1171. */
module Fat32 {
  import opened Bytes
  import opened FatTable
  import opened FatVolume
  import opened BlockData

  /** The file that starts at `first` occupies the clusters `s`, and all of them lie on the device. */
  ghost predicate FileAt(v: Volume, first: nat, s: seq<nat>)
    requires v.Valid()
    reads v, v.dev
  {
    IsChain(v.Fat(), s) && s[0] == first && Backed(v.Clusters(), s, v.g.ClusterSize())
  }

  ghost function Content(v: Volume, s: seq<nat>): seq<byte>
    requires v.Valid() && IsChain(v.Fat(), s)
    reads v, v.dev
  {
    Flat(v.Clusters(), s)
  }

  // ---- Walking a chain ----

  /** The skip loop of `fat32_read` and `fat32_write`: the cluster `steps` links further on. */
  method Skip(v: Volume, first: nat, steps: nat, ghost s: seq<nat>) returns (found: bool, cluster: nat)
    requires v.Valid() && IsChain(v.Fat(), s) && s[0] == first
    ensures found <==> steps < |s|
    ensures found ==> cluster == s[steps]
  {
    v.g.Layout();
    cluster := first;
    for i := 0 to steps
      invariant i < |s| && cluster == s[i]
    {
      NextOnChain(v.Fat(), s, i);
      cluster := v.GetNext(cluster);
      if !ValidCluster(cluster) { return false, cluster; }
    }
    found := true;
  }

  /** Cluster index and offset within it of byte `off` of a file. */
  method Locate(off: nat, cs: nat) returns (index: nat, within: nat)
    requires cs > 0
    ensures within < cs && Span(index, cs) + within == off
    ensures forall n: nat :: index < n <==> off < Span(n, cs)
  {
    index, within := off / cs, off % cs;
    forall n: nat ensures index < n <==> off < Span(n, cs) { SpanSplit(off, cs, n); }
    SpanSplit(off, cs, 0);
  }

  // ---- Reading ----

  /** The part of `content` a read of `size` bytes at `off` yields. */
  function Window(content: seq<byte>, off: nat, size: nat): seq<byte> {
    if off >= |content| then [] else content[off..off + Min(size, |content| - off)]
  }

  /** How many bytes a read of `size` at `off` returns from a chain of `total` bytes. */
  function ReadCount(total: nat, off: nat, size: nat): (n: nat) {
    if off >= total then 0 else Min(size, total - off)
  }

  /** `fat32_read`: as many bytes as the chain has from `off` on, at most `size`. Wherever the device holds a byte of
      the chain it is that byte; past the end of the device it is whatever the scratch buffer held. So for a file on
      the device it is the file's contents. Nothing is read if the scratch buffer could not be allocated. */
  method Read(v: Volume, first: nat, off: nat, size: nat, memory: bool, ghost s: seq<nat>) returns (out: seq<byte>)
    requires v.Valid()
    requires ValidCluster(first) ==> IsChain(v.Fat(), s) && s[0] == first
    ensures !ValidCluster(first) || !memory ==> out == []
    ensures ValidCluster(first) && memory ==>
      |out| == ReadCount(Span(|s|, v.g.ClusterSize()), off, size) && Shows(v.Clusters(), s, v.g.ClusterSize(), off, out)
    ensures ValidCluster(first) && memory && FileAt(v, first, s) ==> out == Window(Content(v, s), off, size)
  {
    if !ValidCluster(first) { return []; }
    var cs := v.g.ClusterSize();
    v.g.Layout();
    var index, within := Locate(off, cs);
    var found, cluster := Skip(v, first, index, s);
    out := [];
    if found && memory { out := ReadChain(v, cluster, within, size, s, index, off); }
    if memory && Backed(v.Clusters(), s, cs) { ShowsWindow(v.Clusters(), s, cs, off, size, out); }
  }

  lemma ShowsWindow(cl: seq<seq<byte>>, s: seq<nat>, cs: nat, off: nat, size: nat, out: seq<byte>)
    requires Shows(cl, s, cs, off, out) && Backed(cl, s, cs) && cs > 0 && |out| == ReadCount(Span(|s|, cs), off, size)
    ensures out == Window(Flat(cl, s), off, size)
  {
    FlatLength(cl, s, cs);
    if off < Span(|s|, cs) { ShowsWhole(cl, s, cs, off, out); }
  }

  /** Where the read loop stands: `out` gathered, about to take cluster `i` from offset `o`. */
  ghost predicate ReadInv(cl: seq<seq<byte>>, s: seq<nat>, cs: nat, off: nat, size: nat,
                          out: seq<byte>, cluster: nat, o: nat, i: nat)
  {
    && |out| <= size && o < cs && Shows(cl, s, cs, off, out) && off + |out| <= Span(|s|, cs)
    && i <= |s| && (ValidCluster(cluster) <==> i < |s|) && (i < |s| ==> cluster == s[i])
    && (|out| < size ==> Span(i, cs) + o == off + |out|)
  }

  lemma ReadStep(cl: seq<seq<byte>>, s: seq<nat>, cs: nat, off: nat, size: nat, out: seq<byte>, cluster: nat, o: nat,
                 i: nat,
                 full: seq<byte>, hi: nat, out': seq<byte>, next: nat)
    requires ReadInv(cl, s, cs, off, size, out, cluster, o, i) && |out| < size && i < |s|
    requires (forall c :: 0 <= c < |cl| ==> |cl[c]| <= cs) && |full| == cs && cl[s[i]] <= full
    requires hi == o + Min(cs - o, size - |out|) && out' == out + full[o..hi]
    requires (ValidCluster(next) <==> i + 1 < |s|) && (i + 1 < |s| ==> next == s[i + 1])
    ensures ReadInv(cl, s, cs, off, size, out', next, 0, i + 1)
  {
    ShowsMore(cl, s, cs, off, out, i, o, hi, full);
    SpanOrder(i, |s|, cs);
  }

  lemma ReadDone(cl: seq<seq<byte>>, s: seq<nat>, cs: nat, off: nat, size: nat,
                 out: seq<byte>, cluster: nat, o: nat, i: nat)
    requires ReadInv(cl, s, cs, off, size, out, cluster, o, i) && (|out| >= size || !ValidCluster(cluster))
    ensures |out| == ReadCount(Span(|s|, cs), off, size)
  {
  }

  method ReadPart(v: Volume, cluster: nat, o: nat, size: nat, out: seq<byte>, temp: seq<byte>,
                  ghost s: seq<nat>, ghost off: nat, ghost i: nat)
    returns (out': seq<byte>, next: nat, temp': seq<byte>)
    requires v.Valid() && IsChain(v.Fat(), s)
    requires ReadInv(v.Clusters(), s, v.g.ClusterSize(), off, size, out, cluster, o, i)
    requires |out| < size && ValidCluster(cluster) && |temp| == v.g.ClusterSize()
    ensures |temp'| == |temp| && |out| < |out'|
    ensures ReadInv(v.Clusters(), s, v.g.ClusterSize(), off, size, out', next, 0, i + 1)
  {
    v.g.Layout();
    temp' := v.ReadCluster(cluster, temp);
    var hi := o + Min(v.g.ClusterSize() - o, size - |out|);
    out' := out + temp'[o..hi];
    NextOnChain(v.Fat(), s, i);
    next := v.GetNext(cluster);
    ReadStep(v.Clusters(), s, v.g.ClusterSize(), off, size, out, cluster, o, i, temp', hi, out', next);
  }

  /** The transfer loop of `fat32_read`, from cluster `i0` of the chain on. */
  method ReadChain(v: Volume, start: nat, within: nat, size: nat, ghost s: seq<nat>, ghost i0: nat, ghost off: nat)
    returns (out: seq<byte>)
    requires v.Valid() && IsChain(v.Fat(), s) && off == Span(i0, v.g.ClusterSize()) + within
    requires i0 < |s| && start == s[i0] && within < v.g.ClusterSize()
    ensures |out| == ReadCount(Span(|s|, v.g.ClusterSize()), off, size)
    ensures Shows(v.Clusters(), s, v.g.ClusterSize(), off, out)
  {
    v.g.Layout();
    ghost var i, cl, cs := i0, v.Clusters(), v.g.ClusterSize();
    SpanOrder(i0, |s|, cs);
    var cluster, o, temp := start, within, seq(v.g.ClusterSize(), k => 0);
    out := [];
    while |out| < size && ValidCluster(cluster)
      invariant |temp| == cs && 0 <= o && 0 <= i
      invariant ReadInv(cl, s, cs, off, size, out, cluster, o, i)
      decreases size - |out|
    {
      out, cluster, temp := ReadPart(v, cluster, o, size, out, temp, s, off, i);
      i, o := i + 1, 0;
    }
    ReadDone(cl, s, cs, off, size, out, cluster, o, i);
  }

  // ---- Writing ----

  /** What a write of `d` at `off` has done so far to the file that occupied `s0` and now occupies `s`. */
  ghost predicate Wrote(fat0: seq<u32>, cl0: seq<seq<byte>>, s0: seq<nat>,
                        fat: seq<u32>, cl: seq<seq<byte>>, s: seq<nat>, cs: nat, off: nat, d: seq<byte>)
  {
    && Extends(fat0, s0, fat, s) && TakenLowestFirst(fat0, s0, fat, s) && NthFree(fat0, |s0|, s)
    && Stored(cl0, cl, s, cs, off, d) && LaidOut(cl0, cl, s, cs, off, d)
  }

  lemma WroteNothing(fat: seq<u32>, cl: seq<seq<byte>>, s: seq<nat>, cs: nat, off: nat)
    requires IsChain(fat, s) && |cl| == |fat| && off <= Span(|s|, cs) && forall c :: 0 <= c < |cl| ==> |cl[c]| <= cs
    ensures Wrote(fat, cl, s, fat, cl, s, cs, off, [])
  {
    ExtendsRefl(fat, s);
    forall d: nat | d <= |fat| ensures TakenUpTo(fat, s, fat, s, d) { assert s[|s|..] == []; }
    StoredNothing(cl, s, cs, off);
    LaidNothing(cl, s, cs, off);
  }

  lemma WroteGrow(fat0: seq<u32>, cl0: seq<seq<byte>>, s0: seq<nat>,
                  fat: seq<u32>, cl: seq<seq<byte>>, s: seq<nat>, cs: nat, off: nat, d: seq<byte>)
    requires Wrote(fat0, cl0, s0, fat, cl, s, cs, off, d) && |cl| == |fat| <= EOC && FirstFree(fat) < |fat|
    requires off + |d| <= Span(|s|, cs)
    ensures var f := FirstFree(fat);
            Wrote(fat0, cl0, s0, Link(fat, s[|s| - 1], f), cl, s + [f], cs, off, d)
  {
    ExtendsStep(fat0, s0, fat, s, FirstFree(fat));
    assert IsFree(fat0, (s + [FirstFree(fat)])[|s|]);
    TakenStep(fat0, s0, fat, s);
    NthStep(fat0, s0, fat, s);
    LinkExtends(fat, s, FirstFree(fat));
    StoredGrow(cl0, cl, s, cs, off, d, FirstFree(fat));
    LaidGrow(cl0, cl, s, cs, off, d, FirstFree(fat));
  }

  lemma WroteMore(fat0: seq<u32>, cl0: seq<seq<byte>>, s0: seq<nat>,
                  fat: seq<u32>, cl: seq<seq<byte>>, s: seq<nat>, cs: nat, off: nat, d: seq<byte>,
                  i: nat, o: nat, p: seq<byte>, x: seq<byte>)
    requires Wrote(fat0, cl0, s0, fat, cl, s, cs, off, d) && |fat| <= EOC
    requires i < |s| && o + |p| <= cs && Span(i, cs) + o == off + |d|
    requires Patched(cl[s[i]], x, o, p)
    ensures Wrote(fat0, cl0, s0, fat, cl[s[i] := x], s, cs, off, d + p)
  {
    forall a, b | 0 <= a < b < |s| ensures s[a] != s[b] { ChainAcyclic(fat, s, a, b); }
    if |x| == cs { PatchedWhole(cl[s[i]], x, o, p); }
    LaidMore(cl0, cl, s, cs, off, d, i, o, p, x);
    StoredMore(cl0, cl, s, cs, off, d, i, o, p, x);
  }

  /** Read-modify-write of part of one cluster through the scratch buffer. */
  method StorePart(v: Volume, c: nat, o: nat, p: seq<byte>, temp: seq<byte>)
    returns (temp': seq<byte>, ghost x: seq<byte>)
    requires v.Valid() && 2 <= c < v.g.Entries() && |temp| == v.g.ClusterSize() && o + |p| <= |temp|
    modifies v.dev
    ensures v.Valid() && |temp'| == |temp|
    ensures v.Fat() == old(v.Fat())
    ensures Patched(old(v.Clusters())[c], x, o, p)
    ensures v.Clusters() == old(v.Clusters())[c := x]
  {
    var read := v.ReadCluster(c, temp);
    temp' := Overwrite(read, o, p);
    x := temp'[..|v.Clusters()[c]|];
    v.WriteCluster(c, temp');
  }

  /** Finds a free cluster and links it behind `last`, or reports a full table. */
  method Grow(v: Volume, last: nat) returns (ok: bool, f: nat)
    requires v.Valid() && last < v.g.Entries()
    modifies v.dev
    ensures v.Valid() && v.Clusters() == old(v.Clusters())
    ensures f == FirstFree(old(v.Fat())) && (ok <==> f < |old(v.Fat())|)
    ensures v.Fat() == if ok then Link(old(v.Fat()), last, f) else old(v.Fat())
  {
    f := v.FindFree();
    ok := f < v.g.Entries();
    if ok {
      v.SetCluster(last, f);
      v.SetCluster(f, EOC_MARK);
    }
  }

  /** The table, the chain and the next cluster after one pass of the write loop over the cluster `i`. */
  ghost predicate Advanced(fat: seq<u32>, s: seq<nat>, i: nat, more: bool,
                           fat': seq<u32>, s': seq<nat>, next: nat, full: bool)
    requires IsChain(fat, s) && i < |s|
  {
    if i + 1 == |s| && more && FirstFree(fat) < |fat| then
      fat' == Link(fat, s[i], FirstFree(fat)) && s' == s + [FirstFree(fat)] && next == FirstFree(fat) && !full
    else
      && fat' == fat && s' == s
      && (if i + 1 < |s| then next == s[i + 1] && !full else next >= EOC && (full <==> more))
  }

  /** Where the write loop stands: `n` bytes stored, about to store into `cluster`, which is cluster `i` of the
      file, from offset `o`; or `full`, with no free cluster left. */
  datatype Progress = Progress(n: nat, cluster: nat, o: nat, full: bool)

  /** The file being written: its clusters, and the position in them of the cluster under the cursor. */
  datatype Cursor = Cursor(s: seq<nat>, i: nat)

  ghost predicate AtCursor(fat: seq<u32>, s0: seq<nat>, cs: nat, off: nat, size: nat, p: Progress, k: Cursor) {
    && p.n <= size && p.o < cs && off + p.n <= Span(|k.s|, cs)
    && (ValidCluster(p.cluster) ==> k.i < |k.s| && p.cluster == k.s[k.i])
    && (p.n < size && !p.full ==> ValidCluster(p.cluster) && Span(k.i, cs) + p.o == off + p.n)
    && (p.full ==> |fat| >= 2 && FirstFree(fat) == |fat| && off + p.n == Span(|k.s|, cs))
    && (|k.s| > |s0| ==> Span(|k.s| - 1, cs) < off + p.n ||
                         (k.i == |k.s| - 1 && p.o == 0 && p.n < size && !p.full))
  }

  lemma AtCursorStep(fat: seq<u32>, s0: seq<nat>, cs: nat, off: nat, size: nat, p: Progress, k: Cursor,
                     m: nat, fat': seq<u32>, s': seq<nat>, next: nat, full: bool)
    requires AtCursor(fat, s0, cs, off, size, p, k) && IsChain(fat, k.s) && |fat| <= EOC
    requires p.n < size && ValidCluster(p.cluster) && !p.full && m == p.n + Min(cs - p.o, size - p.n)
    requires Advanced(fat, k.s, k.i, m < size, fat', s', next, full)
    ensures AtCursor(fat', s0, cs, off, size, Progress(m, next, 0, full), Cursor(s', k.i + 1))
  {
    SpanOrder(k.i, |s'|, cs);
  }

  lemma WroteStep(fat0: seq<u32>, cl0: seq<seq<byte>>, s0: seq<nat>,
                  fat: seq<u32>, cl: seq<seq<byte>>, s: seq<nat>, cs: nat, off: nat, d: seq<byte>, p: seq<byte>,
                  more: bool, i: nat, o: nat, x: seq<byte>, fat': seq<u32>, s': seq<nat>, next: nat, full: bool)
    requires |cl| == |fat| <= EOC && i < |s| && o + |p| <= cs && Span(i, cs) + o == off + |d|
    requires Wrote(fat0, cl0, s0, fat, cl, s, cs, off, d) && Patched(cl[s[i]], x, o, p)
    requires Advanced(fat, s, i, more, fat', s', next, full)
    ensures Wrote(fat0, cl0, s0, fat', cl[s[i] := x], s', cs, off, d + p)
  {
    WroteMore(fat0, cl0, s0, fat, cl, s, cs, off, d, i, o, p, x);
    if i + 1 == |s| && more && FirstFree(fat) < |fat| {
      WroteGrow(fat0, cl0, s0, fat, cl[s[i] := x], s, cs, off, d + p);
    }
  }

  ghost predicate WriteInv(fat0: seq<u32>, cl0: seq<seq<byte>>, s0: seq<nat>, fat: seq<u32>, cl: seq<seq<byte>>,
                           cs: nat, off: nat, data: seq<byte>, p: Progress, k: Cursor)
  {
    && |cl| == |fat| == |fat0| <= EOC
    && AtCursor(fat, s0, cs, off, |data|, p, k)
    && Wrote(fat0, cl0, s0, fat, cl, k.s, cs, off, data[..p.n])
  }

  lemma WriteInvInit(fat: seq<u32>, cl: seq<seq<byte>>, s: seq<nat>, cs: nat, off: nat, data: seq<byte>, i: nat, o: nat)
    requires IsChain(fat, s) && |cl| == |fat| <= EOC && i < |s| && o < cs && off == Span(i, cs) + o
    requires forall c :: 0 <= c < |cl| ==> |cl[c]| <= cs
    ensures WriteInv(fat, cl, s, fat, cl, cs, off, data, Progress(0, s[i], o, false), Cursor(s, i))
  {
    SpanOrder(i, |s|, cs);
    WroteNothing(fat, cl, s, cs, off);
    assert data[..0] == [];
  }

  /** One pass of the write loop: store a piece, follow the link, and grow the file at its end when there
      is more to store. */
  method WriteStep(v: Volume, data: seq<byte>, p: Progress, temp: seq<byte>,
                   ghost fat0: seq<u32>, ghost cl0: seq<seq<byte>>, ghost s0: seq<nat>, ghost off: nat, ghost k: Cursor)
    returns (p': Progress, temp': seq<byte>, ghost k': Cursor)
    requires v.Valid() && |temp| == v.g.ClusterSize()
    requires WriteInv(fat0, cl0, s0, v.Fat(), v.Clusters(), v.g.ClusterSize(), off, data, p, k)
    requires p.n < |data| && ValidCluster(p.cluster) && !p.full
    modifies v.dev
    ensures v.Valid() && |temp'| == |temp| && p.n < p'.n <= |data|
    ensures WriteInv(fat0, cl0, s0, v.Fat(), v.Clusters(), v.g.ClusterSize(), off, data, p', k')
  {
    ghost var fat, cl := v.Fat(), v.Clusters();
    var m := p.n + Min(v.g.ClusterSize() - p.o, |data| - p.n);
    ghost var x;
    temp', x := StorePart(v, p.cluster, p.o, data[p.n..m], temp);
    var next, full, s' := Follow(v, p.cluster, m < |data|, k.s, k.i);
    p', k' := Progress(m, next, 0, full), Cursor(s', k.i + 1);
    WriteInvStep(fat0, cl0, s0, fat, cl, v.g.ClusterSize(), off, data, p, k, m, x, v.Fat(), v.Clusters(), p', k');
  }

  lemma WriteInvStep(fat0: seq<u32>, cl0: seq<seq<byte>>, s0: seq<nat>, fat: seq<u32>, cl: seq<seq<byte>>,
                     cs: nat, off: nat, data: seq<byte>, p: Progress, k: Cursor, m: nat, x: seq<byte>,
                     fat': seq<u32>, cl': seq<seq<byte>>, p': Progress, k': Cursor)
    requires WriteInv(fat0, cl0, s0, fat, cl, cs, off, data, p, k)
    requires p.n < |data| && ValidCluster(p.cluster) && !p.full && m == p.n + Min(cs - p.o, |data| - p.n)
    requires Patched(cl[p.cluster], x, p.o, data[p.n..m]) && cl' == cl[p.cluster := x]
    requires p' == Progress(m, p'.cluster, 0, p'.full) && k'.i == k.i + 1
    requires Advanced(fat, k.s, k.i, m < |data|, fat', k'.s, p'.cluster, p'.full)
    ensures WriteInv(fat0, cl0, s0, fat', cl', cs, off, data, p', k')
  {
    AtCursorStep(fat, s0, cs, off, |data|, p, k, m, fat', k'.s, p'.cluster, p'.full);
    WroteOn(fat0, cl0, s0, fat, cl, k.s, cs, off, data, p.n, m, k.i, p.o, x, fat', cl', k'.s, p'.cluster, p'.full);
  }

  lemma WroteOn(fat0: seq<u32>, cl0: seq<seq<byte>>, s0: seq<nat>,
                fat: seq<u32>, cl: seq<seq<byte>>, s: seq<nat>, cs: nat, off: nat, data: seq<byte>, n: nat, m: nat,
                i: nat, o: nat, x: seq<byte>, fat': seq<u32>, cl': seq<seq<byte>>, s': seq<nat>, next: nat, full: bool)
    requires |cl| == |fat| <= EOC && i < |s| && n <= m <= |data| && o + m - n <= cs && Span(i, cs) + o == off + n
    requires Wrote(fat0, cl0, s0, fat, cl, s, cs, off, data[..n]) && Patched(cl[s[i]], x, o, data[n..m])
    requires Advanced(fat, s, i, m < |data|, fat', s', next, full) && cl' == cl[s[i] := x]
    ensures Wrote(fat0, cl0, s0, fat', cl', s', cs, off, data[..m])
  {
    var d, p := data[..n], data[n..m];
    SplitTake(data, n, m);
    WroteStep(fat0, cl0, s0, fat, cl, s, cs, off, d, p, m < |data|, i, o, x, fat', s', next, full);
  }

  method Follow(v: Volume, c: nat, more: bool, ghost s: seq<nat>, ghost i: nat)
    returns (next: nat, full: bool, ghost s': seq<nat>)
    requires v.Valid() && IsChain(v.Fat(), s) && i < |s| && c == s[i]
    modifies v.dev
    ensures v.Valid() && v.Clusters() == old(v.Clusters())
    ensures Advanced(old(v.Fat()), s, i, more, v.Fat(), s', next, full)
  {
    v.g.Layout();
    s', full := s, false;
    NextOnChain(v.Fat(), s, i);
    next := v.GetNext(c);
    if next >= EOC && more {
      var ok, f := Grow(v, c);
      full := !ok;
      if ok {
        s', next := s + [f], f;
      }
    }
  }

  /** The transfer loop of `fat32_write`, from cluster `i0` of the chain on. */
  method WriteChain(v: Volume, start: nat, within: nat, data: seq<byte>, ghost s0: seq<nat>, ghost i0: nat,
                    ghost off: nat)
    returns (n: nat, ghost s: seq<nat>)
    requires v.Valid() && IsChain(v.Fat(), s0)
    requires i0 < |s0| && start == s0[i0] && within < v.g.ClusterSize() && off == Span(i0, v.g.ClusterSize()) + within
    modifies v.dev
    ensures v.Valid() && n <= |data|
    ensures Wrote(old(v.Fat()), old(v.Clusters()), s0, v.Fat(), v.Clusters(), s, v.g.ClusterSize(), off, data[..n])
    ensures Extent(v.Fat(), |s0|, |s|, v.g.ClusterSize(), off, n, |data|)
  {
    v.g.Layout();
    ghost var fat0, cl0, k := v.Fat(), v.Clusters(), Cursor(s0, i0);
    WriteInvInit(fat0, cl0, s0, v.g.ClusterSize(), off, data, i0, within);
    var p, temp := Progress(0, start, within, false), seq(v.g.ClusterSize(), k => 0);
    while p.n < |data| && ValidCluster(p.cluster) && !p.full
      invariant v.Valid() && |temp| == v.g.ClusterSize()
      invariant WriteInv(fat0, cl0, s0, v.Fat(), v.Clusters(), v.g.ClusterSize(), off, data, p, k)
      decreases |data| - p.n
    {
      p, temp, k := WriteStep(v, data, p, temp, fat0, cl0, s0, off, k);
    }
    n, s := p.n, k.s;
  }

  /** How far a write of `size` bytes at `off` got, from `len0` clusters to `len`: a short count `n` means the table
      is full and the last cluster is filled to its end, and no cluster was taken that did not receive a byte. */
  ghost predicate Extent(fat: seq<u32>, len0: nat, len: nat, cs: nat, off: nat, n: nat, size: nat) {
    && n <= size && len0 <= len && off + n <= Span(len, cs)
    && (n < size ==> |fat| >= 2 && FirstFree(fat) == |fat| && off + n == Span(len, cs))
    && (len > len0 ==> Span(len - 1, cs) < off + n)
  }

  /** `fat32_write`. `memory` says whether the scratch buffer could be allocated. */
  method Write(v: Volume, first: nat, off: nat, data: seq<byte>, memory: bool, ghost s0: seq<nat>)
    returns (n: nat, ghost s: seq<nat>)
    requires v.Valid()
    requires ValidCluster(first) ==> IsChain(v.Fat(), s0) && s0[0] == first
    modifies v.dev
    ensures v.Valid() && n <= |data|
    // Nothing happens without a file, past its last cluster, or without memory.
    ensures !ValidCluster(first) || off >= Span(|s0|, v.g.ClusterSize()) || !memory ==>
      n == 0 && s == s0 && v.dev.image == old(v.dev.image)
    // Otherwise the file grows by formerly free clusters, lowest first, and holds the bytes written.
    ensures ValidCluster(first) && off < Span(|s0|, v.g.ClusterSize()) && memory ==>
      && Wrote(old(v.Fat()), old(v.Clusters()), s0, v.Fat(), v.Clusters(), s, v.g.ClusterSize(), off, data[..n])
      && Extent(v.Fat(), |s0|, |s|, v.g.ClusterSize(), off, n, |data|)
  {
    n, s := 0, s0;
    if !ValidCluster(first) { return; }
    var cs := v.g.ClusterSize();
    var index, within := Locate(off, cs);
    var found, cluster := Skip(v, first, index, s0);
    if !found || !memory { return; }
    n, s := WriteChain(v, cluster, within, data, s0, index, off);
  }
}
