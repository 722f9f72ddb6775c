/** Bytes scattered over equally sized blocks: the clusters of a file or the pages of a buffer laid end to end, and what
    storing into one of them does. */
module BlockData {
  import opened Bytes

  /** The number of bytes in `n` clusters: `n * cs`, unrolled cluster by cluster. */
  function Span(n: nat, cs: nat): (b: nat) {
    if n == 0 then 0 else Span(n - 1, cs) + cs
  }

  lemma {:induction false} SpanIsProduct(n: nat, cs: nat)
    ensures Span(n, cs) == n * cs
  {
    if n > 0 { SpanIsProduct(n - 1, cs); }
  }

  /** Where byte `off` of a file sits: cluster `off / cs`, at `off % cs`. */
  lemma SpanSplit(off: nat, cs: nat, n: nat)
    requires cs > 0
    ensures Span(off / cs, cs) + off % cs == off
    ensures off / cs < n <==> off < Span(n, cs)
  {
    SpanIsProduct(off / cs, cs);
    SpanPlace(off, cs, n, off / cs, off % cs);
  }

  lemma SpanPlace(off: nat, cs: nat, n: nat, q: nat, r: nat)
    requires r < cs && Span(q, cs) + r == off
    ensures q < n <==> off < Span(n, cs)
  {
    if q < n { SpanOrder(q, n, cs); } else if n < q { SpanOrder(n, q, cs); }
  }

  lemma {:induction false} SpanOrder(m: nat, n: nat, cs: nat)
    requires m < n
    ensures Span(m, cs) + cs <= Span(n, cs)
  {
    if m < n - 1 { SpanOrder(m, n - 1, cs); }
  }

  ghost predicate Backed(cl: seq<seq<byte>>, s: seq<nat>, cs: nat) {
    forall i :: 0 <= i < |s| ==> s[i] < |cl| && |cl[s[i]]| == cs
  }

  function Flat(cl: seq<seq<byte>>, s: seq<nat>): seq<byte>
    requires forall i :: 0 <= i < |s| ==> s[i] < |cl|
  {
    if s == [] then [] else Flat(cl, s[..|s| - 1]) + cl[s[|s| - 1]]
  }

  lemma {:induction false} FlatLength(cl: seq<seq<byte>>, s: seq<nat>, cs: nat)
    requires Backed(cl, s, cs)
    ensures |Flat(cl, s)| == Span(|s|, cs)
  {
    if s != [] {
      FlatLength(cl, s[..|s| - 1], cs);
    }
  }

  lemma {:induction false} FlatAgree(cl: seq<seq<byte>>, cl': seq<seq<byte>>, s: seq<nat>)
    requires |cl'| == |cl| && forall i :: 0 <= i < |s| ==> s[i] < |cl| && cl'[s[i]] == cl[s[i]]
    ensures Flat(cl', s) == Flat(cl, s)
  {
    if s != [] { FlatAgree(cl, cl', s[..|s| - 1]); }
  }

  lemma FlatSnoc(cl: seq<seq<byte>>, s: seq<nat>, c: nat)
    requires c < |cl| && forall i :: 0 <= i < |s| ==> s[i] < |cl|
    ensures Flat(cl, s + [c]) == Flat(cl, s) + cl[c]
  {
    assert (s + [c])[..|s|] == s;
  }

  /** Cluster `i` of a file occupies the bytes from `Span(i, cs)` on. */
  lemma {:induction false} FlatPiece(cl: seq<seq<byte>>, s: seq<nat>, cs: nat, i: nat, lo: nat, hi: nat)
    requires Backed(cl, s, cs) && i < |s| && lo <= hi <= cs
    ensures Span(i, cs) + hi <= |Flat(cl, s)|
    ensures Flat(cl, s)[Span(i, cs) + lo..Span(i, cs) + hi] == cl[s[i]][lo..hi]
  {
    var t := s[..|s| - 1];
    FlatLength(cl, t, cs);
    if i < |t| {
      FlatPiece(cl, t, cs, i, lo, hi);
      assert Flat(cl, s)[Span(i, cs) + lo..Span(i, cs) + hi] == Flat(cl, t)[Span(i, cs) + lo..Span(i, cs) + hi];
    }
  }

  /** Replacing one cluster of a file overwrites exactly its bytes. */
  lemma {:induction false} FlatStore(cl: seq<seq<byte>>, s: seq<nat>, cs: nat, i: nat, x: seq<byte>)
    requires Backed(cl, s, cs) && i < |s| && |x| == cs
    requires forall a, b :: 0 <= a < b < |s| ==> s[a] != s[b]
    ensures Span(i, cs) + cs <= |Flat(cl, s)|
    ensures Flat(cl[s[i] := x], s) == Overwrite(Flat(cl, s), Span(i, cs), x)
  {
    var t, cl' := s[..|s| - 1], cl[s[i] := x];
    FlatLength(cl, t, cs);
    FlatLength(cl, s, cs);
    if i < |t| {
      FlatStore(cl, t, cs, i, x);
      assert t[i] == s[i];
      OverwriteFront(Flat(cl, t), cl[s[|s| - 1]], Span(i, cs), x);
    } else {
      FlatAgree(cl, cl', t);
      OverwriteBack(Flat(cl, t), cl[s[i]], x);
    }
  }

  /** Overwriting part of one cluster overwrites that part of the file. */
  lemma FlatStorePart(cl: seq<seq<byte>>, s: seq<nat>, cs: nat, i: nat, o: nat, p: seq<byte>)
    requires Backed(cl, s, cs) && i < |s| && o + |p| <= cs
    requires forall a, b :: 0 <= a < b < |s| ==> s[a] != s[b]
    ensures Span(i, cs) + o + |p| <= |Flat(cl, s)|
    ensures Flat(cl[s[i] := Overwrite(cl[s[i]], o, p)], s) == Overwrite(Flat(cl, s), Span(i, cs) + o, p)
  {
    var flat, at := Flat(cl, s), Span(i, cs);
    FlatPiece(cl, s, cs, i, 0, cs);
    assert flat[at..at + cs] == cl[s[i]];
    ReadModifyWrite(flat, at, at + cs, o, p);
    FlatStore(cl, s, cs, i, Overwrite(cl[s[i]], o, p));
  }

  /** The effect of a write on cluster contents: no cluster outside the file changes, none changes size,
      and when the whole file lies on the device its bytes are the old ones with `d` put at `off`. */
  ghost predicate Stored(cl0: seq<seq<byte>>, cl: seq<seq<byte>>, s: seq<nat>, cs: nat, off: nat, d: seq<byte>)
  {
    && |cl| == |cl0|
    && (forall i :: 0 <= i < |s| ==> s[i] < |cl|)
    && (forall c :: 0 <= c < |cl| ==> |cl[c]| == |cl0[c]|)
    && (forall c :: 0 <= c < |cl| && c !in s ==> cl[c] == cl0[c])
    && (Backed(cl0, s, cs) ==> off + |d| <= |Flat(cl0, s)| && Flat(cl, s) == Overwrite(Flat(cl0, s), off, d))
  }

  lemma StoredNothing(cl: seq<seq<byte>>, s: seq<nat>, cs: nat, off: nat)
    requires forall i :: 0 <= i < |s| ==> s[i] < |cl|
    requires off <= Span(|s|, cs)
    ensures Stored(cl, cl, s, cs, off, [])
  {
    if Backed(cl, s, cs) { FlatLength(cl, s, cs); }
  }

  lemma StoredGrow(cl0: seq<seq<byte>>, cl: seq<seq<byte>>, s: seq<nat>, cs: nat, off: nat, d: seq<byte>, f: nat)
    requires Stored(cl0, cl, s, cs, off, d) && f < |cl| && f !in s
    ensures Stored(cl0, cl, s + [f], cs, off, d)
  {
    if Backed(cl0, s + [f], cs) {
      forall i | 0 <= i < |s| ensures s[i] < |cl| && |cl0[s[i]]| == cs {
        assert (s + [f])[i] == s[i];
      }
      FlatSnoc(cl0, s, f);
      FlatSnoc(cl, s, f);
    }
  }

  lemma StoredMore(cl0: seq<seq<byte>>, cl: seq<seq<byte>>, s: seq<nat>, cs: nat, off: nat, d: seq<byte>,
                   i: nat, o: nat, p: seq<byte>, x: seq<byte>)
    requires Stored(cl0, cl, s, cs, off, d) && i < |s| && o + |p| <= cs && Span(i, cs) + o == off + |d|
    requires forall a, b :: 0 <= a < b < |s| ==> s[a] != s[b]
    requires |x| == |cl[s[i]]| && (|x| == cs ==> x == Overwrite(cl[s[i]], o, p))
    ensures Stored(cl0, cl[s[i] := x], s, cs, off, d + p)
  {
    assert s[i] in s;
    if Backed(cl0, s, cs) {
      FlatLength(cl0, s, cs);
      FlatStorePart(cl, s, cs, i, o, p);
      OverwriteAppend(Flat(cl0, s), off, d, p);
    }
  }

  /** Two stores back to back are one. */
  lemma StoredJoin(c0: seq<seq<byte>>, c1: seq<seq<byte>>, c2: seq<seq<byte>>, s: seq<nat>, cs: nat, off: nat,
                   d: seq<byte>, e: seq<byte>)
    requires Stored(c0, c1, s, cs, off, d) && Stored(c1, c2, s, cs, off + |d|, e)
    ensures Stored(c0, c2, s, cs, off, d + e)
  {
    if Backed(c0, s, cs) {
      OverwriteAppend(Flat(c0, s), off, d, e);
    }
  }

  // ---- Blocks that need not be complete ----

  /** The block at position `at` of a file after `d` has been put at `off`, as far as the block goes. */
  ghost predicate Laid(x0: seq<byte>, x: seq<byte>, at: nat, off: nat, d: seq<byte>) {
    |x| == |x0| && forall j :: 0 <= j < |x| ==> x[j] == if off <= at + j < off + |d| then d[at + j - off] else x0[j]
  }

  /** The same for every block of a file; blocks may be short. */
  ghost predicate LaidOut(cl0: seq<seq<byte>>, cl: seq<seq<byte>>, s: seq<nat>, cs: nat, off: nat, d: seq<byte>) {
    && |cl| == |cl0| && (forall c :: 0 <= c < |cl0| ==> |cl0[c]| <= cs)
    && forall i :: 0 <= i < |s| ==> s[i] < |cl| && Laid(cl0[s[i]], cl[s[i]], Span(i, cs), off, d)
  }

  /** `x` is `x0` with `p` put at `o`, as far as it goes. */
  ghost predicate Patched(x0: seq<byte>, x: seq<byte>, o: nat, p: seq<byte>) {
    |x| == |x0| && forall j :: 0 <= j < |x| ==> x[j] == if o <= j < o + |p| then p[j - o] else x0[j]
  }

  lemma PatchedWhole(x0: seq<byte>, x: seq<byte>, o: nat, p: seq<byte>)
    requires Patched(x0, x, o, p) && o + |p| <= |x0|
    ensures x == Overwrite(x0, o, p)
  {
  }

  lemma LaidNothing(cl: seq<seq<byte>>, s: seq<nat>, cs: nat, off: nat)
    requires (forall c :: 0 <= c < |cl| ==> |cl[c]| <= cs) && forall i :: 0 <= i < |s| ==> s[i] < |cl|
    ensures LaidOut(cl, cl, s, cs, off, [])
  {
  }

  lemma LaidGrow(cl0: seq<seq<byte>>, cl: seq<seq<byte>>, s: seq<nat>, cs: nat, off: nat, d: seq<byte>, f: nat)
    requires LaidOut(cl0, cl, s, cs, off, d) && f < |cl| && cl[f] == cl0[f] && off + |d| <= Span(|s|, cs)
    ensures LaidOut(cl0, cl, s + [f], cs, off, d)
  {
  }

  // Another block of the file is not touched by what goes into block `i`.
  lemma LaidElsewhere(x0: seq<byte>, x: seq<byte>, k: nat, i: nat, cs: nat, off: nat, d: seq<byte>, o: nat,
                      p: seq<byte>)
    requires Laid(x0, x, Span(k, cs), off, d) && |x0| <= cs && k != i
    requires o + |p| <= cs && Span(i, cs) + o == off + |d|
    ensures Laid(x0, x, Span(k, cs), off, d + p)
  {
    if k < i { SpanOrder(k, i, cs); } else { SpanOrder(i, k, cs); }
  }

  lemma LaidHere(x0: seq<byte>, x: seq<byte>, y: seq<byte>, at: nat, off: nat, d: seq<byte>, o: nat, p: seq<byte>)
    requires Laid(x0, x, at, off, d) && Patched(x, y, o, p) && at + o == off + |d|
    ensures Laid(x0, y, at, off, d + p)
  {
  }

  lemma LaidMore(cl0: seq<seq<byte>>, cl: seq<seq<byte>>, s: seq<nat>, cs: nat, off: nat, d: seq<byte>,
                 i: nat, o: nat, p: seq<byte>, y: seq<byte>)
    requires LaidOut(cl0, cl, s, cs, off, d) && i < |s| && o + |p| <= cs && Span(i, cs) + o == off + |d|
    requires (forall a, b :: 0 <= a < b < |s| ==> s[a] != s[b]) && Patched(cl[s[i]], y, o, p)
    ensures LaidOut(cl0, cl[s[i] := y], s, cs, off, d + p)
  {
    forall k | 0 <= k < |s|
      ensures Laid(cl0[s[k]], cl[s[i] := y][s[k]], Span(k, cs), off, d + p)
    {
      if k == i { LaidHere(cl0[s[i]], cl[s[i]], y, Span(i, cs), off, d, o, p); }
      else { LaidElsewhere(cl0[s[k]], cl[s[k]], k, i, cs, off, d, o, p); }
    }
  }

  /** `out` shows the file from `off` on, wherever the file has bytes at all. */
  ghost predicate Shows(cl: seq<seq<byte>>, s: seq<nat>, cs: nat, off: nat, out: seq<byte>) {
    forall i :: 0 <= i < |s| ==> s[i] < |cl| && ShowsBlock(cl[s[i]], Span(i, cs), off, out)
  }

  ghost predicate ShowsBlock(x: seq<byte>, at: nat, off: nat, out: seq<byte>) {
    forall j :: 0 <= j < |x| && off <= at + j < off + |out| ==> out[at + j - off] == x[j]
  }

  /** Gathering the next piece of block `i`, whose missing end is filled up with anything. */
  lemma ShowsMore(cl: seq<seq<byte>>, s: seq<nat>, cs: nat, off: nat, out: seq<byte>, i: nat, lo: nat, hi: nat,
                  full: seq<byte>)
    requires Shows(cl, s, cs, off, out) && i < |s| && lo <= hi <= cs == |full| && off + |out| == Span(i, cs) + lo
    requires (forall c :: 0 <= c < |cl| ==> |cl[c]| <= cs) && cl[s[i]] <= full
    ensures Shows(cl, s, cs, off, out + full[lo..hi])
  {
    forall k | 0 <= k < |s|
      ensures ShowsBlock(cl[s[k]], Span(k, cs), off, out + full[lo..hi])
    {
      if k < i { SpanOrder(k, i, cs); }
      if i < k { SpanOrder(i, k, cs); }
      assert ShowsBlock(cl[s[k]], Span(k, cs), off, out);
    }
  }

  /** For a file whose blocks are complete that is the file itself. */
  lemma ShowsWhole(cl: seq<seq<byte>>, s: seq<nat>, cs: nat, off: nat, out: seq<byte>)
    requires Shows(cl, s, cs, off, out) && Backed(cl, s, cs) && cs > 0 && off + |out| <= Span(|s|, cs)
    ensures off + |out| <= |Flat(cl, s)| && out == Flat(cl, s)[off..off + |out|]
  {
    FlatLength(cl, s, cs);
    forall k | 0 <= k < |out|
      ensures out[k] == Flat(cl, s)[off + k]
    {
      ByteOfFlat(cl, s, cs, off + k);
      assert ShowsBlock(cl[s[(off + k) / cs]], Span((off + k) / cs, cs), off, out);
    }
  }

  lemma ByteOfFlat(cl: seq<seq<byte>>, s: seq<nat>, cs: nat, q: nat)
    requires Backed(cl, s, cs) && cs > 0 && q < Span(|s|, cs)
    ensures q / cs < |s| && Span(q / cs, cs) + q % cs == q && q < |Flat(cl, s)|
    ensures Flat(cl, s)[q] == cl[s[q / cs]][q % cs]
  {
    FlatLength(cl, s, cs);
    SpanSplit(q, cs, |s|);
    FlatPiece(cl, s, cs, q / cs, q % cs, q % cs + 1);
    assert Flat(cl, s)[q] == Flat(cl, s)[q..q + 1][0];
  }
}
