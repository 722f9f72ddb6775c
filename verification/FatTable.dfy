/** Cluster chains in a File Allocation Table, as pure data: `kernel/fat32.c`, lines 110-165 and 265-271.
    A table is a sequence of 32-bit entries whose low 28 bits are the link. */
module FatTable {
  import opened Bytes

  const LINK: int := 0x1000_0000
  const EOC: int := 0x0FFF_FFF8
  const EOC_MARK: int := 0x0FFF_FFFF

  predicate ValidCluster(c: int) {
    2 <= c < EOC
  }

  function Entry(fat: seq<u32>, c: nat): (v: nat)
    requires c < |fat|
    ensures v < LINK
  {
    fat[c] % LINK
  }

  /** The reserved top four bits, which no operation may change. */
  function Reserved(fat: seq<u32>, c: nat): nat
    requires c < |fat|
  {
    fat[c] / LINK
  }

  function Relink(word: u32, v: nat): (r: u32)
    ensures r % 0x1000_0000 == v % 0x1000_0000 && r / 0x1000_0000 == word / 0x1000_0000
  {
    v % LINK + word / LINK * LINK
  }

  /** `fat32_set_cluster`: replaces the link and keeps the reserved bits. */
  function Put(fat: seq<u32>, c: nat, v: nat): (r: seq<u32>)
    requires c < |fat|
    ensures |r| == |fat|
    ensures Entry(r, c) == v % 0x1000_0000 && Reserved(r, c) == Reserved(fat, c)
    ensures forall k :: 0 <= k < |fat| && k != c ==> r[k] == fat[k]
  {
    fat[c := Relink(fat[c], v)]
  }

  predicate IsFree(fat: seq<u32>, c: nat) {
    2 <= c < |fat| && Entry(fat, c) == 0
  }

  /** `s` lists, in order, the clusters of a file whose last entry is an end-of-chain mark. */
  ghost predicate IsChain(fat: seq<u32>, s: seq<nat>) {
    && |s| > 0
    && (forall i :: 0 <= i < |s| ==> 2 <= s[i] < |fat|)
    && (forall i {:trigger Entry(fat, s[i])} :: 0 <= i < |s| - 1 ==> Entry(fat, s[i]) == s[i + 1])
    && Entry(fat, s[|s| - 1]) >= 0x0FFF_FFF8
  }

  ghost predicate Disjoint(s: seq<nat>, t: seq<nat>) {
    forall c :: c in s ==> c !in t
  }

  /** A chain that reaches its end mark cannot visit a cluster twice. */
  lemma {:induction false} ChainAcyclic(fat: seq<u32>, s: seq<nat>, i: nat, j: nat)
    requires IsChain(fat, s) && |fat| <= EOC && i < j < |s|
    ensures s[i] != s[j]
    decreases |s| - j
  {
    if s[i] == s[j] {
      assert Entry(fat, s[i]) == s[i + 1];
      if j + 1 < |s| {
        ChainAcyclic(fat, s, i + 1, j + 1);
      }
    }
  }

  /** A chain is determined by its first cluster. */
  lemma {:induction false} ChainUnique(fat: seq<u32>, s: seq<nat>, t: seq<nat>)
    requires IsChain(fat, s) && IsChain(fat, t) && |fat| <= EOC && s[0] == t[0]
    ensures s == t
    decreases |s|
  {
    assert |s| > 1 ==> Entry(fat, s[0]) == s[1];
    assert |t| > 1 ==> Entry(fat, t[0]) == t[1];
    if |s| > 1 && |t| > 1 {
      ChainUnique(fat, s[1..], t[1..]);
      assert s == [s[0]] + s[1..] && t == [t[0]] + t[1..];
    }
  }

  lemma ChainUsed(fat: seq<u32>, s: seq<nat>, c: nat)
    requires IsChain(fat, s) && c in s
    ensures c < |fat| && !IsFree(fat, c)
  {
    var i :| 0 <= i < |s| && s[i] == c;
    assert i < |s| - 1 ==> Entry(fat, s[i]) == s[i + 1];
  }

  /** Following the link of cluster `i` leads to cluster `i + 1`, or off the chain at its end. */
  lemma NextOnChain(fat: seq<u32>, s: seq<nat>, i: nat)
    requires IsChain(fat, s) && |fat| <= EOC && i < |s|
    ensures ValidCluster(Entry(fat, s[i])) <==> i + 1 < |s|
    ensures i + 1 < |s| ==> Entry(fat, s[i]) == s[i + 1]
    ensures i + 1 == |s| ==> Entry(fat, s[i]) >= EOC
  {
    if i + 1 < |s| { assert Entry(fat, s[i]) == s[i + 1]; }
  }

  /** A chain has fewer clusters than the table has entries. */
  lemma ChainBounded(fat: seq<u32>, s: seq<nat>)
    requires IsChain(fat, s) && |fat| <= EOC
    ensures |s| + 2 <= |fat|
  {
    forall i, j | 0 <= i < j < |s| ensures s[i] != s[j] { ChainAcyclic(fat, s, i, j); }
    DistinctBounded(s, 2, |fat|);
  }

  lemma {:induction false} DistinctBounded(s: seq<nat>, lo: nat, hi: nat)
    requires lo <= hi
    requires forall i :: 0 <= i < |s| ==> lo <= s[i] < hi
    requires forall i, j :: 0 <= i < j < |s| ==> s[i] != s[j]
    ensures |s| <= hi - lo
    decreases hi - lo
  {
    if hi - 1 in s {
      var k :| 0 <= k < |s| && s[k] == hi - 1;
      DistinctBounded(s[..k] + s[k + 1..], lo, hi - 1);
    } else if |s| > 0 {
      assert lo <= s[0] < hi;
      DistinctBounded(s, lo, hi - 1);
    }
  }

  /** `fat32_find_free_cluster`: the lowest free entry, or `|fat|` on a full table. */
  function FirstFree(fat: seq<u32>, from: nat := 2): (f: nat)
    requires 2 <= from <= |fat|
    ensures from <= f <= |fat|
    ensures f < |fat| ==> IsFree(fat, f)
    ensures forall c :: from <= c < f ==> !IsFree(fat, c)
    decreases |fat| - from
  {
    if from == |fat| || Entry(fat, from) == 0 then from else FirstFree(fat, from + 1)
  }

  ghost predicate NoneFree(fat: seq<u32>, lo: nat, hi: nat) {
    forall c :: lo <= c < hi ==> !IsFree(fat, c)
  }

  lemma FirstFreeIs(fat: seq<u32>, f: nat)
    requires 2 <= |fat| && f <= |fat| && NoneFree(fat, 0, f) && (f < |fat| ==> IsFree(fat, f))
    ensures FirstFree(fat) == f
  {
    assert f < |fat| ==> FirstFree(fat) <= f;
    assert NoneFree(fat, 2, f);
  }

  /** Links a formerly free cluster behind the last one of a chain. */
  function Link(fat: seq<u32>, last: nat, f: nat): (r: seq<u32>)
    requires last < |fat| && f < |fat|
    ensures |r| == |fat|
  {
    Put(Put(fat, last, f), f, EOC_MARK)
  }

  lemma LinkExtends(fat: seq<u32>, s: seq<nat>, f: nat)
    requires IsChain(fat, s) && |fat| <= EOC && IsFree(fat, f)
    ensures f !in s
    ensures IsChain(Link(fat, s[|s| - 1], f), s + [f]) && Entry(Link(fat, s[|s| - 1], f), f) == 0x0FFF_FFFF
    ensures forall c :: 0 <= c < |fat| && c != f && c != s[|s| - 1] ==> Link(fat, s[|s| - 1], f)[c] == fat[c]
  {
    var r := Link(fat, s[|s| - 1], f);
    assert f !in s by {
      if f in s { ChainUsed(fat, s, f); }
    }
    var t := s + [f];
    forall i | 0 <= i < |t| - 1 ensures Entry(r, t[i]) == t[i + 1] {
      if i < |s| - 1 {
        ChainAcyclic(fat, s, i, |s| - 1);
        assert Entry(fat, s[i]) == s[i + 1];
      }
    }
  }

  /** A chain none of whose entries changed is still a chain. */
  lemma ChainKept(fat: seq<u32>, fat': seq<u32>, t: seq<nat>)
    requires IsChain(fat, t) && |fat'| == |fat|
    requires forall c :: c in t ==> c < |fat| && fat'[c] == fat[c]
    ensures IsChain(fat', t)
  {
    forall i | 0 <= i < |t| ensures Entry(fat', t[i]) == Entry(fat, t[i]) {
      assert t[i] in t;
    }
  }

  /** What a write may do to a file: `s` grows to `s'` by formerly free clusters, and apart from its
      last entry and the clusters it took the table is untouched. */
  ghost predicate Extends(fat: seq<u32>, s: seq<nat>, fat': seq<u32>, s': seq<nat>) {
    && |fat'| == |fat| && IsChain(fat, s) && IsChain(fat', s')
    && s <= s'
    && (forall i :: |s| <= i < |s'| ==> IsFree(fat, s'[i]))
    && (forall c :: 0 <= c < |fat| ==> Reserved(fat', c) == Reserved(fat, c))
    && (forall c :: 0 <= c < |fat| && c !in s'[|s| - 1..] ==> fat'[c] == fat[c])
    && (|s'| == |s| ==> fat' == fat)
  }

  lemma ExtendsRefl(fat: seq<u32>, s: seq<nat>)
    requires IsChain(fat, s)
    ensures Extends(fat, s, fat, s)
  {
  }

  lemma ExtendsStep(fat0: seq<u32>, s0: seq<nat>, fat: seq<u32>, s: seq<nat>, f: nat)
    requires Extends(fat0, s0, fat, s) && |fat| <= EOC && IsFree(fat, f)
    ensures Extends(fat0, s0, Link(fat, s[|s| - 1], f), s + [f])
  {
    LinkExtends(fat, s, f);
    var r, t := Link(fat, s[|s| - 1], f), s + [f];
    assert IsFree(fat0, f) by {
      assert f !in s[|s0| - 1..];
    }
    assert t[|s0| - 1..] == s[|s0| - 1..] + [f];
    forall c | 0 <= c < |fat0| && c !in t[|s0| - 1..] ensures r[c] == fat0[c] {
      assert c !in s[|s0| - 1..] && c != f;
      assert s[|s| - 1] == s[|s0| - 1..][|s| - |s0|];
    }
    forall c | 0 <= c < |fat0| ensures Reserved(r, c) == Reserved(fat0, c) {
      var m := Put(fat, s[|s| - 1], f);
      assert Reserved(m, c) == Reserved(fat, c);
      assert Reserved(r, c) == Reserved(m, c);
    }
  }

  /** Growing one file leaves every file that shares no cluster with it exactly as it was. */
  lemma OtherFileKept(fat: seq<u32>, s: seq<nat>, fat': seq<u32>, s': seq<nat>, t: seq<nat>)
    requires Extends(fat, s, fat', s') && IsChain(fat, t) && Disjoint(s, t)
    ensures IsChain(fat', t) && Disjoint(s', t)
  {
    forall c | c in s' ensures c !in t {
      var i :| 0 <= i < |s'| && s'[i] == c;
      if i < |s| {
        assert c == s[i];
      } else if c in t {
        ChainUsed(fat, t, c);
      }
    }
    forall c | c in t ensures c < |fat| && fat'[c] == fat[c] {
      ChainUsed(fat, t, c);
      assert c !in s';
    }
    ChainKept(fat, fat', t);
  }

  // ---- Free-entry accounting ----

  /** Number of free entries below `d`. */
  function FreeBelow(fat: seq<u32>, d: nat): (n: nat)
    requires d <= |fat|
  {
    if d == 0 then 0 else FreeBelow(fat, d - 1) + if IsFree(fat, d - 1) then 1 else 0
  }

  lemma {:induction false} FreeBelowZero(fat: seq<u32>, d: nat)
    requires d <= |fat|
    ensures FreeBelow(fat, d) == 0 <==> NoneFree(fat, 0, d)
  {
    if d > 0 { FreeBelowZero(fat, d - 1); }
  }

  lemma {:induction false} FreeBelowAgree(fat: seq<u32>, fat': seq<u32>, d: nat)
    requires |fat'| == |fat| && d <= |fat|
    requires forall c :: 0 <= c < d ==> IsFree(fat', c) == IsFree(fat, c)
    ensures FreeBelow(fat', d) == FreeBelow(fat, d)
  {
    if d > 0 { FreeBelowAgree(fat, fat', d - 1); }
  }

  lemma {:induction false} FreeBelowTake(fat: seq<u32>, fat': seq<u32>, f: nat, d: nat)
    requires |fat'| == |fat| && d <= |fat| && IsFree(fat, f) && !IsFree(fat', f)
    requires forall c :: 0 <= c < |fat| && c != f ==> IsFree(fat', c) == IsFree(fat, c)
    ensures FreeBelow(fat', d) == FreeBelow(fat, d) - if f < d then 1 else 0
  {
    if d > 0 {
      if d - 1 == f { FreeBelowAgree(fat, fat', d - 1); } else { FreeBelowTake(fat, fat', f, d - 1); }
    }
  }

  /** Taking the lowest free cluster uses up the free entries below any bound first. */
  lemma LowestFirst(fat: seq<u32>, s: seq<nat>, d: nat)
    requires IsChain(fat, s) && |fat| <= EOC && d <= |fat| && FirstFree(fat) < |fat|
    ensures FirstFree(fat) < d <==> FreeBelow(fat, d) > 0
    ensures FreeBelow(Link(fat, s[|s| - 1], FirstFree(fat)), d)
         == FreeBelow(fat, d) - if FirstFree(fat) < d then 1 else 0
  {
    var f := FirstFree(fat);
    var last := s[|s| - 1];
    var r := Link(fat, last, f);
    LinkExtends(fat, s, f);
    assert last in s;
    assert Entry(r, last) == f;
    assert !IsFree(r, last) && !IsFree(fat, last);
    FreeBelowTake(fat, r, f, d);
    FreeBelowZero(fat, d);
    assert NoneFree(fat, 0, f);
  }

  /** A write takes free clusters lowest first: the clusters it added all lie below `d` exactly when there
      were enough free entries below `d`. */
  ghost predicate TakenUpTo(fat0: seq<u32>, s0: seq<nat>, fat: seq<u32>, s: seq<nat>, d: nat)
    requires d <= |fat| == |fat0| && |s0| <= |s|
  {
    && FreeBelow(fat, d) == (if FreeBelow(fat0, d) >= |s| - |s0| then FreeBelow(fat0, d) - (|s| - |s0|) else 0)
    && (AllBelow(s[|s0|..], d) <==> |s| - |s0| <= FreeBelow(fat0, d))
  }

  ghost predicate TakenLowestFirst(fat0: seq<u32>, s0: seq<nat>, fat: seq<u32>, s: seq<nat>)
    requires |fat| == |fat0| && |s0| <= |s|
  {
    forall d: nat :: d <= |fat| ==> TakenUpTo(fat0, s0, fat, s, d)
  }

  ghost predicate AllBelow(s: seq<nat>, d: nat) {
    forall i :: 0 <= i < |s| ==> s[i] < d
  }

  lemma TakenStep(fat0: seq<u32>, s0: seq<nat>, fat: seq<u32>, s: seq<nat>)
    requires |fat| == |fat0| && |s0| <= |s| && TakenLowestFirst(fat0, s0, fat, s)
    requires IsChain(fat, s) && |fat| <= EOC && FirstFree(fat) < |fat|
    ensures TakenLowestFirst(fat0, s0, Link(fat, s[|s| - 1], FirstFree(fat)), s + [FirstFree(fat)])
  {
    var f := FirstFree(fat);
    var fat', s' := Link(fat, s[|s| - 1], f), s + [f];
    assert s'[|s0|..] == s[|s0|..] + [f];
    forall d: nat | d <= |fat| ensures TakenUpTo(fat0, s0, fat', s', d) {
      assert TakenUpTo(fat0, s0, fat, s, d);
      LowestFirst(fat, s, d);
      AllBelowSnoc(s[|s0|..], f, d);
    }
  }

  lemma AllBelowSnoc(s: seq<nat>, f: nat, d: nat)
    ensures AllBelow(s + [f], d) <==> AllBelow(s, d) && f < d
  {
    if AllBelow(s + [f], d) {
      assert (s + [f])[|s|] == f;
      forall i | 0 <= i < |s| ensures s[i] < d { assert (s + [f])[i] == s[i]; }
    }
  }

  lemma {:induction false} FreeBelowMonotone(fat: seq<u32>, d: nat, e: nat)
    requires d <= e <= |fat|
    ensures FreeBelow(fat, d) <= FreeBelow(fat, e)
    decreases e
  {
    if d < e { FreeBelowMonotone(fat, d, e - 1); }
  }

  /** The clusters a write added are, in order, the free entries of the table it started from. */
  ghost predicate NthFree(fat: seq<u32>, len0: nat, s: seq<nat>) {
    forall i :: len0 <= i < |s| ==> IsNthFree(fat, s[i], i - len0)
  }

  predicate IsNthFree(fat: seq<u32>, c: nat, n: nat) {
    c < |fat| && IsFree(fat, c) && FreeBelow(fat, c) == n
  }

  lemma NthStep(fat0: seq<u32>, s0: seq<nat>, fat: seq<u32>, s: seq<nat>)
    requires |fat| == |fat0| && |s0| <= |s| && TakenLowestFirst(fat0, s0, fat, s) && NthFree(fat0, |s0|, s)
    requires 2 <= |fat| && FirstFree(fat) < |fat| && IsFree(fat0, FirstFree(fat))
    ensures NthFree(fat0, |s0|, s + [FirstFree(fat)])
  {
    var f := FirstFree(fat);
    assert NoneFree(fat, 0, f);
    FreeBelowZero(fat, f);
    assert TakenUpTo(fat0, s0, fat, s, f) && TakenUpTo(fat0, s0, fat, s, f + 1);
  }

  /** The free entry number `n` lies below `d` exactly if more than `n` free entries do. */
  lemma NthBelow(fat: seq<u32>, c: nat, n: nat, d: nat)
    requires IsNthFree(fat, c, n) && d <= |fat|
    ensures c < d <==> n < FreeBelow(fat, d)
  {
    if c < d { FreeBelowMonotone(fat, c + 1, d); } else { FreeBelowMonotone(fat, d, c); }
  }
}
