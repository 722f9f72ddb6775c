/** Releasing a chain: the walk of `fat32_delete_file`, `kernel/fat32.c`, lines 1161-1167, on any table whose
    links are in range, cyclic ones included. */
module FatDelete {
  import opened Bytes
  import opened FatTable
  import opened FatVolume

  /** The `n`-th cluster number met when following links from `a`; 0 once the walk has left the chain. */
  ghost function Hop(fat: seq<u32>, a: nat, n: nat): nat {
    if n == 0 then a
    else
      var c := Hop(fat, a, n - 1);
      if ValidCluster(c) && c < |fat| then Entry(fat, c) else 0
  }

  /** Following links from `a` leads to the cluster `c`. */
  ghost predicate Reaches(fat: seq<u32>, a: nat, c: nat) {
    ValidCluster(c) && exists n: nat :: Hop(fat, a, n) == c
  }

  ghost predicate LinksInRange(fat: seq<u32>) {
    forall c :: 0 <= c < |fat| && ValidCluster(Entry(fat, c)) ==> Entry(fat, c) < |fat|
  }

  lemma ReachesNext(fat: seq<u32>, a: nat, c: nat)
    requires Reaches(fat, a, c) && c < |fat| && ValidCluster(Entry(fat, c))
    ensures Reaches(fat, a, Entry(fat, c))
  {
    var n: nat :| Hop(fat, a, n) == c;
    assert Hop(fat, a, n + 1) == Entry(fat, c);
  }

  /** `v` holds `a` and is closed under following links. */
  ghost predicate ClosedFrom(fat: seq<u32>, a: nat, v: set<nat>) {
    && (ValidCluster(a) ==> a in v)
    && forall c :: c in v ==> c < |fat| && (ValidCluster(Entry(fat, c)) ==> Entry(fat, c) in v)
  }

  lemma {:induction false} HopsStayInside(fat: seq<u32>, a: nat, v: set<nat>, n: nat)
    requires ClosedFrom(fat, a, v)
    ensures ValidCluster(Hop(fat, a, n)) ==> Hop(fat, a, n) in v
  {
    if n > 0 { HopsStayInside(fat, a, v, n - 1); }
  }

  /** The table with the entries of `v` marked free. */
  ghost predicate Freed(fat: seq<u32>, v: set<nat>, fat': seq<u32>) {
    && |fat'| == |fat|
    && forall c :: 0 <= c < |fat| ==> fat'[c] == if c in v then Relink(fat[c], 0) else fat[c]
  }

  /** Where the walk stands: the entries in `v` are free, all of them reachable, and every link out of `v`
      leads back into it or to `cluster`. */
  ghost predicate Walking(fat: seq<u32>, first: nat, v: set<nat>, fat': seq<u32>, cluster: nat) {
    && Freed(fat, v, fat')
    && (ValidCluster(cluster) ==> cluster < |fat| && Reaches(fat, first, cluster))
    && (ValidCluster(first) ==> first in v || first == cluster)
    && forall c :: c in v ==>
         && c < |fat| && Reaches(fat, first, c)
         && (ValidCluster(Entry(fat, c)) ==> Entry(fat, c) in v || Entry(fat, c) == cluster)
  }

  lemma WalkingStart(fat: seq<u32>, first: nat)
    requires ValidCluster(first) ==> first < |fat|
    ensures Walking(fat, first, {}, fat, first)
  {
    assert Hop(fat, first, 0) == first;
  }

  lemma WalkingStep(fat: seq<u32>, first: nat, v: set<nat>, fat': seq<u32>, cluster: nat)
    requires Walking(fat, first, v, fat', cluster) && ValidCluster(cluster) && LinksInRange(fat)
    ensures Walking(fat, first, v + {cluster}, Put(fat', cluster, 0), Entry(fat', cluster))
    ensures cluster in v ==> !ValidCluster(Entry(fat', cluster))
  {
    if cluster in v {
      assert v + {cluster} == v;
      assert Entry(fat', cluster) == 0;
      assert Put(fat', cluster, 0)[cluster] == Relink(Relink(fat[cluster], 0), 0) == Relink(fat[cluster], 0);
    } else {
      assert Entry(fat', cluster) == Entry(fat, cluster);
      if ValidCluster(Entry(fat, cluster)) { ReachesNext(fat, first, cluster); }
    }
  }

  lemma WalkingDone(fat: seq<u32>, first: nat, v: set<nat>, fat': seq<u32>, cluster: nat)
    requires Walking(fat, first, v, fat', cluster) && !ValidCluster(cluster)
    ensures forall c :: c in v <==> Reaches(fat, first, c)
  {
    assert ClosedFrom(fat, first, v);
    forall c | Reaches(fat, first, c) ensures c in v {
      var n: nat :| Hop(fat, first, n) == c;
      HopsStayInside(fat, first, v, n);
    }
  }

  ghost function Below(n: nat): (s: set<nat>)
    ensures forall c: nat :: c in s <==> c < n
  {
    if n == 0 then {} else Below(n - 1) + {n - 1}
  }

  /** Frees exactly the clusters reachable from `first`, and always stops: every pass frees an entry that was
      not free before, or reads back one it freed itself and ends. */
  method FreeChain(v: Volume, first: nat)
    requires v.Valid() && LinksInRange(v.Fat())
    requires ValidCluster(first) ==> first < v.g.Entries()
    modifies v.dev
    ensures v.Valid() && v.Clusters() == old(v.Clusters())
    ensures |v.Fat()| == |old(v.Fat())|
    ensures forall c :: 0 <= c < |v.Fat()| ==>
      v.Fat()[c] == if Reaches(old(v.Fat()), first, c) then Relink(old(v.Fat())[c], 0) else old(v.Fat())[c]
  {
    ghost var fat, seen, all := v.Fat(), {}, Below(v.g.Entries());
    WalkingStart(fat, first);
    var cluster := first;
    while ValidCluster(cluster)
      invariant v.Valid() && v.Clusters() == old(v.Clusters())
      invariant 0 <= cluster && Walking(fat, first, seen, v.Fat(), cluster)
      decreases all - seen, if ValidCluster(cluster) then 1 else 0
    {
      ghost var fat' := v.Fat();
      WalkingStep(fat, first, seen, fat', cluster);
      var next := v.GetNext(cluster);
      v.SetCluster(cluster, 0);
      seen := seen + {cluster};
      cluster := next;
    }
    WalkingDone(fat, first, seen, v.Fat(), cluster);
  }

  lemma {:induction false} HopOnChain(fat: seq<u32>, s: seq<nat>, n: nat)
    requires IsChain(fat, s) && |fat| <= EOC
    ensures if n < |s| then Hop(fat, s[0], n) == s[n] else !ValidCluster(Hop(fat, s[0], n))
  {
    if n > 0 {
      HopOnChain(fat, s, n - 1);
      if n - 1 < |s| { NextOnChain(fat, s, n - 1); }
    }
  }

  /** On a well-formed file the reachable clusters are the clusters of the file. */
  lemma ReachesIsMember(fat: seq<u32>, s: seq<nat>, c: nat)
    requires IsChain(fat, s) && |fat| <= EOC
    ensures Reaches(fat, s[0], c) <==> c in s
  {
    if c in s {
      var i :| 0 <= i < |s| && s[i] == c;
      HopOnChain(fat, s, i);
    }
    if Reaches(fat, s[0], c) {
      var n: nat :| Hop(fat, s[0], n) == c;
      HopOnChain(fat, s, n);
    }
  }
}
