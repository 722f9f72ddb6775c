/** Bitmaps of 32-bit words, one bit per block, as both page allocators keep them (`kernel/pmm.c`). A word is the list
    of its bits, lowest first. */
module Bitmap {

  const FULL: seq<bool> := seq(32, i => true)

  type Word = w: seq<bool> | |w| == 32 witness FULL

  /** Block `b` is marked as in use. */
  predicate Taken(bits: seq<Word>, b: nat) {
    b / 32 < |bits| && bits[b / 32][b % 32]
  }

  function Take(bits: seq<Word>, b: nat): (r: seq<Word>)
    requires b / 32 < |bits|
  {
    bits[b / 32 := bits[b / 32][b % 32 := true]]
  }

  function Give(bits: seq<Word>, b: nat): (r: seq<Word>)
    requires b / 32 < |bits|
  {
    bits[b / 32 := bits[b / 32][b % 32 := false]]
  }

  lemma SameBlock(b: nat, c: nat)
    ensures b == c <==> b / 32 == c / 32 && b % 32 == c % 32
  {
  }

  lemma TakeIs(bits: seq<Word>, b: nat, c: nat)
    requires b / 32 < |bits|
    ensures Taken(Take(bits, b), c) <==> c == b || Taken(bits, c)
  {
    SameBlock(b, c);
  }

  lemma GiveIs(bits: seq<Word>, b: nat, c: nat)
    requires b / 32 < |bits|
    ensures Taken(Give(bits, b), c) <==> c != b && Taken(bits, c)
  {
    SameBlock(b, c);
  }

  /** How many of the first `n` blocks are in use. */
  function Count(bits: seq<Word>, n: nat): (k: nat)
    ensures k <= n
  {
    if n == 0 then 0 else Count(bits, n - 1) + if Taken(bits, n - 1) then 1 else 0
  }

  lemma {:induction false} CountTake(bits: seq<Word>, b: nat, n: nat)
    requires b / 32 < |bits| && !Taken(bits, b)
    ensures Count(Take(bits, b), n) == Count(bits, n) + if b < n then 1 else 0
  {
    if n > 0 {
      CountTake(bits, b, n - 1);
      TakeIs(bits, b, n - 1);
    }
  }

  lemma {:induction false} CountGive(bits: seq<Word>, b: nat, n: nat)
    requires b / 32 < |bits| && Taken(bits, b)
    ensures Count(Give(bits, b), n) == Count(bits, n) - if b < n then 1 else 0
  {
    if n > 0 {
      CountGive(bits, b, n - 1);
      GiveIs(bits, b, n - 1);
    }
  }

  /** The lowest clear block from `b` up to `n`, or `n`. */
  function FirstClear(bits: seq<Word>, b: nat, n: nat): (r: nat)
    requires b <= n
    ensures b <= r <= n && (r < n ==> !Taken(bits, r))
    decreases n - b
  {
    if b == n || !Taken(bits, b) then b else FirstClear(bits, b + 1, n)
  }

  lemma {:induction false} FirstClearIs(bits: seq<Word>, b: nat, n: nat, c: nat)
    requires b <= n && b <= c < FirstClear(bits, b, n)
    ensures Taken(bits, c)
    decreases n - b
  {
    if b < c { FirstClearIs(bits, b + 1, n, c); }
  }

  lemma {:induction false} FirstClearFrom(bits: seq<Word>, b: nat, c: nat, n: nat)
    requires b <= c <= n && forall d :: b <= d < c ==> Taken(bits, d)
    ensures FirstClear(bits, b, n) == FirstClear(bits, c, n)
    decreases c - b
  {
    if b < c { FirstClearFrom(bits, b + 1, c, n); }
  }

  function WordStart(i: nat, n: nat): (b: nat)
    ensures b <= n
  {
    if 32 * i < n then 32 * i else n
  }

  lemma Unpack(i: nat, j: nat)
    requires j < 32
    ensures (32 * i + j) / 32 == i && (32 * i + j) % 32 == j
  {
  }

  /** One word of the search. */
  method ScanWord(bits: seq<Word>, i: nat, n: nat) returns (r: nat)
    requires i < |bits| && 32 * i < n
    ensures FirstClear(bits, 32 * i, n) ==
      if r < WordStart(i + 1, n) then r else FirstClear(bits, WordStart(i + 1, n), n)
    ensures 32 * i <= r <= WordStart(i + 1, n)
  {
    var j := 0;
    while j < 32 && 32 * i + j < n
      invariant 0 <= j <= 32 && 32 * i + j <= n && FirstClear(bits, 32 * i, n) == FirstClear(bits, 32 * i + j, n)
    {
      Unpack(i, j);
      if !bits[i][j] { return 32 * i + j; }
      j := j + 1;
    }
    r := 32 * i + j;
  }

  /** The word-by-word search both allocators run: full words are passed over whole. */
  method LowestClear(bits: seq<Word>, n: nat) returns (r: nat)
    requires |bits| == (n + 31) / 32
    ensures r == FirstClear(bits, 0, n)
  {
    var i := 0;
    while i < |bits|
      invariant 0 <= i <= |bits| && FirstClear(bits, 0, n) == FirstClear(bits, WordStart(i, n), n)
    {
      if bits[i] != FULL {
        r := ScanWord(bits, i, n);
        if r < WordStart(i + 1, n) { return; }
      } else {
        WordFull(bits, i, n);
      }
      i := i + 1;
    }
    r := n;
  }

  lemma WordFull(bits: seq<Word>, i: nat, n: nat)
    requires i < |bits| && bits[i] == FULL && 32 * i < n
    ensures FirstClear(bits, 32 * i, n) == FirstClear(bits, WordStart(i + 1, n), n)
  {
    var c := WordStart(i + 1, n);
    forall d | 32 * i <= d < c
      ensures Taken(bits, d)
    {
      assert d / 32 == i;
    }
    FirstClearFrom(bits, 32 * i, c, n);
  }

  // Bitmaps are compared bit by bit.
  lemma SameBits(a: seq<Word>, b: seq<Word>)
    requires |a| == |b| && forall c :: 0 <= c < 32 * |a| ==> Taken(a, c) == Taken(b, c)
    ensures a == b
  {
    forall i | 0 <= i < |a|
      ensures a[i] == b[i]
    {
      forall j | 0 <= j < 32
        ensures a[i][j] == b[i][j]
      {
        Unpack(i, j);
        assert Taken(a, 32 * i + j) == Taken(b, 32 * i + j);
      }
    }
  }

  // ---- Lists of blocks ----

  predicate InMap(bits: seq<Word>, idx: seq<nat>) {
    forall k :: 0 <= k < |idx| ==> idx[k] / 32 < |bits|
  }

  function TakeEach(bits: seq<Word>, idx: seq<nat>): (r: seq<Word>)
    requires InMap(bits, idx)
    ensures |r| == |bits|
  {
    if idx == [] then bits else Take(TakeEach(bits, idx[..|idx| - 1]), idx[|idx| - 1])
  }

  function GiveEach(bits: seq<Word>, idx: seq<nat>): (r: seq<Word>)
    requires InMap(bits, idx)
    ensures |r| == |bits|
  {
    if idx == [] then bits else Give(GiveEach(bits, idx[..|idx| - 1]), idx[|idx| - 1])
  }

  lemma {:induction false} TakeEachIs(bits: seq<Word>, idx: seq<nat>, c: nat)
    requires InMap(bits, idx)
    ensures Taken(TakeEach(bits, idx), c) <==> c in idx || Taken(bits, c)
  {
    if idx != [] {
      var n := |idx| - 1;
      TakeEachIs(bits, idx[..n], c);
      TakeIs(TakeEach(bits, idx[..n]), idx[n], c);
      assert idx == idx[..n] + [idx[n]];
    }
  }

  lemma {:induction false} GiveEachIs(bits: seq<Word>, idx: seq<nat>, c: nat)
    requires InMap(bits, idx)
    ensures Taken(GiveEach(bits, idx), c) <==> c !in idx && Taken(bits, c)
  {
    if idx != [] {
      var n := |idx| - 1;
      GiveEachIs(bits, idx[..n], c);
      GiveIs(GiveEach(bits, idx[..n]), idx[n], c);
      assert idx == idx[..n] + [idx[n]];
    }
  }

  /** Giving back what was taken restores the bitmap. */
  lemma GiveEachBack(bits: seq<Word>, idx: seq<nat>)
    requires InMap(bits, idx) && forall k :: 0 <= k < |idx| ==> !Taken(bits, idx[k])
    ensures GiveEach(TakeEach(bits, idx), idx) == bits
  {
    var t := TakeEach(bits, idx);
    forall c | 0 <= c < 32 * |bits|
      ensures Taken(GiveEach(t, idx), c) == Taken(bits, c)
    {
      GiveEachIs(t, idx, c);
      TakeEachIs(bits, idx, c);
    }
    SameBits(GiveEach(t, idx), bits);
  }

  lemma {:induction false} NoneClear(bits: seq<Word>, n: nat)
    requires forall c :: 0 <= c < n ==> Taken(bits, c)
    ensures Count(bits, n) == n
  {
    if n > 0 { NoneClear(bits, n - 1); }
  }

  /** The search comes back empty only when every block is in use. */
  lemma NoneFound(bits: seq<Word>, n: nat)
    requires FirstClear(bits, 0, n) == n
    ensures Count(bits, n) == n
  {
    forall c | 0 <= c < n
      ensures Taken(bits, c)
    {
      FirstClearIs(bits, 0, n, c);
    }
    NoneClear(bits, n);
  }
}
