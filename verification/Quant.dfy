/** Quantised weights: the Q4_0 and Q6_K dequantisers (`kernel/tensor.c`, lines 99-171) and the dot products fused with
    them (`kernel/llm.c`, lines 959-1024), in exact arithmetic. The value of a 16-bit float is a parameter, `f16`;
    `Half` models the decoder. */
module Quant {
  import opened Bytes
  import Half

  // ---- Sums ----

  function Sum(f: nat -> real, lo: nat, hi: nat): real
    decreases hi
  {
    if lo >= hi then 0.0 else Sum(f, lo, hi - 1) + f(hi - 1)
  }

  lemma {:induction false} SumSplit(f: nat -> real, lo: nat, mid: nat, hi: nat)
    requires lo <= mid <= hi
    ensures Sum(f, lo, hi) == Sum(f, lo, mid) + Sum(f, mid, hi)
    decreases hi
  {
    if mid < hi { SumSplit(f, lo, mid, hi - 1); }
  }

  /** Adding up two stretches in step, as the nibbles of a byte are met. */
  function InStep2(f: nat -> real, base: nat, gap: nat, m: nat): real {
    if m == 0 then 0.0 else InStep2(f, base, gap, m - 1) + f(base + m - 1) + f(base + gap + m - 1)
  }

  lemma {:induction false} InStep2Is(f: nat -> real, base: nat, gap: nat, m: nat)
    ensures InStep2(f, base, gap, m) == Sum(f, base, base + m) + Sum(f, base + gap, base + gap + m)
  {
    if m > 0 { InStep2Is(f, base, gap, m - 1); }
  }

  /** Four stretches in step, `gap` apart. */
  function InStep4(f: nat -> real, base: nat, gap: nat, m: nat): real {
    if m == 0 then 0.0
    else InStep4(f, base, gap, m - 1)
         + f(base + m - 1) + f(base + gap + m - 1) + f(base + 2 * gap + m - 1) + f(base + 3 * gap + m - 1)
  }

  lemma {:induction false} InStep4Is(f: nat -> real, base: nat, gap: nat, m: nat)
    ensures InStep4(f, base, gap, m) == Sum(f, base, base + m) + Sum(f, base + gap, base + gap + m)
                                        + Sum(f, base + 2 * gap, base + 2 * gap + m)
                                        + Sum(f, base + 3 * gap, base + 3 * gap + m)
  {
    if m > 0 { InStep4Is(f, base, gap, m - 1); }
  }

  /** The whole block, whatever the order of its parts. */
  lemma Block2(f: nat -> real, base: nat)
    ensures InStep2(f, base, 16, 16) == Sum(f, base, base + 32)
  {
    InStep2Is(f, base, 16, 16);
    SumSplit(f, base, base + 16, base + 32);
  }

  lemma Block4(f: nat -> real, base: nat)
    ensures InStep4(f, base, 32, 32) == Sum(f, base, base + 128)
  {
    InStep4Is(f, base, 32, 32);
    SumSplit(f, base, base + 32, base + 64);
    SumSplit(f, base, base + 64, base + 96);
    SumSplit(f, base, base + 96, base + 128);
  }

  /** The plain dot product. */
  function Dot(a: seq<real>, h: seq<real>, n: nat): real
    requires n <= |a| && n <= |h|
  {
    if n == 0 then 0.0 else Dot(a, h, n - 1) + a[n - 1] * h[n - 1]
  }

  lemma {:induction false} DotIsSum(a: seq<real>, h: seq<real>, n: nat, f: nat -> real)
    requires n <= |a| && n <= |h| && forall k :: 0 <= k < n ==> f(k) == a[k] * h[k]
    ensures Dot(a, h, n) == Sum(f, 0, n)
  {
    if n > 0 { DotIsSum(a, h, n - 1, f); }
  }

  function Tabulate(w: nat -> real, n: nat): (r: seq<real>)
    ensures |r| == n && forall k :: 0 <= k < n ==> r[k] == w(k)
  {
    seq(n, k requires 0 <= k < n => w(k))
  }

  function Products(w: nat -> real, h: seq<real>): nat -> real {
    (k: nat) => if k < |h| then w(k) * h[k] else 0.0
  }

  ghost predicate AreProducts(f: nat -> real, w: nat -> real, h: seq<real>) {
    forall k {:trigger w(k)} :: 0 <= k < |h| ==> f(k) == w(k) * h[k]
  }

  lemma DotOfWeights(w: nat -> real, h: seq<real>, n: nat, f: nat -> real)
    requires n <= |h| && AreProducts(f, w, h)
    ensures Dot(Tabulate(w, n), h, n) == Sum(f, 0, n)
  {
    DotIsSum(Tabulate(w, n), h, n, f);
  }

  // ---- Q4_0: blocks of 18 bytes holding 32 weights ----

  /** A 4-bit weight. */
  function Value4(delta: real, q: int): real {
    delta * (q - 8) as real
  }

  /** Weight `k` of a row: byte `i` of its block holds weight `i` in the low and weight `i + 16` in the high nibble. */
  function Weight4(f16: nat -> real, row: seq<byte>, k: nat): real {
    var b, i := k / 32, k % 32;
    if 18 * b + 18 > |row| then 0.0
    else Value4(f16(Le16At(row, 18 * b)), if i < 16 then row[18 * b + 2 + i] % 16 else row[18 * b + 2 + i - 16] / 16)
  }

  function Weights4(f16: nat -> real, row: seq<byte>): nat -> real {
    (k: nat) => Weight4(f16, row, k)
  }

  ghost predicate Are4(w: nat -> real, f16: nat -> real, row: seq<byte>) {
    forall k: nat {:trigger Weight4(f16, row, k)} :: w(k) == Weight4(f16, row, k)
  }

  lemma Place4(b: nat, i: nat)
    requires i < 32
    ensures (32 * b + i) / 32 == b && (32 * b + i) % 32 == i
  {
  }

  lemma At4(w: nat -> real, f16: nat -> real, row: seq<byte>, b: nat, i: nat)
    requires Are4(w, f16, row) && i < 16 && 18 * b + 18 <= |row|
    ensures w(32 * b + i) == Value4(f16(Le16At(row, 18 * b)), row[18 * b + 2 + i] % 16)
    ensures w(32 * b + i + 16) == Value4(f16(Le16At(row, 18 * b)), row[18 * b + 2 + i] / 16)
  {
    Place4(b, i);
    Place4(b, i + 16);
    assert w(32 * b + i) == Weight4(f16, row, 32 * b + i);
    assert w(32 * b + (i + 16)) == Weight4(f16, row, 32 * b + (i + 16));
  }

  // ---- A block as it is written ----

  ghost predicate Fit4(w: seq<int>) {
    |w| == 32 && forall i :: 0 <= i < 32 ==> -8 <= w[i] < 8
  }

  /** The reference packing: the scale, then 16 bytes with the weights of both halves, each moved up by 8 to be
      non-negative. */
  ghost function Pack4(scale: u16, w: seq<int>): (b: seq<byte>)
    requires Fit4(w)
    ensures |b| == 18
  {
    PutLe16(scale) + seq(16, i requires 0 <= i < 16 => w[i] + 8 + 16 * (w[i + 16] + 8))
  }

  /** Block `b` of the row holds these numbers, packed. */
  ghost predicate Holds4(row: seq<byte>, b: nat, scale: u16, w: seq<int>) {
    Fit4(w) && 18 * b + 18 <= |row| && row[18 * b..18 * b + 18] == Pack4(scale, w)
  }

  /** Weight `i` of a packed block is its scale times the number that was packed. */
  lemma Unpacked4(f16: nat -> real, row: seq<byte>, b: nat, scale: u16, w: seq<int>, i: nat)
    requires Holds4(row, b, scale, w) && i < 32
    ensures Weight4(f16, row, 32 * b + i) == f16(scale) * w[i] as real
  {
    Place4(b, i);
    var x := row[18 * b..18 * b + 18];
    assert row[18 * b] == x[0] == PutLe16(scale)[0] && row[18 * b + 1] == x[1] == PutLe16(scale)[1];
    assert Le16At(row, 18 * b) == Le16At(PutLe16(scale), 0) == scale;
    var j := if i < 16 then i else i - 16;
    assert row[18 * b + 2 + j] == x[2 + j] == w[j] + 8 + 16 * (w[j + 16] + 8);
    Nibbles(w[j] + 8, w[j + 16] + 8);
  }

  lemma Nibbles(low: nat, high: nat)
    requires low < 16 && high < 16
    ensures (low + 16 * high) % 16 == low && (low + 16 * high) / 16 == high
  {
  }

  /** After the first `n` elements have been stored, each exactly once. */
  ghost predicate Filled(w: nat -> real, was: seq<real>, now: seq<real>, writes: seq<nat>, n: nat) {
    && |now| == |was| == |writes| && n <= |now|
    && (forall k :: 0 <= k < |now| ==> now[k] == if k < n then w(k) else was[k])
    && (forall k :: 0 <= k < |now| ==> writes[k] == if k < n then 1 else 0)
  }

  /** `dequantize_q4_0`: every weight of the whole blocks is stored in its place, and each exactly once. */
  method Dequantize4(f16: nat -> real, row: seq<byte>, n: nat, out: array<real>) returns (ghost writes: seq<nat>)
    requires 18 * (n / 32) <= |row| && n / 32 * 32 <= out.Length
    modifies out
    ensures Filled(Weights4(f16, row), old(out[..]), out[..], writes, n / 32 * 32)
  {
    writes := Store4(f16, row, n / 32, out, Weights4(f16, row));
  }

  method Store4(f16: nat -> real, row: seq<byte>, blocks: nat, out: array<real>, ghost w: nat -> real)
    returns (ghost writes: seq<nat>)
    requires Are4(w, f16, row) && 18 * blocks <= |row| && 32 * blocks <= out.Length
    modifies out
    ensures Filled(w, old(out[..]), out[..], writes, 32 * blocks)
  {
    writes := seq(out.Length, k => 0);
    for b := 0 to blocks
      invariant Filled(w, old(out[..]), out[..], writes, 32 * b)
    {
      ghost var now := out[..];
      ghost var more := Block4Out(f16, row, b, out, w);
      FilledMore(w, old(out[..]), now, writes, out[..], more, 32 * b, 32);
      writes := Plus(writes, more);
    }
  }

  /** One block: exactly its elements are stored, each once. */
  ghost predicate Stored(w: nat -> real, was: seq<real>, now: seq<real>, writes: seq<nat>, lo: nat, n: nat) {
    && |now| == |was| == |writes|
    && (forall k :: 0 <= k < |now| ==> now[k] == if lo <= k < lo + n then w(k) else was[k])
    && (forall k :: 0 <= k < |now| ==> writes[k] == if lo <= k < lo + n then 1 else 0)
  }

  ghost function Plus(a: seq<nat>, b: seq<nat>): (c: seq<nat>)
    requires |a| == |b|
    ensures |c| == |a| && forall k :: 0 <= k < |a| ==> c[k] == a[k] + b[k]
  {
    seq(|a|, k requires 0 <= k < |a| => a[k] + b[k])
  }

  lemma FilledMore(w: nat -> real, was: seq<real>, now: seq<real>, writes: seq<nat>, next: seq<real>, more: seq<nat>,
                   lo: nat, n: nat)
    requires Filled(w, was, now, writes, lo) && Stored(w, now, next, more, lo, n) && lo + n <= |now|
    ensures Filled(w, was, next, Plus(writes, more), lo + n)
  {
  }

  method Block4Out(f16: nat -> real, row: seq<byte>, b: nat, out: array<real>, ghost w: nat -> real)
    returns (ghost writes: seq<nat>)
    requires Are4(w, f16, row) && 18 * b + 18 <= |row| && 32 * b + 32 <= out.Length
    modifies out
    ensures Stored(w, old(out[..]), out[..], writes, 32 * b, 32)
  {
    writes := seq(out.Length, k => 0);
    var delta := f16(Le16At(row, 18 * b));
    var i := 0;
    while i < 16
      invariant 0 <= i <= 16 && |writes| == out.Length
      invariant forall k :: 0 <= k < out.Length ==> writes[k] == if Done(32 * b, i, k) then 1 else 0
      invariant forall k :: 0 <= k < out.Length ==> out[k] == if Done(32 * b, i, k) then w(k) else old(out[k])
    {
      var q := row[18 * b + 2 + i] as int;
      At4(w, f16, row, b, i);
      out[32 * b + i] := Value4(delta, q % 16);
      out[32 * b + i + 16] := Value4(delta, q / 16);
      writes := writes[32 * b + i := writes[32 * b + i] + 1];
      writes := writes[32 * b + i + 16 := writes[32 * b + i + 16] + 1];
      i := i + 1;
    }
  }

  /** The elements of the block at `base` stored after `i` bytes. */
  predicate Done(base: nat, i: nat, k: int) {
    base <= k < base + i || base + 16 <= k < base + 16 + i
  }

  lemma Step4(f16: nat -> real, row: seq<byte>, h: seq<real>, b: nat, i: nat, delta: real, w: nat -> real,
              f: nat -> real)
    requires Are4(w, f16, row) && AreProducts(f, w, h) && 18 * b + 18 <= |row| && 32 * b + 32 <= |h| && i < 16
    requires delta == f16(Le16At(row, 18 * b))
    ensures InStep2(f, 32 * b, 16, i + 1)
      == InStep2(f, 32 * b, 16, i) + Value4(delta, row[18 * b + 2 + i] as int % 16) * h[32 * b + i]
         + Value4(delta, row[18 * b + 2 + i] as int / 16) * h[32 * b + i + 16]
  {
    At4(w, f16, row, b, i);
  }

  method BlockDot4(f16: nat -> real, row: seq<byte>, h: seq<real>, b: nat, start: real, ghost w: nat -> real,
                   ghost f: nat -> real)
      returns (logit: real)
    requires Are4(w, f16, row) && AreProducts(f, w, h) && 18 * b + 18 <= |row| && 32 * b + 32 <= |h|
    ensures logit == start + Sum(f, 32 * b, 32 * b + 32)
  {
    logit := start;
    var delta := f16(Le16At(row, 18 * b));
    for i := 0 to 16
      invariant logit == start + InStep2(f, 32 * b, 16, i)
    {
      var q := row[18 * b + 2 + i] as int;
      Step4(f16, row, h, b, i, delta, w, f);
      logit := logit + Value4(delta, q % 16) * h[32 * b + i];
      logit := logit + Value4(delta, q / 16) * h[32 * b + i + 16];
    }
    Block2(f, 32 * b);
  }

  /** `dot_product_q4_0_float`: the dot product with the dequantised row, over its whole blocks. */
  method Dot4(f16: nat -> real, row: seq<byte>, h: seq<real>, n: nat) returns (logit: real)
    requires 18 * (n / 32) <= |row| && n / 32 * 32 <= |h|
    ensures logit == Dot(Tabulate(Weights4(f16, row), n / 32 * 32), h, n / 32 * 32)
  {
    logit := DotWith4(f16, row, h, n / 32, Weights4(f16, row), Products(Weights4(f16, row), h));
  }

  ghost predicate FiniteScales4(row: seq<byte>, blocks: nat)
    requires 18 * blocks <= |row|
  {
    forall b :: 0 <= b < blocks ==> Half.Finite(Le16At(row, 18 * b))
  }

  /** Decoders that keep the value of a 16-bit float give the same weights. */
  lemma SameWeights4(f: nat -> real, g: nat -> real, row: seq<byte>, blocks: nat)
    requires Half.Decodes(f) && Half.Decodes(g) && 18 * blocks <= |row| && FiniteScales4(row, blocks)
    ensures Tabulate(Weights4(f, row), 32 * blocks) == Tabulate(Weights4(g, row), 32 * blocks)
  {
    forall k | 0 <= k < 32 * blocks
      ensures Weights4(f, row)(k) == Weights4(g, row)(k)
    {
      var b := k / 32;
      assert f(Le16At(row, 18 * b)) == g(Le16At(row, 18 * b)) == Half.Value(Le16At(row, 18 * b));
    }
  }

  /** So with any such decoder the fused product is that with the row of true weights. */
  method FusedDot4(f16: nat -> real, row: seq<byte>, h: seq<real>, n: nat) returns (logit: real)
    requires Half.Decodes(f16) && 18 * (n / 32) <= |row| && n / 32 * 32 <= |h|
    ensures FiniteScales4(row, n / 32) ==>
      logit == Dot(Tabulate(Weights4(Half.Exact, row), n / 32 * 32), h, n / 32 * 32)
  {
    logit := Dot4(f16, row, h, n);
    Half.ExactDecodes();
    if FiniteScales4(row, n / 32) { SameWeights4(f16, Half.Exact, row, n / 32); }
  }

  method DotWith4(f16: nat -> real, row: seq<byte>, h: seq<real>, blocks: nat, ghost w: nat -> real,
                  ghost f: nat -> real)
    returns (logit: real)
    requires Are4(w, f16, row) && AreProducts(f, w, h) && 18 * blocks <= |row| && 32 * blocks <= |h|
    ensures logit == Dot(Tabulate(w, 32 * blocks), h, 32 * blocks)
  {
    logit := BlocksDot4(f16, row, h, blocks, w, f);
    DotOfWeights(w, h, 32 * blocks, f);
  }

  method BlocksDot4(f16: nat -> real, row: seq<byte>, h: seq<real>, blocks: nat, ghost w: nat -> real,
                    ghost f: nat -> real)
      returns (logit: real)
    requires Are4(w, f16, row) && AreProducts(f, w, h) && 18 * blocks <= |row| && 32 * blocks <= |h|
    ensures logit == Sum(f, 0, 32 * blocks)
  {
    logit := 0.0;
    for b := 0 to blocks
      invariant logit == Sum(f, 0, 32 * b)
    {
      logit := BlockDot4(f16, row, h, b, logit, w, f);
      SumSplit(f, 0, 32 * b, 32 * b + 32);
    }
  }
}
