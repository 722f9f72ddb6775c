/** Q6_K super-blocks: 210 bytes holding 256 weights, as 128 bytes of low nibbles, 64 bytes of high bit pairs, 16
    signed scales and a 16-bit float (`kernel/tensor.c`, lines 142-171; `kernel/llm.c`, lines 992-1024), in exact
    arithmetic. */
module Quant6 {
  import opened Bytes
  import Half
  import opened Quant

  function Signed(b: byte): int {
    if b < 128 then b else b - 256
  }

  /** The pair of bits number `s` of a byte. */
  function Pair(b: byte, s: nat): (p: nat)
    requires s < 4
    ensures p < 4
  {
    (if s == 0 then b else if s == 1 then b / 4 else if s == 2 then b / 16 else b / 64) % 4
  }

  function Value6(d: real, scale: int, q: int): real {
    d * scale as real * q as real
  }

  /** Bytes a weight is made of: super-block `b`, half of it, quarter `s` of the half, and place `l` in the quarter. */
  function LowByte(b: nat, half: nat, s: nat, l: nat): nat {
    210 * b + 64 * half + l + if s % 2 == 1 then 32 else 0
  }

  function HighByte(b: nat, half: nat, l: nat): nat {
    210 * b + 128 + 32 * half + l
  }

  function ScaleByte(b: nat, half: nat, s: nat, l: nat): nat {
    210 * b + 192 + 8 * half + l / 16 + 2 * s
  }

  function Part(f16: nat -> real, row: seq<byte>, b: nat, half: nat, s: nat, l: nat): real
    requires half < 2 && s < 4 && l < 32 && 210 * b + 210 <= |row|
  {
    var low := row[LowByte(b, half, s, l)] as int;
    var q := (if s < 2 then low % 16 else low / 16) + 16 * Pair(row[HighByte(b, half, l)], s) - 32;
    Value6(f16(Le16At(row, 210 * b + 208)), Signed(row[ScaleByte(b, half, s, l)]), q)
  }

  /** Weight `k` of a row. */
  function Weight6(f16: nat -> real, row: seq<byte>, k: nat): real {
    var b := k / 256;
    if 210 * b + 210 > |row| then 0.0 else Part(f16, row, b, k % 256 / 128, k % 128 / 32, k % 32)
  }

  function Weights6(f16: nat -> real, row: seq<byte>): nat -> real {
    (k: nat) => Weight6(f16, row, k)
  }

  ghost predicate Are6(w: nat -> real, f16: nat -> real, row: seq<byte>) {
    forall k: nat {:trigger Weight6(f16, row, k)} :: w(k) == Weight6(f16, row, k)
  }

  lemma Split256(b: nat, r: nat)
    requires r < 256
    ensures (256 * b + r) / 256 == b && (256 * b + r) % 256 == r
  {
  }

  lemma Split128(b: nat, r: nat)
    requires r < 128
    ensures (128 * b + r) / 128 == b && (128 * b + r) % 128 == r
  {
  }

  lemma Split32(b: nat, r: nat)
    requires r < 32
    ensures (32 * b + r) / 32 == b && (32 * b + r) % 32 == r
  {
  }

  lemma Place6(b: nat, half: nat, s: nat, l: nat, k: nat)
    requires half < 2 && s < 4 && l < 32 && k == 256 * b + 128 * half + 32 * s + l
    ensures k / 256 == b && k % 256 / 128 == half && k % 128 / 32 == s && k % 32 == l
  {
    Split256(b, 128 * half + 32 * s + l);
    Split128(half, 32 * s + l);
    Split128(2 * b + half, 32 * s + l);
    Split32(s, l);
    Split32(8 * b + 4 * half + s, l);
  }

  lemma At6(w: nat -> real, f16: nat -> real, row: seq<byte>, b: nat, half: nat, s: nat, l: nat, k: nat)
    requires Are6(w, f16, row) && half < 2 && s < 4 && l < 32 && 210 * b + 210 <= |row|
    requires k == 256 * b + 128 * half + 32 * s + l
    ensures w(k) == Part(f16, row, b, half, s, l)
  {
    Place6(b, half, s, l, k);
    assert w(k) == Weight6(f16, row, k);
  }

  // ---- A super-block as it is written ----

  ghost predicate Fit6(scales: seq<int>, w: seq<int>) {
    && |scales| == 16 && (forall j :: 0 <= j < 16 ==> -128 <= scales[j] < 128)
    && |w| == 256 && forall k :: 0 <= k < 256 ==> -32 <= w[k] < 32
  }

  /** The weights are packed with 32 added, as 6-bit numbers. Each half is four quarters of 32: the first two give the
      low nibbles of 64 bytes, the last two the high ones, and the remaining pairs of bits of all four share 32 bytes.
      */
  ghost predicate Holds6(row: seq<byte>, b: nat, scale: u16, scales: seq<int>, w: seq<int>) {
    && Fit6(scales, w) && 210 * b + 210 <= |row|
    && (forall half, l {:trigger Low6(row, b, w, half, l)} :: 0 <= half < 2 && 0 <= l < 32 ==> Low6(row, b, w, half, l))
    && (forall half, l {:trigger High6(row, b, w, half, l)} ::
          0 <= half < 2 && 0 <= l < 32 ==> High6(row, b, w, half, l))
    && (forall j :: 0 <= j < 16 ==> row[210 * b + 192 + j] as int == scales[j] % 256)
    && row[210 * b + 208..210 * b + 210] == PutLe16(scale)
  }

  ghost predicate Low6(row: seq<byte>, b: nat, w: seq<int>, half: nat, l: nat)
    requires |w| == 256 && half < 2 && l < 32 && 210 * b + 210 <= |row|
  {
    var k := 128 * half + l;
    && row[210 * b + 64 * half + l] as int == (w[k] + 32) % 16 + 16 * ((w[k + 64] + 32) % 16)
    && row[210 * b + 64 * half + 32 + l] as int == (w[k + 32] + 32) % 16 + 16 * ((w[k + 96] + 32) % 16)
  }

  ghost predicate High6(row: seq<byte>, b: nat, w: seq<int>, half: nat, l: nat)
    requires |w| == 256 && half < 2 && l < 32 && 210 * b + 210 <= |row|
  {
    var k := 128 * half + l;
    row[210 * b + 128 + 32 * half + l] as int ==
      (w[k] + 32) / 16 + 4 * ((w[k + 32] + 32) / 16) + 16 * ((w[k + 64] + 32) / 16) + 64 * ((w[k + 96] + 32) / 16)
  }

  /** Weight `k` of a packed super-block is its scale, times the scale of its sixteen, times the number packed. */
  lemma Unpacked6(f16: nat -> real, row: seq<byte>, b: nat, scale: u16, scales: seq<int>, w: seq<int>, k: nat)
    requires Holds6(row, b, scale, scales, w) && k < 256
    ensures Weight6(f16, row, 256 * b + k) == f16(scale) * scales[k / 16] as real * w[k] as real
  {
    var half, s, l := Coordinates(k);
    WeightPart(f16, row, b, half, s, l, 256 * b + k);
    PartIs(f16, row, b, scale, scales, w, half, s, l, k / 16, k);
  }

  lemma WeightPart(f16: nat -> real, row: seq<byte>, b: nat, half: nat, s: nat, l: nat, k: nat)
    requires half < 2 && s < 4 && l < 32 && k == 256 * b + 128 * half + 32 * s + l && 210 * b + 210 <= |row|
    ensures Weight6(f16, row, k) == Part(f16, row, b, half, s, l)
  {
    Place6(b, half, s, l, k);
  }

  lemma Coordinates(k: nat) returns (half: nat, s: nat, l: nat)
    requires k < 256
    ensures half < 2 && s < 4 && l < 32 && k == 128 * half + 32 * s + l && k / 16 == 8 * half + 2 * s + l / 16
  {
    half, s, l := k / 128, k % 128 / 32, k % 32;
  }

  lemma PartIs(f16: nat -> real, row: seq<byte>, b: nat, scale: u16, scales: seq<int>, w: seq<int>, half: nat, s: nat,
               l: nat, j: nat, k: nat)
    requires Holds6(row, b, scale, scales, w) && half < 2 && s < 4 && l < 32
    requires j == 8 * half + 2 * s + l / 16 && k == 128 * half + 32 * s + l
    ensures Part(f16, row, b, half, s, l) == Value6(f16(scale), scales[j], w[k])
  {
    ScaleIs(row, b, scale, scales, w);
    SubScaleIs(row, b, scale, scales, w, half, s, l);
    QuarterIs(row, b, scale, scales, w, half, s, l);
  }

  lemma SubScaleIs(row: seq<byte>, b: nat, scale: u16, scales: seq<int>, w: seq<int>, half: nat, s: nat, l: nat)
    requires Holds6(row, b, scale, scales, w) && half < 2 && s < 4 && l < 32
    ensures Signed(row[ScaleByte(b, half, s, l)]) == scales[8 * half + 2 * s + l / 16]
  {
    var j := 8 * half + 2 * s + l / 16;
    assert ScaleByte(b, half, s, l) == 210 * b + 192 + j;
    assert row[210 * b + 192 + j] as int == scales[j] % 256;
    TwosComplement(scales[j]);
  }

  lemma QuarterIs(row: seq<byte>, b: nat, scale: u16, scales: seq<int>, w: seq<int>, half: nat, s: nat, l: nat)
    requires Holds6(row, b, scale, scales, w) && half < 2 && s < 4 && l < 32
    ensures var low := row[LowByte(b, half, s, l)] as int;
            (if s < 2 then low % 16 else low / 16) + 16 * Pair(row[HighByte(b, half, l)], s) - 32
              == w[128 * half + 32 * s + l]
  {
    if s % 2 == 0 {
      EvenQuarter(row, b, scale, scales, w, half, s, l);
    } else {
      OddQuarter(row, b, scale, scales, w, half, s, l);
    }
  }

  lemma ScaleIs(row: seq<byte>, b: nat, scale: u16, scales: seq<int>, w: seq<int>)
    requires Holds6(row, b, scale, scales, w)
    ensures Le16At(row, 210 * b + 208) == scale
  {
    var x := row[210 * b + 208..210 * b + 210];
    assert row[210 * b + 208] == x[0] && row[210 * b + 209] == x[1];
  }

  lemma TwosComplement(x: int)
    requires -128 <= x < 128
    ensures Signed(x % 256) == x
  {
  }

  /** The 6-bit number put together from its two parts. */
  lemma EvenQuarter(row: seq<byte>, b: nat, scale: u16, scales: seq<int>, w: seq<int>, half: nat, s: nat, l: nat)
    requires Holds6(row, b, scale, scales, w) && half < 2 && s < 4 && l < 32 && s % 2 == 0
    ensures var low := row[LowByte(b, half, s, l)] as int;
            (if s < 2 then low % 16 else low / 16) + 16 * Pair(row[HighByte(b, half, l)], s) - 32
              == w[128 * half + 32 * s + l]
  {
    var k := 128 * half + l;
    assert Low6(row, b, w, half, l) && High6(row, b, w, half, l);
    Nibbles((w[k] + 32) % 16, (w[k + 64] + 32) % 16);
    Pairs((w[k] + 32) / 16, (w[k + 32] + 32) / 16, (w[k + 64] + 32) / 16, (w[k + 96] + 32) / 16);
  }

  lemma OddQuarter(row: seq<byte>, b: nat, scale: u16, scales: seq<int>, w: seq<int>, half: nat, s: nat, l: nat)
    requires Holds6(row, b, scale, scales, w) && half < 2 && s < 4 && l < 32 && s % 2 == 1
    ensures var low := row[LowByte(b, half, s, l)] as int;
            (if s < 2 then low % 16 else low / 16) + 16 * Pair(row[HighByte(b, half, l)], s) - 32
              == w[128 * half + 32 * s + l]
  {
    var k := 128 * half + l;
    assert Low6(row, b, w, half, l) && High6(row, b, w, half, l);
    Nibbles((w[k + 32] + 32) % 16, (w[k + 96] + 32) % 16);
    Pairs((w[k] + 32) / 16, (w[k + 32] + 32) / 16, (w[k + 64] + 32) / 16, (w[k + 96] + 32) / 16);
  }

  lemma Pairs(a: nat, b: nat, c: nat, d: nat)
    requires a < 4 && b < 4 && c < 4 && d < 4
    ensures var x := a + 4 * b + 16 * c + 64 * d;
            x < 256 && Pair(x, 0) == a && Pair(x, 1) == b && Pair(x, 2) == c && Pair(x, 3) == d
  {
    var x := a + 4 * b + 16 * c + 64 * d;
    assert x / 4 == b + 4 * c + 16 * d && x / 16 == c + 4 * d && x / 64 == d;
  }

  /** One weight from the bytes at hand. */
  method Quarter(f16: nat -> real, row: seq<byte>, b: nat, half: nat, s: nat, l: nat, d: real, low: int, high: byte,
                 scale: byte, ghost w: nat -> real)
    returns (y: real)
    requires Are6(w, f16, row) && half < 2 && s < 4 && l < 32 && 210 * b + 210 <= |row|
    requires d == f16(Le16At(row, 210 * b + 208)) && low == row[LowByte(b, half, s, l)]
    requires high == row[HighByte(b, half, l)] && scale == row[ScaleByte(b, half, s, l)]
    ensures y == w(256 * b + 128 * half + 32 * s + l)
  {
    At6(w, f16, row, b, half, s, l, 256 * b + 128 * half + 32 * s + l);
    y := Value6(d, Signed(scale), (if s < 2 then low % 16 else low / 16) + 16 * Pair(high, s) - 32);
  }

  /** The four weights met at place `l` of a half. */
  method Four(f16: nat -> real, row: seq<byte>, b: nat, half: nat, l: nat, ghost w: nat -> real)
    returns (y1: real, y2: real, y3: real, y4: real)
    requires Are6(w, f16, row) && half < 2 && l < 32 && 210 * b + 210 <= |row|
    ensures var base := 256 * b + 128 * half + l;
            y1 == w(base) && y2 == w(base + 32) && y3 == w(base + 64) && y4 == w(base + 96)
  {
    var ql, qh, sc := 210 * b + 64 * half, 210 * b + 128 + 32 * half, 210 * b + 192 + 8 * half;
    var d := f16(Le16At(row, 210 * b + 208));
    var a, c, high, s := row[ql + l] as int, row[ql + l + 32] as int, row[qh + l], l / 16;
    y1 := Quarter(f16, row, b, half, 0, l, d, a, high, row[sc + s], w);
    y2 := Quarter(f16, row, b, half, 1, l, d, c, high, row[sc + s + 2], w);
    y3 := Quarter(f16, row, b, half, 2, l, d, a, high, row[sc + s + 4], w);
    y4 := Quarter(f16, row, b, half, 3, l, d, c, high, row[sc + s + 6], w);
  }

  // ---- Dequantising ----

  /** The elements of the half at `base` stored after `l` places. */
  predicate Done4(base: nat, l: nat, k: int) {
    || base <= k < base + l || base + 32 <= k < base + 32 + l
    || base + 64 <= k < base + 64 + l || base + 96 <= k < base + 96 + l
  }

  // One more write at four places.
  ghost function BumpFour(writes: seq<nat>, p: nat): (r: seq<nat>)
    requires p + 96 < |writes|
    ensures |r| == |writes|
    ensures forall k :: 0 <= k < |r| ==>
      r[k] == writes[k] + if k == p || k == p + 32 || k == p + 64 || k == p + 96 then 1 else 0
  {
    writes[p := writes[p] + 1][p + 32 := writes[p + 32] + 1][p + 64 := writes[p + 64] + 1][p + 96 := writes[p + 96] + 1]
  }

  method HalfOut(f16: nat -> real, row: seq<byte>, b: nat, half: nat, out: array<real>, ghost w: nat -> real)
    returns (ghost writes: seq<nat>)
    requires Are6(w, f16, row) && half < 2 && 210 * b + 210 <= |row| && 256 * b + 256 <= out.Length
    modifies out
    ensures Stored(w, old(out[..]), out[..], writes, 256 * b + 128 * half, 128)
  {
    writes := seq(out.Length, k => 0);
    var base := 256 * b + 128 * half;
    var l := 0;
    while l < 32
      invariant 0 <= l <= 32 && HalfDone(w, old(out[..]), out[..], writes, base, l)
    {
      ghost var now := out[..];
      var y1, y2, y3, y4 := Four(f16, row, b, half, l, w);
      out[base + l], out[base + l + 32], out[base + l + 64], out[base + l + 96] := y1, y2, y3, y4;
      HalfNext(w, old(out[..]), now, writes, base, l, out[..]);
      writes := BumpFour(writes, base + l);
      l := l + 1;
    }
    HalfAll(w, old(out[..]), out[..], writes, base);
  }

  /** The places up to `l` of the half at `base` have been stored, each once. */
  ghost predicate HalfDone(w: nat -> real, o0: seq<real>, o: seq<real>, writes: seq<nat>, base: nat, l: nat) {
    && |writes| == |o| == |o0| && base + 128 <= |o|
    && (forall k :: 0 <= k < |o| ==> writes[k] == if Done4(base, l, k) then 1 else 0)
    && (forall k :: 0 <= k < |o| ==> o[k] == if Done4(base, l, k) then w(k) else o0[k])
  }

  lemma HalfNext(w: nat -> real, o0: seq<real>, o: seq<real>, writes: seq<nat>, base: nat, l: nat, o': seq<real>)
    requires HalfDone(w, o0, o, writes, base, l) && l < 32
    requires var p := base + l;
             o' == o[p := w(p)][p + 32 := w(p + 32)][p + 64 := w(p + 64)][p + 96 := w(p + 96)]
    ensures HalfDone(w, o0, o', BumpFour(writes, base + l), base, l + 1)
  {
  }

  lemma HalfAll(w: nat -> real, o0: seq<real>, o: seq<real>, writes: seq<nat>, base: nat)
    requires HalfDone(w, o0, o, writes, base, 32)
    ensures Stored(w, o0, o, writes, base, 128)
  {
  }

  method Store6(f16: nat -> real, row: seq<byte>, blocks: nat, out: array<real>, ghost w: nat -> real)
    returns (ghost writes: seq<nat>)
    requires Are6(w, f16, row) && 210 * blocks <= |row| && 256 * blocks <= out.Length
    modifies out
    ensures Filled(w, old(out[..]), out[..], writes, 256 * blocks)
  {
    writes := seq(out.Length, k => 0);
    for b := 0 to blocks
      invariant Filled(w, old(out[..]), out[..], writes, 256 * b)
    {
      for half := 0 to 2
        invariant Filled(w, old(out[..]), out[..], writes, 256 * b + 128 * half)
      {
        ghost var now := out[..];
        ghost var more := HalfOut(f16, row, b, half, out, w);
        FilledMore(w, old(out[..]), now, writes, out[..], more, 256 * b + 128 * half, 128);
        writes := Plus(writes, more);
      }
    }
  }

  /** `dequantize_q6_k`: every weight of the whole super-blocks is stored in its place, and each exactly once. */
  method Dequantize6(f16: nat -> real, row: seq<byte>, n: nat, out: array<real>) returns (ghost writes: seq<nat>)
    requires 210 * (n / 256) <= |row| && n / 256 * 256 <= out.Length
    modifies out
    ensures Filled(Weights6(f16, row), old(out[..]), out[..], writes, n / 256 * 256)
  {
    writes := Store6(f16, row, n / 256, out, Weights6(f16, row));
  }

  // ---- The fused dot product ----

  method HalfDot(f16: nat -> real, row: seq<byte>, h: seq<real>, b: nat, half: nat, start: real, ghost w: nat -> real,
                 ghost f: nat -> real)
      returns (logit: real)
    requires Are6(w, f16, row) && AreProducts(f, w, h) && half < 2 && 210 * b + 210 <= |row| && 256 * b + 256 <= |h|
    ensures logit == start + Sum(f, 256 * b + 128 * half, 256 * b + 128 * half + 128)
  {
    logit := start;
    var base := 256 * b + 128 * half;
    for l := 0 to 32
      invariant logit == start + InStep4(f, base, 32, l)
    {
      logit := FourDot(f16, row, h, b, half, l, logit, w, f);
    }
    Block4(f, base);
  }

  method FourDot(f16: nat -> real, row: seq<byte>, h: seq<real>, b: nat, half: nat, l: nat, start: real,
                 ghost w: nat -> real, ghost f: nat -> real)
      returns (logit: real)
    requires Are6(w, f16, row) && AreProducts(f, w, h) && half < 2 && l < 32
    requires 210 * b + 210 <= |row| && 256 * b + 256 <= |h|
    ensures var p := 256 * b + 128 * half + l; logit == start + f(p) + f(p + 32) + f(p + 64) + f(p + 96)
  {
    var p := 256 * b + 128 * half + l;
    var y1, y2, y3, y4 := Four(f16, row, b, half, l, w);
    logit := start + y1 * h[p];
    logit := logit + y2 * h[p + 32];
    logit := logit + y3 * h[p + 64];
    logit := logit + y4 * h[p + 96];
  }

  method BlocksDot6(f16: nat -> real, row: seq<byte>, h: seq<real>, blocks: nat, ghost w: nat -> real,
                    ghost f: nat -> real)
      returns (logit: real)
    requires Are6(w, f16, row) && AreProducts(f, w, h) && 210 * blocks <= |row| && 256 * blocks <= |h|
    ensures logit == Sum(f, 0, 256 * blocks)
  {
    logit := 0.0;
    for b := 0 to blocks
      invariant logit == Sum(f, 0, 256 * b)
    {
      for half := 0 to 2
        invariant logit == Sum(f, 0, 256 * b + 128 * half)
      {
        logit := HalfDot(f16, row, h, b, half, logit, w, f);
        SumSplit(f, 0, 256 * b + 128 * half, 256 * b + 128 * half + 128);
      }
    }
  }

  /** `dot_product_q6_k_float`: the dot product with the dequantised row, over its whole super-blocks. */
  method Dot6(f16: nat -> real, row: seq<byte>, h: seq<real>, n: nat) returns (logit: real)
    requires 210 * (n / 256) <= |row| && n / 256 * 256 <= |h|
    ensures logit == Dot(Tabulate(Weights6(f16, row), n / 256 * 256), h, n / 256 * 256)
  {
    ghost var w := Weights6(f16, row);
    logit := DotWith6(f16, row, h, n / 256, w, Products(w, h));
  }

  ghost predicate FiniteScales6(row: seq<byte>, blocks: nat)
    requires 210 * blocks <= |row|
  {
    forall b :: 0 <= b < blocks ==> Half.Finite(Le16At(row, 210 * b + 208))
  }

  /** Decoders that keep the value of a 16-bit float give the same weights. */
  lemma SameWeights6(f: nat -> real, g: nat -> real, row: seq<byte>, blocks: nat)
    requires Half.Decodes(f) && Half.Decodes(g) && 210 * blocks <= |row| && FiniteScales6(row, blocks)
    ensures Tabulate(Weights6(f, row), 256 * blocks) == Tabulate(Weights6(g, row), 256 * blocks)
  {
    forall k | 0 <= k < 256 * blocks
      ensures Weights6(f, row)(k) == Weights6(g, row)(k)
    {
      var b := k / 256;
      assert f(Le16At(row, 210 * b + 208)) == g(Le16At(row, 210 * b + 208)) == Half.Value(Le16At(row, 210 * b + 208));
    }
  }

  /** So with any such decoder the fused product is that with the row of true weights. */
  method FusedDot6(f16: nat -> real, row: seq<byte>, h: seq<real>, n: nat) returns (logit: real)
    requires Half.Decodes(f16) && 210 * (n / 256) <= |row| && n / 256 * 256 <= |h|
    ensures FiniteScales6(row, n / 256) ==>
      logit == Dot(Tabulate(Weights6(Half.Exact, row), n / 256 * 256), h, n / 256 * 256)
  {
    logit := Dot6(f16, row, h, n);
    Half.ExactDecodes();
    if FiniteScales6(row, n / 256) { SameWeights6(f16, Half.Exact, row, n / 256); }
  }

  method DotWith6(f16: nat -> real, row: seq<byte>, h: seq<real>, blocks: nat, ghost w: nat -> real,
                  ghost f: nat -> real)
    returns (logit: real)
    requires Are6(w, f16, row) && AreProducts(f, w, h) && 210 * blocks <= |row| && 256 * blocks <= |h|
    ensures logit == Dot(Tabulate(w, 256 * blocks), h, 256 * blocks)
  {
    logit := BlocksDot6(f16, row, h, blocks, w, f);
    DotOfWeights(w, h, 256 * blocks, f);
  }
}
