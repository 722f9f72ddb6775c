/** GGUF metadata values: a writer for them and the kernel's size computation, `gguf_skip_value`
    (`kernel/llm_gguf.c`, lines 78-130), which has to find its way through everything the writer can produce. */
module Gguf {
  import opened Bytes

  const MAX_ARRAY: nat := 262144
  const STRING: nat := 8
  const ARRAY: nat := 9

  // ---- Bytes at a place ----

  /** `x` stands in `f` from `off` on. */
  ghost predicate Has(f: seq<byte>, off: nat, x: seq<byte>) {
    off + |x| <= |f| && f[off..off + |x|] == x
  }

  lemma HasParts(f: seq<byte>, off: nat, a: seq<byte>, b: seq<byte>)
    requires Has(f, off, a + b)
    ensures Has(f, off, a) && Has(f, off + |a|, b)
  {
    SliceSlice(f, off, off + |a| + |b|, 0, |a|);
    SliceSlice(f, off, off + |a| + |b|, |a|, |a| + |b|);
    assert (a + b)[0..|a|] == a && (a + b)[|a|..|a| + |b|] == b;
  }

  lemma HasLe32(f: seq<byte>, off: nat, v: u32)
    requires Has(f, off, PutLe32(v))
    ensures Le32At(f, off) == v
  {
    var x := PutLe32(v);
    assert x[0..4] == x;
    Le32Local(f, off, x, 0);
  }

  lemma HasLe64(f: seq<byte>, off: nat, v: u64)
    requires Has(f, off, PutLe64(v))
    ensures Le64At(f, off) == v
  {
    var lo, hi := PutLe32(v % WORD), PutLe32(v / WORD);
    assert PutLe64(v) == lo + hi;
    HasParts(f, off, lo, hi);
    HasLe32(f, off, v % WORD);
    HasLe32(f, off + 4, v / WORD);
  }

  // ---- Values and their written form ----

  /** The fixed-size values of the format; floats by their bits, truth values by their byte. */
  datatype Scalar =
    | U8(b: byte) | I8(i: i8) | U16(h: u16) | I16(j: i16) | U32(w: u32) | I32(k: i32) | F32(bits: u32)
    | Bool(on: byte) | U64(d: u64) | I64(l: i64) | F64(wide: u64)

  datatype Value = Fixed(s: Scalar) | Str(text: seq<byte>) | Arr(sub: u32, elems: seq<Value>)

  /** The type number of a value in a file. */
  function TagOf(s: Scalar): (t: u32) {
    match s
    case U8(_) => 0
    case I8(_) => 1
    case U16(_) => 2
    case I16(_) => 3
    case U32(_) => 4
    case I32(_) => 5
    case F32(_) => 6
    case Bool(_) => 7
    case U64(_) => 10
    case I64(_) => 11
    case F64(_) => 12
  }

  /** Little-endian, two's complement. */
  function WriteScalar(s: Scalar): (b: seq<byte>) {
    match s
    case U8(x) => [x]
    case I8(x) => [x % 0x100]
    case U16(x) => PutLe16(x)
    case I16(x) => PutLe16(x % 0x1_0000)
    case U32(x) => PutLe32(x)
    case I32(x) => PutLe32(x % WORD)
    case F32(x) => PutLe32(x)
    case Bool(x) => [x]
    case U64(x) => PutLe64(x)
    case I64(x) => PutLe64(x % WORD64)
    case F64(x) => PutLe64(x)
  }

  /** `gguf_skip_value` for the fixed-size types, 0 for the others. */
  function ScalarSize(ty: nat): (n: nat) {
    if ty == 0 || ty == 1 || ty == 7 then 1
    else if ty == 2 || ty == 3 then 2
    else if ty == 4 || ty == 5 || ty == 6 then 4
    else if ty == 10 || ty == 11 || ty == 12 then 8
    else 0
  }

  function TypeOf(v: Value): (t: u32) {
    match v
    case Fixed(s) => TagOf(s)
    case Str(_) => 8
    case Arr(_, _) => 9
  }

  predicate Valid(v: Value)
    decreases v, 0
  {
    match v
    case Fixed(_) => true
    case Str(text) => |text| < WORD
    case Arr(sub, elems) => |elems| <= 262144 && AllValid(elems, sub)
  }

  /** Array elements are valid and of the array's element type; they may be arrays themselves. */
  predicate AllValid(vs: seq<Value>, sub: nat)
    decreases vs, 1
  {
    vs == [] || (TypeOf(vs[0]) == sub && Valid(vs[0]) && AllValid(vs[1..], sub))
  }

  function Write(v: Value): (b: seq<byte>)
    requires Valid(v)
    decreases v, 0
  {
    match v
    case Fixed(s) => WriteScalar(s)
    case Str(text) => PutLe64(|text|) + text
    case Arr(sub, elems) => PutLe32(sub) + PutLe64(|elems|) + WriteAll(elems, sub)
  }

  function WriteAll(vs: seq<Value>, sub: nat): (b: seq<byte>)
    requires AllValid(vs, sub)
    decreases vs, 1
  {
    if vs == [] then [] else Write(vs[0]) + WriteAll(vs[1..], sub)
  }

  // ---- The size computation ----

  /** `gguf_range_ok`. */
  predicate RangeOk(size: nat, offset: nat, need: nat) {
    offset <= size && need <= size - offset
  }

  /** `gguf_skip_value`: how many bytes the value of type `ty` at `off` takes, unless it is malformed. The size of a
      fixed-size value is reported without looking whether it is all there. */
  function Skip(f: seq<byte>, off: nat, ty: nat): (r: Option<nat>)
    requires off <= |f|
    ensures r.Some? && ScalarSize(ty) == 0 ==> off + r.value <= |f|
    ensures r.Some? ==> r.value > 0
    decreases |f| - off, 0
  {
    if ScalarSize(ty) > 0 then Some(ScalarSize(ty))
    else if ty == STRING then
      if !RangeOk(|f|, off, 8) then None
      else
        var len := Le64At(f, off);
        if len >= WORD || !RangeOk(|f|, off + 8, len) then None else Some(8 + len)
    else if ty == ARRAY then
      if !RangeOk(|f|, off, 12) then None
      else
        var count := Le64At(f, off + 4);
        if count > MAX_ARRAY then None
        else
          match SkipMany(f, off + 12, Le32At(f, off), count)
          case None => None
          case Some(n) => Some(12 + n)
    else None
  }

  /** The element loop: `count` values of type `sub`, each checked to lie inside the file. */
  function SkipMany(f: seq<byte>, off: nat, sub: nat, count: nat): (r: Option<nat>)
    requires off <= |f|
    ensures r.Some? ==> off + r.value <= |f|
    decreases |f| - off, count + 1
  {
    if count == 0 then Some(0)
    else
      match Skip(f, off, sub)
      case None => None
      case Some(n) =>
        if !RangeOk(|f|, off, n) then None
        else
          match SkipMany(f, off + n, sub, count - 1)
          case None => None
          case Some(m) => Some(n + m)
  }

  /** The function as written: recursive, with a loop over array elements. The measure is the number of bytes
      left, so it ends on every input. */
  method SkipValue(f: seq<byte>, off: nat, ty: nat) returns (r: Option<nat>)
    requires off <= |f| < WORD
    ensures r == Skip(f, off, ty)
    decreases |f| - off
  {
    var fixed := ScalarSize(ty);
    if fixed > 0 { return Some(fixed); }
    if ty == STRING {
      if !RangeOk(|f|, off, 8) { return None; }
      var len := Le64At(f, off);
      if len >= WORD { return None; }
      if !RangeOk(|f|, off + 8, len) { return None; }
      return Some(8 + len);
    }
    if ty != ARRAY { return None; }
    if !RangeOk(|f|, off, 12) { return None; }
    var sub, count := Le32At(f, off), Le64At(f, off + 4);
    if count > MAX_ARRAY { return None; }
    var skip := 12;
    var i := 0;
    while i < count
      invariant 0 <= i <= count && 12 <= skip && off + skip <= |f|
      invariant Continues(f, off, sub, count, skip, i)
    {
      var inner := SkipValue(f, off + skip, sub);
      if inner.None? || !RangeOk(|f|, off + skip, inner.value) { return None; }
      skip := skip + inner.value;
      i := i + 1;
    }
    r := Some(skip);
  }

  /** After `i` elements that took `skip - 12` bytes, the loop's answer is that of the rest plus `skip`. */
  ghost predicate Continues(f: seq<byte>, off: nat, sub: nat, count: nat, skip: nat, i: nat)
    requires 12 <= skip && off + skip <= |f| && i <= count
  {
    match SkipMany(f, off + skip, sub, count - i)
    case None => SkipMany(f, off + 12, sub, count).None?
    case Some(n) => SkipMany(f, off + 12, sub, count) == Some(skip - 12 + n)
  }

  // ---- The size computation inverts the writer ----

  /** Wherever a written value stands in a file, its size is found, whatever follows and however deeply arrays nest. */
  lemma {:induction false} SkipWritten(f: seq<byte>, off: nat, v: Value)
    requires Valid(v) && Has(f, off, Write(v))
    ensures ValueSize(f, off, TypeOf(v)) == Some(|Write(v)|)
    decreases v, 0
  {
    match v
    case Fixed(s) =>
      ScalarWritten(s);
    case Str(text) =>
      StringSize(f, off, text);
    case Arr(sub, elems) =>
      ArrayHead(f, off, sub, |elems|, WriteAll(elems, sub));
      SkipManyWritten(f, off + 12, sub, elems);
      ArraySize(f, off, sub, |elems|, |WriteAll(elems, sub)|);
  }

  /** The sizes the kernel assumes are those of the written values. */
  lemma ScalarWritten(s: Scalar)
    ensures ScalarSize(TagOf(s)) == |WriteScalar(s)| > 0
  {
  }

  /** And it knows no other fixed-size types. */
  lemma ScalarsOnly(ty: nat)
    ensures ScalarSize(ty) > 0 ==> exists s :: TagOf(s) == ty
  {
    var all := [U8(0), I8(0), U16(0), I16(0), U32(0), I32(0), F32(0), Bool(0), U64(0), I64(0), F64(0)];
    if i :| 0 <= i < |all| && TagOf(all[i]) == ty {
    } else {
      assert forall i :: 0 <= i < |all| ==> TagOf(all[i]) != ty;
      assert TagOf(all[0]) == 0 && TagOf(all[1]) == 1 && TagOf(all[2]) == 2 && TagOf(all[3]) == 3 && TagOf(all[4]) == 4;
      assert TagOf(all[5]) == 5 && TagOf(all[6]) == 6 && TagOf(all[7]) == 7;
      assert TagOf(all[8]) == 10 && TagOf(all[9]) == 11 && TagOf(all[10]) == 12;
    }
  }

  lemma StringSize(f: seq<byte>, off: nat, text: seq<byte>)
    requires |text| < WORD && Has(f, off, PutLe64(|text|) + text)
    ensures ValueSize(f, off, STRING) == Some(8 + |text|)
  {
    HasParts(f, off, PutLe64(|text|), text);
    HasLe64(f, off, |text|);
  }

  lemma ArraySize(f: seq<byte>, off: nat, sub: u32, count: nat, n: nat)
    requires off + 12 <= |f| && Le32At(f, off) == sub && Le64At(f, off + 4) == count <= MAX_ARRAY
    requires ElementsSize(f, off + 12, sub, count) == Some(n)
    ensures ValueSize(f, off, ARRAY) == Some(12 + n)
  {
  }

  lemma ArrayHead(f: seq<byte>, off: nat, sub: u32, count: u64, body: seq<byte>)
    requires Has(f, off, PutLe32(sub) + PutLe64(count) + body)
    ensures off + 12 <= |f| && Le32At(f, off) == sub && Le64At(f, off + 4) == count && Has(f, off + 12, body)
  {
    HasParts(f, off, PutLe32(sub) + PutLe64(count), body);
    HasParts(f, off, PutLe32(sub), PutLe64(count));
    HasLe32(f, off, sub);
    HasLe64(f, off + 4, count);
  }

  lemma {:induction false} SkipManyWritten(f: seq<byte>, off: nat, sub: nat, vs: seq<Value>)
    requires AllValid(vs, sub) && Has(f, off, WriteAll(vs, sub))
    ensures ElementsSize(f, off, sub, |vs|) == Some(|WriteAll(vs, sub)|)
    decreases vs, 1
  {
    if vs != [] {
      var x, rest := Write(vs[0]), WriteAll(vs[1..], sub);
      HasParts(f, off, x, rest);
      SkipWritten(f, off, vs[0]);
      SkipManyWritten(f, off + |x|, sub, vs[1..]);
      SkipManyStep(f, off, sub, |vs|, |x|, |rest|);
    }
  }

  lemma SkipManyStep(f: seq<byte>, off: nat, sub: nat, count: nat, n: nat, m: nat)
    requires count > 0 && off + n <= |f| && ValueSize(f, off, sub) == Some(n)
    requires ElementsSize(f, off + n, sub, count - 1) == Some(m)
    ensures ElementsSize(f, off, sub, count) == Some(n + m)
  {
  }

  // The same two functions under names the verifier does not unroll on its own.
  function ValueSize(f: seq<byte>, off: nat, ty: nat): Option<nat>
    requires off <= |f|
  {
    Skip(f, off, ty)
  }

  function ElementsSize(f: seq<byte>, off: nat, sub: nat, count: nat): Option<nat>
    requires off <= |f|
  {
    SkipMany(f, off, sub, count)
  }
}
