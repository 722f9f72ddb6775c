/** The converse of writing: whatever the size computation and the probe accept (`kernel/llm_gguf.c`, lines 78-130 and
    202-291), the reference writer has a description of. So the files accepted are exactly the written ones. */
module GgufExact {
  import opened Bytes
  import opened Gguf
  import opened GgufFile

  // ---- Words ----

  lemma HasJoin(f: seq<byte>, off: nat, a: seq<byte>, b: seq<byte>)
    requires Has(f, off, a) && Has(f, off + |a|, b)
    ensures Has(f, off, a + b)
  {
    assert f[off..off + |a| + |b|] == f[off..off + |a|] + f[off + |a|..off + |a| + |b|];
  }

  lemma Digits(a: byte, b: byte, c: byte, d: byte, v: nat)
    requires v == a as int + 0x100 * (b as int) + 0x1_0000 * (c as int) + 0x100_0000 * (d as int)
    ensures v % 0x100 == a && v / 0x100 % 0x100 == b && v / 0x1_0000 % 0x100 == c && v / 0x100_0000 == d
  {
    var y, z := b as int + 0x100 * (c as int) + 0x1_0000 * (d as int), c as int + 0x100 * (d as int);
    assert v == a as int + 0x100 * y && y == b as int + 0x100 * z;
    assert v / 0x100 == y && y / 0x100 == z;
    assert v / 0x1_0000 == z && z / 0x100 == d;
  }

  lemma Half16(f: seq<byte>, o: nat)
    requires o + 2 <= |f|
    ensures Has(f, o, PutLe16(Le16At(f, o)))
  {
    var v, a, b := Le16At(f, o) as int, f[o] as int, f[o + 1] as int;
    assert v == a + 0x100 * b;
    assert v % 0x100 == a && v / 0x100 == b;
    assert f[o..o + 2] == [f[o], f[o + 1]];
  }

  lemma Word32(f: seq<byte>, o: nat)
    requires o + 4 <= |f|
    ensures Has(f, o, PutLe32(Le32At(f, o)))
  {
    Digits(f[o], f[o + 1], f[o + 2], f[o + 3], Le32At(f, o));
    assert f[o..o + 4] == [f[o], f[o + 1], f[o + 2], f[o + 3]];
  }

  lemma Word64(f: seq<byte>, o: nat)
    requires o + 8 <= |f|
    ensures Has(f, o, PutLe64(Le64At(f, o)))
  {
    var lo, hi := Le32At(f, o), Le32At(f, o + 4);
    Word32(f, o);
    Word32(f, o + 4);
    HasJoin(f, o, PutLe32(lo), PutLe32(hi));
    Halves(lo, hi);
  }

  lemma Halves(lo: u32, hi: u32)
    ensures (lo as int + WORD * (hi as int)) % WORD == lo && (lo as int + WORD * (hi as int)) / WORD == hi
  {
  }

  // ---- Values ----

  lemma ScalarRead(f: seq<byte>, off: nat, ty: nat) returns (s: Scalar)
    requires ScalarSize(ty) > 0 && off + ScalarSize(ty) <= |f|
    ensures TagOf(s) == ty && Has(f, off, WriteScalar(s))
  {
    if ScalarSize(ty) == 1 {
      s := ByteRead(f, off, ty);
    } else if ScalarSize(ty) == 2 {
      s := HalfRead(f, off, ty);
    } else if ScalarSize(ty) == 4 {
      s := WordRead(f, off, ty);
    } else {
      s := LongRead(f, off, ty);
    }
  }

  lemma ByteRead(f: seq<byte>, off: nat, ty: nat) returns (s: Scalar)
    requires (ty == 0 || ty == 1 || ty == 7) && off + 1 <= |f|
    ensures TagOf(s) == ty && Has(f, off, WriteScalar(s))
  {
    var x := f[off] as int;
    s := if ty == 0 then U8(x) else if ty == 1 then I8(if x < 0x80 then x else x - 0x100) else Bool(x);
    assert f[off..off + 1] == [x];
  }

  lemma HalfRead(f: seq<byte>, off: nat, ty: nat) returns (s: Scalar)
    requires (ty == 2 || ty == 3) && off + 2 <= |f|
    ensures TagOf(s) == ty && Has(f, off, WriteScalar(s))
  {
    s := HalfFor(Le16At(f, off), ty);
    Half16(f, off);
  }

  lemma HalfFor(x: u16, ty: nat) returns (s: Scalar)
    requires ty == 2 || ty == 3
    ensures TagOf(s) == ty && WriteScalar(s) == PutLe16(x)
  {
    var y: i16 := if x < 0x8000 then x else x as int - 0x1_0000;
    assert y as int % 0x1_0000 == x;
    s := if ty == 2 then U16(x) else I16(y);
  }

  lemma WordRead(f: seq<byte>, off: nat, ty: nat) returns (s: Scalar)
    requires (ty == 4 || ty == 5 || ty == 6) && off + 4 <= |f|
    ensures TagOf(s) == ty && Has(f, off, WriteScalar(s))
  {
    s := WordFor(Le32At(f, off), ty);
    Word32(f, off);
  }

  lemma WordFor(x: u32, ty: nat) returns (s: Scalar)
    requires ty == 4 || ty == 5 || ty == 6
    ensures TagOf(s) == ty && WriteScalar(s) == PutLe32(x)
  {
    var y: i32 := if x < 0x8000_0000 then x else x as int - 0x1_0000_0000;
    assert y as int % WORD == x;
    s := if ty == 4 then U32(x) else if ty == 5 then I32(y) else F32(x);
  }

  lemma LongRead(f: seq<byte>, off: nat, ty: nat) returns (s: Scalar)
    requires (ty == 10 || ty == 11 || ty == 12) && off + 8 <= |f|
    ensures TagOf(s) == ty && Has(f, off, WriteScalar(s))
  {
    s := LongFor(Le64At(f, off), ty);
    Word64(f, off);
  }

  lemma LongFor(x: u64, ty: nat) returns (s: Scalar)
    requires ty == 10 || ty == 11 || ty == 12
    ensures TagOf(s) == ty && WriteScalar(s) == PutLe64(x)
  {
    var y: i64 := if x < 0x8000_0000_0000_0000 then x else x as int - 0x1_0000_0000_0000_0000;
    assert y as int % WORD64 == x;
    s := if ty == 10 then U64(x) else if ty == 11 then I64(y) else F64(x);
  }

  /** A value whose size is found, and that is all there, has been written, however deeply arrays nest in it. */
  lemma {:induction false} ValueRead(f: seq<byte>, off: nat, ty: nat, n: nat) returns (v: Value)
    requires off + n <= |f| && ValueSize(f, off, ty) == Some(n)
    ensures Valid(v) && TypeOf(v) == ty && Has(f, off, Write(v)) && |Write(v)| == n
    decreases |f| - off, 0
  {
    if ScalarSize(ty) > 0 {
      var s := ScalarRead(f, off, ty);
      ScalarWritten(s);
      v := Fixed(s);
    } else if ty == 8 {
      v := StringRead(f, off, n);
    } else {
      var sub, count := Le32At(f, off), Le64At(f, off + 4);
      var vs := ElementsRead(f, off + 12, sub, count, n - 12);
      v := ArrayRead(f, off, sub, vs);
    }
  }

  lemma StringRead(f: seq<byte>, off: nat, n: nat) returns (v: Value)
    requires off + n <= |f| && ValueSize(f, off, 8) == Some(n)
    ensures Valid(v) && TypeOf(v) == 8 && Has(f, off, Write(v)) && |Write(v)| == n
  {
    var text := f[off + 8..off + n];
    Word64(f, off);
    HasJoin(f, off, PutLe64(|text|), text);
    v := Str(text);
  }

  lemma ArrayRead(f: seq<byte>, off: nat, sub: u32, vs: seq<Value>) returns (v: Value)
    requires off + 12 <= |f| && Le32At(f, off) == sub && Le64At(f, off + 4) == |vs| <= 262144
    requires AllValid(vs, sub) && Has(f, off + 12, WriteAll(vs, sub))
    ensures Valid(v) && TypeOf(v) == 9 && Has(f, off, Write(v)) && |Write(v)| == 12 + |WriteAll(vs, sub)|
  {
    Word32(f, off);
    Word64(f, off + 4);
    HasJoin(f, off, PutLe32(sub), PutLe64(|vs|));
    HasJoin(f, off, PutLe32(sub) + PutLe64(|vs|), WriteAll(vs, sub));
    v := Arr(sub, vs);
  }

  lemma {:induction false} ElementsRead(f: seq<byte>, off: nat, sub: nat, count: nat, n: nat) returns (vs: seq<Value>)
    requires off <= |f| && ElementsSize(f, off, sub, count) == Some(n)
    ensures |vs| == count && ElementsAt(f, off, vs, sub, n)
    decreases |f| - off, count + 1
  {
    if count == 0 {
      vs := [];
    } else {
      var k := ElementSize(f, off, sub, count, n);
      var v := ValueRead(f, off, sub, k);
      var rest := ElementsRead(f, off + k, sub, count - 1, n - k);
      vs := ElementJoined(f, off, v, rest, sub, k, n);
    }
  }

  lemma ElementSize(f: seq<byte>, off: nat, sub: nat, count: nat, n: nat) returns (k: nat)
    requires off <= |f| && count > 0 && ElementsSize(f, off, sub, count) == Some(n)
    ensures 0 < k <= n && off + k <= |f| && ValueSize(f, off, sub) == Some(k)
    ensures ElementsSize(f, off + k, sub, count - 1) == Some(n - k)
  {
    k := ValueSize(f, off, sub).value;
  }

  ghost predicate ElementsAt(f: seq<byte>, off: nat, vs: seq<Value>, sub: nat, n: nat) {
    AllValid(vs, sub) && Has(f, off, WriteAll(vs, sub)) && |WriteAll(vs, sub)| == n
  }

  lemma ElementJoined(f: seq<byte>, off: nat, v: Value, rest: seq<Value>, sub: nat, k: nat, n: nat)
    returns (vs: seq<Value>)
    requires Valid(v) && TypeOf(v) == sub && Has(f, off, Write(v)) && |Write(v)| == k <= n
    requires ElementsAt(f, off + k, rest, sub, n - k)
    ensures |vs| == |rest| + 1 && ElementsAt(f, off, vs, sub, n)
  {
    vs := [v] + rest;
    assert vs[1..] == rest;
    HasJoin(f, off, Write(v), WriteAll(rest, sub));
  }

  // ---- Tables ----

  lemma EntryRead(f: seq<byte>, p: nat, q: nat) returns (e: Entry)
    requires SkipEntry(f, p) == Some(q)
    ensures EntryOk(e) && Has(f, p, WriteEntry(e)) && q == p + |WriteEntry(e)|
  {
    var keyLen := Le64At(f, p);
    var at := p + 8 + keyLen + 4;
    var key, ty := f[p + 8..p + 8 + keyLen], Le32At(f, p + 8 + keyLen);
    var v := ValueRead(f, at, ty, q - at);
    e := Entry(key, v);
    Word64(f, p);
    Word32(f, p + 8 + keyLen);
    HasJoin(f, p + 8 + keyLen, PutLe32(ty), Write(v));
    HasJoin(f, p + 8, key, PutLe32(ty) + Write(v));
    HasJoin(f, p, PutLe64(|key|), key + (PutLe32(ty) + Write(v)));
  }

  lemma {:induction false} EntriesRead(f: seq<byte>, p: nat, count: nat, end: nat) returns (es: seq<Entry>)
    requires p <= |f| && EntriesEnd(f, p, count) == Some(end)
    ensures |es| == count && MetaAt(f, p, es, end)
    decreases count
  {
    if count == 0 {
      es := [];
    } else {
      var q := FirstEntry(f, p, count, end);
      var rest := EntriesRead(f, q, count - 1, end);
      es := EntryJoined(f, p, rest, q, end);
    }
  }

  ghost predicate MetaAt(f: seq<byte>, p: nat, es: seq<Entry>, end: nat) {
    (forall i :: 0 <= i < |es| ==> EntryOk(es[i])) && Has(f, p, WriteMeta(es)) && end == p + |WriteMeta(es)|
  }

  lemma FirstEntry(f: seq<byte>, p: nat, count: nat, end: nat) returns (q: nat)
    requires p <= |f| && count > 0 && EntriesEnd(f, p, count) == Some(end)
    ensures SkipEntry(f, p) == Some(q) && q <= |f| && EntriesEnd(f, q, count - 1) == Some(end)
  {
    q := SkipEntry(f, p).value;
  }

  lemma EntryJoined(f: seq<byte>, p: nat, rest: seq<Entry>, q: nat, end: nat) returns (es: seq<Entry>)
    requires SkipEntry(f, p) == Some(q) && MetaAt(f, q, rest, end)
    ensures |es| == |rest| + 1 && MetaAt(f, p, es, end)
  {
    var e := EntryRead(f, p, q);
    es := [e] + rest;
    assert es[1..] == rest;
    HasJoin(f, p, WriteEntry(e), WriteMeta(rest));
  }

  lemma {:induction false} DimsRead(f: seq<byte>, p: nat, nd: nat) returns (ds: seq<u64>)
    requires p + 8 * nd <= |f|
    ensures |ds| == nd && Has(f, p, WriteDims(ds))
    decreases nd
  {
    if nd == 0 {
      ds := [];
    } else {
      var d := Le64At(f, p);
      var rest := DimsRead(f, p + 8, nd - 1);
      Word64(f, p);
      HasJoin(f, p, PutLe64(d), WriteDims(rest));
      ds := [d] + rest;
      assert ds[1..] == rest;
    }
  }

  lemma TensorRead(f: seq<byte>, p: nat, end: nat) returns (t: Tensor)
    requires SkipTensor(f, p) == Some(end)
    ensures TensorOk(t) && Has(f, p, WriteTensor(t)) && end == p + |WriteTensor(t)|
  {
    var nameLen := Le64At(f, p);
    var nd, q := Le32At(f, p + 8 + nameLen), p + 8 + nameLen + 4;
    var d := q + 8 * nd;
    var ds := DimsRead(f, q, nd);
    t := Tensor(f[p + 8..p + 8 + nameLen], ds, Le32At(f, d), Le64At(f, d + 4));
    TensorJoined(f, p, t, q, d);
    RowLength(t);
  }

  lemma TensorJoined(f: seq<byte>, p: nat, t: Tensor, q: nat, d: nat)
    requires TensorOk(t) && q == p + 8 + |t.name| + 4 && d == q + 8 * |t.dims|
    requires FieldsAt(f, p, t.name, |t.dims|, WriteDims(t.dims), t.ty, t.offset, q, d)
    ensures Has(f, p, WriteTensor(t))
  {
    FieldsGlued(f, p, t.name, |t.dims|, WriteDims(t.dims), t.ty, t.offset, q, d);
  }

  lemma FieldsGlued(f: seq<byte>, p: nat, name: seq<byte>, nd: u32, ds: seq<byte>, ty: u32, offset: u64, q: nat, d: nat)
    requires |name| <= 255 && q == p + 8 + |name| + 4 && d == q + |ds|
    requires FieldsAt(f, p, name, nd, ds, ty, offset, q, d)
    ensures Has(f, p, PutLe64(|name|) + (name + (PutLe32(nd) + (ds + (PutLe32(ty) + PutLe64(offset))))))
  {
    Word64(f, p);
    Word32(f, p + 8 + |name|);
    Word32(f, d);
    Word64(f, d + 4);
    RowGlued(f, p, PutLe64(|name|), name, PutLe32(nd), ds, PutLe32(ty), PutLe64(offset), q, d);
  }

  lemma RowGlued(f: seq<byte>, p: nat, a: seq<byte>, name: seq<byte>, b: seq<byte>, ds: seq<byte>, c: seq<byte>,
                 e: seq<byte>, q: nat, d: nat)
    requires |a| == 8 && |b| == 4 && |c| == 4 && q == p + 8 + |name| + 4 && d == q + |ds|
    requires Has(f, p, a) && Has(f, p + 8, name) && Has(f, p + 8 + |name|, b)
    requires Has(f, q, ds) && Has(f, d, c) && Has(f, d + 4, e)
    ensures Has(f, p, a + (name + (b + (ds + (c + e)))))
  {
    HasJoin(f, d, c, e);
    HasJoin(f, q, ds, c + e);
    HasJoin(f, p + 8 + |name|, b, ds + (c + e));
    HasJoin(f, p + 8, name, b + (ds + (c + e)));
    HasJoin(f, p, a, name + (b + (ds + (c + e))));
  }

  lemma {:induction false} TensorsRead(f: seq<byte>, p: nat, count: nat, end: nat) returns (ts: seq<Tensor>)
    requires p <= |f| && TensorsEnd(f, p, count) == Some(end)
    ensures |ts| == count && RowsAt(f, p, ts, end)
    decreases count
  {
    if count == 0 {
      ts := [];
    } else {
      var q := FirstRow(f, p, count, end);
      var rest := TensorsRead(f, q, count - 1, end);
      ts := TensorsJoined(f, p, rest, q, end);
    }
  }

  ghost predicate RowsAt(f: seq<byte>, p: nat, ts: seq<Tensor>, end: nat) {
    (forall i :: 0 <= i < |ts| ==> TensorOk(ts[i])) && Has(f, p, WriteTensors(ts)) && end == p + |WriteTensors(ts)|
  }

  lemma FirstRow(f: seq<byte>, p: nat, count: nat, end: nat) returns (q: nat)
    requires p <= |f| && count > 0 && TensorsEnd(f, p, count) == Some(end)
    ensures SkipTensor(f, p) == Some(q) && q <= |f| && TensorsEnd(f, q, count - 1) == Some(end)
  {
    q := SkipTensor(f, p).value;
  }

  lemma TensorsJoined(f: seq<byte>, p: nat, rest: seq<Tensor>, q: nat, end: nat) returns (ts: seq<Tensor>)
    requires SkipTensor(f, p) == Some(q) && RowsAt(f, q, rest, end)
    ensures |ts| == |rest| + 1 && RowsAt(f, p, ts, end)
  {
    var t := TensorRead(f, p, q);
    ts := [t] + rest;
    assert ts[1..] == rest;
    HasJoin(f, p, WriteTensor(t), WriteTensors(rest));
  }

  // ---- Files ----

  lemma HeaderJoined(g: File, f: seq<byte>)
    requires FileOk(g) && |f| >= 24 && Le32At(f, 0) == MAGIC && Le32At(f, 4) == g.version
    requires Le64At(f, 8) == |g.tensors| && Le64At(f, 16) == |g.meta|
    ensures Has(f, 0, WriteHeader(g))
  {
    var a, b, c := PutLe32(g.version), PutLe64(|g.tensors|), PutLe64(|g.meta|);
    MagicSpelt();
    Word32(f, 0);
    Word32(f, 4);
    Word64(f, 8);
    Word64(f, 16);
    HasJoin(f, 8, b, c);
    HasJoin(f, 4, a, b + c);
    HasJoin(f, 0, PutLe32(MAGIC), a + (b + c));
  }

  lemma ProbeParts(f: seq<byte>) returns (p: nat, q: nat)
    requires Probe(f).Some? && |f| < WORD
    ensures |f| >= 24 && Le32At(f, 0) == MAGIC && 1 <= Le32At(f, 4) <= 3
    ensures Le64At(f, 8) <= 1000 && Le64At(f, 16) <= 1000
    ensures EntriesEnd(f, 24, Le64At(f, 16)) == Some(p) && p <= |f| && TensorsEnd(f, p, Le64At(f, 8)) == Some(q)
    ensures q <= |f| && Probe(f).value.dataOff == DataOffset(q) <= |f|
  {
    p := EntriesEnd(f, 24, Le64At(f, 16)).value;
    q := TensorsEnd(f, p, Le64At(f, 8)).value;
  }

  /** An accepted file was written, unless its table ends in the last 31 bytes a file can have; then rounding wraps and
      its data is said to start at 0. */
  lemma FileRead(f: seq<byte>) returns (g: File, q: nat)
    requires Probe(f).Some? && |f| < WORD
    ensures q <= |f| && Probe(f).value.dataOff == DataOffset(q)
    ensures 24 <= q && (q + 31 < WORD ==> Written(g, f))
  {
    var p;
    p, q := ProbeParts(f);
    var es := EntriesRead(f, 24, Le64At(f, 16), p);
    var ts := TensorsRead(f, p, Le64At(f, 8), q);
    DataOffsetIs(q);
    g := File(Le32At(f, 4), es, ts, if Align32(q) <= |f| then f[Align32(q)..] else []);
    HeaderJoined(g, f);
    if q + 31 < WORD { WrittenIs(g, f, p, q); }
  }

  lemma WrittenIs(g: File, f: seq<byte>, p: nat, q: nat)
    requires FileOk(g) && |f| < WORD && p == MetaEnd(g) && q == InfoEnd(g) && Align32(q) <= |f|
    requires Has(f, 0, WriteHeader(g)) && Has(f, 24, WriteMeta(g.meta)) && Has(f, p, WriteTensors(g.tensors))
    requires g.data == f[Align32(q)..]
    ensures Written(g, f)
  {
  }

  /** The probe accepts exactly the files that can be written. */
  lemma AcceptedIffWritten(f: seq<byte>)
    requires |f| < WORD
    ensures Probe(f).Some? && Probe(f).value.dataOff != 0 <==> exists g :: Written(g, f)
    ensures |f| <= 0xFFFF_FFE0 ==> (Probe(f).Some? <==> exists g :: Written(g, f))
  {
    if g :| Written(g, f) {
      ProbeWritten(g, f);
    } else if Probe(f).Some? {
      var g, q := FileRead(f);
      DataOffsetIs(q);
      WrapsToZero(q);
    }
  }

  lemma WrapsToZero(n: nat)
    requires n < WORD <= n + 31
    ensures DataOffset(n) == 0
  {
    assert (n + 31) % WORD == n + 31 - WORD;
  }
}
