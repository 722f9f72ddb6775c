/** A whole GGUF file: a reference writer, and the kernel's `gguf_probe` (`kernel/llm_gguf.c`, lines 202-291), proved to
    find the parts it wrote. */
module GgufFile {
  import opened Bytes
  import opened Gguf

  const MAGIC: u32 := 0x4655_4747
  const HEADER: nat := 24
  const MAX_ENTRIES: nat := 1000
  const MAX_KEY: nat := 255
  const NAME_BUF: nat := 63

  // ---- The reference writer ----

  datatype Entry = Entry(key: seq<byte>, value: Value)

  datatype Tensor = Tensor(name: seq<byte>, dims: seq<u64>, ty: u32, offset: u64)

  datatype File = File(version: u32, meta: seq<Entry>, tensors: seq<Tensor>, data: seq<byte>)

  predicate EntryOk(e: Entry) {
    |e.key| <= 255 && Valid(e.value)
  }

  predicate TensorOk(t: Tensor) {
    |t.name| <= 255 && 1 <= |t.dims| <= 4
  }

  ghost predicate FileOk(g: File) {
    && 1 <= g.version <= 3 && |g.meta| <= 1000 && |g.tensors| <= 1000
    && (forall i :: 0 <= i < |g.meta| ==> EntryOk(g.meta[i]))
    && (forall i :: 0 <= i < |g.tensors| ==> TensorOk(g.tensors[i]))
  }

  function WriteEntry(e: Entry): (b: seq<byte>)
    requires EntryOk(e)
  {
    PutLe64(|e.key|) + (e.key + (PutLe32(TypeOf(e.value)) + Write(e.value)))
  }

  function WriteDims(ds: seq<u64>): (b: seq<byte>)
    ensures |b| == 8 * |ds|
  {
    if ds == [] then [] else PutLe64(ds[0]) + WriteDims(ds[1..])
  }

  function WriteTensor(t: Tensor): (b: seq<byte>)
    requires TensorOk(t)
  {
    PutLe64(|t.name|) + (t.name + (PutLe32(|t.dims|) + (WriteDims(t.dims) + (PutLe32(t.ty) + PutLe64(t.offset)))))
  }

  function WriteMeta(es: seq<Entry>): (b: seq<byte>)
    requires forall i :: 0 <= i < |es| ==> EntryOk(es[i])
  {
    if es == [] then [] else WriteEntry(es[0]) + WriteMeta(es[1..])
  }

  function WriteTensors(ts: seq<Tensor>): (b: seq<byte>)
    requires forall i :: 0 <= i < |ts| ==> TensorOk(ts[i])
  {
    if ts == [] then [] else WriteTensor(ts[0]) + WriteTensors(ts[1..])
  }

  function WriteHeader(g: File): (b: seq<byte>)
    requires FileOk(g)
    ensures |b| == HEADER
  {
    ['G' as int, 'G' as int, 'U' as int, 'F' as int]
    + (PutLe32(g.version) + (PutLe64(|g.tensors|) + PutLe64(|g.meta|)))
  }

  /** The next multiple of 32. */
  function Align32(n: nat): (m: nat)
    ensures n <= m < n + 32 && m % 32 == 0
  {
    (n + 31) / 32 * 32
  }

  /** The same as the kernel computes it, in 32 bits. */
  function DataOffset(n: nat): (m: nat) {
    (n + 31) % WORD / 32 * 32
  }

  /** That is the next multiple exactly when it can be reached in 32 bits; from there on it is 0. */
  lemma DataOffsetIs(n: nat)
    requires n < WORD
    ensures DataOffset(n) == Align32(n) <==> n + 31 < WORD
    ensures Align32(n) < WORD <==> n + 31 < WORD
  {
    if n + 31 >= WORD { assert (n + 31) % WORD == n + 31 - WORD; }
  }

  function MetaEnd(g: File): nat
    requires FileOk(g)
  {
    HEADER + |WriteMeta(g.meta)|
  }

  function InfoEnd(g: File): nat
    requires FileOk(g)
  {
    MetaEnd(g) + |WriteTensors(g.tensors)|
  }

  /** `f` is a file laid out by the writer: header, metadata, tensor table, padding to 32 bytes, data. */
  ghost predicate Written(g: File, f: seq<byte>) {
    && FileOk(g) && |f| < WORD
    && Has(f, 0, WriteHeader(g)) && Has(f, HEADER, WriteMeta(g.meta)) && Has(f, MetaEnd(g), WriteTensors(g.tensors))
    && Has(f, Align32(InfoEnd(g)), g.data) && |f| == Align32(InfoEnd(g)) + |g.data|
  }

  function Padding(n: nat): (pad: seq<byte>)
    ensures n + |pad| == Align32(n)
  {
    seq(Align32(n) - n, i => 0)
  }

  /** The reference writer. */
  function WriteFile(g: File): (f: seq<byte>)
    requires FileOk(g)
  {
    WriteHeader(g) + WriteMeta(g.meta) + WriteTensors(g.tensors) + Padding(InfoEnd(g)) + g.data
  }

  /** Every description of a file has such a file, unless it would be too long for a 32-bit size. */
  lemma WriteFileWritten(g: File)
    requires FileOk(g) && Align32(InfoEnd(g)) + |g.data| < WORD
    ensures Written(g, WriteFile(g))
  {
    var h, m, t, pad := WriteHeader(g), WriteMeta(g.meta), WriteTensors(g.tensors), Padding(InfoEnd(g));
    PartsOf(h, m, t, pad, g.data, WriteFile(g), MetaEnd(g), Align32(InfoEnd(g)));
  }

  lemma PartsOf(h: seq<byte>, m: seq<byte>, t: seq<byte>, pad: seq<byte>, d: seq<byte>, f: seq<byte>, a: nat, b: nat)
    requires f == h + m + t + pad + d && |h| + |m| == a && a + |t| + |pad| == b
    ensures Has(f, 0, h) && Has(f, |h|, m) && Has(f, a, t) && Has(f, b, d) && |f| == b + |d|
  {
  }

  // ---- Probing ----

  datatype Info = Info(version: nat, tensorCount: nat, metaCount: nat, metaOff: nat, tensorOff: nat, dataOff: nat)

  /** Past one metadata entry. */
  function SkipEntry(f: seq<byte>, p: nat): (r: Option<nat>)
    ensures r.Some? ==> p < r.value <= |f|
  {
    if !RangeOk(|f|, p, 8) then None
    else
      var keyLen := Le64At(f, p);
      if keyLen > MAX_KEY || !RangeOk(|f|, p + 8, keyLen) || !RangeOk(|f|, p + 8 + keyLen, 4) then None
      else
        var ty, q := Le32At(f, p + 8 + keyLen), p + 8 + keyLen + 4;
        match ValueSize(f, q, ty)
        case None => None
        case Some(n) => if RangeOk(|f|, q, n) then Some(q + n) else None
  }

  function SkipEntries(f: seq<byte>, p: nat, count: nat): (r: Option<nat>)
    requires p <= |f|
    ensures r.Some? ==> r.value <= |f|
    decreases count
  {
    if count == 0 then Some(p)
    else
      match SkipEntry(f, p)
      case None => None
      case Some(q) => SkipEntries(f, q, count - 1)
  }

  /** Past one row of the tensor table. */
  function SkipTensor(f: seq<byte>, p: nat): (r: Option<nat>)
    ensures r.Some? ==> p < r.value <= |f|
  {
    if !RangeOk(|f|, p, 8) then None
    else
      var nameLen := Le64At(f, p);
      if nameLen > MAX_KEY || !RangeOk(|f|, p + 8, nameLen) || !RangeOk(|f|, p + 8 + nameLen, 4) then None
      else
        var nd, q := Le32At(f, p + 8 + nameLen), p + 8 + nameLen + 4;
        if nd == 0 || nd > 4 || !RangeOk(|f|, q, 8 * nd) || !RangeOk(|f|, q + 8 * nd, 12) then None
        else Some(q + 8 * nd + 12)
  }

  function SkipTensors(f: seq<byte>, p: nat, count: nat): (r: Option<nat>)
    requires p <= |f|
    ensures r.Some? ==> r.value <= |f|
    decreases count
  {
    if count == 0 then Some(p)
    else
      match SkipTensor(f, p)
      case None => None
      case Some(q) => SkipTensors(f, q, count - 1)
  }

  /** `gguf_probe` without its cache: the file is sound and these are its parts. */
  function Probe(f: seq<byte>): (r: Option<Info>)
    ensures r.Some? ==> r.value.tensorOff <= |f| && r.value.dataOff <= |f|
  {
    if |f| < HEADER || Le32At(f, 0) != MAGIC then None
    else
      var version, tensors, metas := Le32At(f, 4), Le64At(f, 8), Le64At(f, 16);
      if metas > MAX_ENTRIES || tensors > MAX_ENTRIES || version == 0 || version > 3 then None
      else
        match SkipEntries(f, HEADER, metas)
        case None => None
        case Some(p) =>
          match SkipTensors(f, p, tensors)
          case None => None
          case Some(q) =>
            if DataOffset(q) > |f| then None else Some(Info(version, tensors, metas, HEADER, p, DataOffset(q)))
  }

  /** What a reader finds at `p` when the entry `e` stands there: its value at `at`, the next entry at `end`. */
  ghost predicate EntryAt(f: seq<byte>, p: nat, e: Entry, at: nat, end: nat) {
    && EntryOk(e) && at == p + 8 + |e.key| + 4 && end == at + |Write(e.value)| && end <= |f|
    && Le64At(f, p) == |e.key| && Has(f, p + 8, e.key) && Le32At(f, p + 8 + |e.key|) == TypeOf(e.value)
    && ValueSize(f, at, TypeOf(e.value)) == Some(|Write(e.value)|)
  }

  lemma EntryParts(f: seq<byte>, p: nat, e: Entry, at: nat, end: nat)
    requires EntryOk(e) && Has(f, p, WriteEntry(e)) && at == p + 8 + |e.key| + 4 && end == p + |WriteEntry(e)|
    ensures EntryAt(f, p, e, at, end) && Has(f, at, Write(e.value))
  {
    EntryHead(f, p, e.key, TypeOf(e.value), Write(e.value), at);
    SkipWritten(f, at, e.value);
  }

  lemma EntryHead(f: seq<byte>, p: nat, key: seq<byte>, ty: u32, v: seq<byte>, at: nat)
    requires |key| <= MAX_KEY && Has(f, p, PutLe64(|key|) + (key + (PutLe32(ty) + v))) && at == p + 8 + |key| + 4
    ensures Le64At(f, p) == |key| && Has(f, p + 8, key) && Le32At(f, p + 8 + |key|) == ty && Has(f, at, v)
  {
    var rest := PutLe32(ty) + v;
    HasParts(f, p, PutLe64(|key|), key + rest);
    HasLe64(f, p, |key|);
    HasParts(f, p + 8, key, rest);
    HasParts(f, p + 8 + |key|, PutLe32(ty), v);
    HasLe32(f, p + 8 + |key|, ty);
  }

  // The two walks under names the verifier does not unroll on its own.
  function EntriesEnd(f: seq<byte>, p: nat, count: nat): Option<nat>
    requires p <= |f|
  {
    SkipEntries(f, p, count)
  }

  function TensorsEnd(f: seq<byte>, p: nat, count: nat): Option<nat>
    requires p <= |f|
  {
    SkipTensors(f, p, count)
  }

  lemma EntriesEndStep(f: seq<byte>, p: nat, count: nat, e: Entry, at: nat, q: nat, end: nat)
    requires count > 0 && EntryAt(f, p, e, at, q) && EntriesEnd(f, q, count - 1) == Some(end)
    ensures EntriesEnd(f, p, count) == Some(end)
  {
  }

  lemma {:induction false} EntriesSkipped(f: seq<byte>, p: nat, es: seq<Entry>, n: nat, end: nat)
    requires forall i :: 0 <= i < |es| ==> EntryOk(es[i])
    requires Has(f, p, WriteMeta(es)) && n == |es| && end == p + |WriteMeta(es)|
    ensures EntriesEnd(f, p, n) == Some(end)
    decreases |es|
  {
    if es != [] {
      var q := p + |WriteEntry(es[0])|;
      MetaSplit(f, p, es, q, end);
      EntriesSkipped(f, q, es[1..], n - 1, end);
      EntrySkipped(f, p, es[0], n, q, end);
    }
  }

  lemma MetaSplit(f: seq<byte>, p: nat, es: seq<Entry>, q: nat, end: nat)
    requires es != [] && (forall i :: 0 <= i < |es| ==> EntryOk(es[i])) && Has(f, p, WriteMeta(es))
    requires q == p + |WriteEntry(es[0])| && end == p + |WriteMeta(es)|
    ensures Has(f, p, WriteEntry(es[0])) && Has(f, q, WriteMeta(es[1..])) && end == q + |WriteMeta(es[1..])|
  {
    HasParts(f, p, WriteEntry(es[0]), WriteMeta(es[1..]));
  }

  lemma EntrySkipped(f: seq<byte>, p: nat, e: Entry, n: nat, q: nat, end: nat)
    requires n > 0 && EntryOk(e) && Has(f, p, WriteEntry(e)) && q == p + |WriteEntry(e)|
    requires EntriesEnd(f, q, n - 1) == Some(end)
    ensures EntriesEnd(f, p, n) == Some(end)
  {
    var at := p + 8 + |e.key| + 4;
    EntryParts(f, p, e, at, q);
    EntriesEndStep(f, p, n, e, at, q, end);
  }

  /** What a reader of the table finds at `p` when the row of `t` stands there: dimensions from `q` on, the next row
      at `end`. */
  ghost predicate RowAt(f: seq<byte>, p: nat, t: Tensor, q: nat, end: nat) {
    && TensorOk(t) && q == p + 8 + |t.name| + 4 && end == q + 8 * |t.dims| + 12
    && FieldsAt(f, p, t.name, |t.dims|, WriteDims(t.dims), t.ty, t.offset, q, q + 8 * |t.dims|)
  }

  ghost predicate FieldsAt(f: seq<byte>, p: nat, name: seq<byte>, nd: nat, ds: seq<byte>, ty: nat, offset: nat, q: nat,
                           d: nat)
  {
    && d + 12 <= |f| && p + 8 + |name| + 4 <= |f|
    && Le64At(f, p) == |name| && Has(f, p + 8, name) && Le32At(f, p + 8 + |name|) == nd
    && Has(f, q, ds) && Le32At(f, d) == ty && Le64At(f, d + 4) == offset
  }

  lemma TensorParts(f: seq<byte>, p: nat, t: Tensor, q: nat, end: nat)
    requires TensorOk(t) && Has(f, p, WriteTensor(t)) && q == p + 8 + |t.name| + 4 && end == p + |WriteTensor(t)|
    ensures RowAt(f, p, t, q, end)
  {
    RowLength(t);
    var ds := WriteDims(t.dims);
    RowFields(f, p, t.name, |t.dims|, ds, t.ty, t.offset, q, q + 8 * |t.dims|);
    RowJoined(f, p, t, ds, q, end);
  }

  lemma RowJoined(f: seq<byte>, p: nat, t: Tensor, ds: seq<byte>, q: nat, end: nat)
    requires TensorOk(t) && ds == WriteDims(t.dims) && q == p + 8 + |t.name| + 4 && end == q + 8 * |t.dims| + 12
    requires FieldsAt(f, p, t.name, |t.dims|, ds, t.ty, t.offset, q, q + 8 * |t.dims|)
    ensures RowAt(f, p, t, q, end)
  {
  }

  lemma RowLength(t: Tensor)
    requires TensorOk(t)
    ensures |WriteTensor(t)| == 8 + |t.name| + 4 + 8 * |t.dims| + 12
  {
    var a, b, c, d := PutLe64(|t.name|), PutLe32(|t.dims|), PutLe32(t.ty), PutLe64(t.offset);
    assert |WriteTensor(t)| == |a| + |t.name| + |b| + |WriteDims(t.dims)| + |c| + |d|;
  }

  lemma RowFields(f: seq<byte>, p: nat, name: seq<byte>, nd: u32, ds: seq<byte>, ty: u32, offset: u64, q: nat, d: nat)
    requires |name| <= 255 && q == p + 8 + |name| + 4 && d == q + |ds|
    requires Has(f, p, PutLe64(|name|) + (name + (PutLe32(nd) + (ds + (PutLe32(ty) + PutLe64(offset))))))
    ensures FieldsAt(f, p, name, nd, ds, ty, offset, q, d)
  {
    RowSplit(f, p, PutLe64(|name|), name, PutLe32(nd), ds, PutLe32(ty), PutLe64(offset), q, d);
    HasLe64(f, p, |name|);
    HasLe32(f, p + 8 + |name|, nd);
    HasLe32(f, d, ty);
    HasLe64(f, d + 4, offset);
  }

  lemma RowSplit(f: seq<byte>, p: nat, a: seq<byte>, name: seq<byte>, b: seq<byte>, ds: seq<byte>, c: seq<byte>,
                 e: seq<byte>,
                 q: nat, d: nat)
    requires |a| == 8 && |b| == 4 && |c| == 4 && |e| == 8 && q == p + 8 + |name| + 4 && d == q + |ds|
    requires Has(f, p, a + (name + (b + (ds + (c + e)))))
    ensures Has(f, p, a) && Has(f, p + 8, name) && Has(f, p + 8 + |name|, b)
    ensures Has(f, q, ds) && Has(f, d, c) && Has(f, d + 4, e)
  {
    HasParts(f, p, a, name + (b + (ds + (c + e))));
    HasParts(f, p + 8, name, b + (ds + (c + e)));
    HasParts(f, p + 8 + |name|, b, ds + (c + e));
    HasParts(f, q, ds, c + e);
    HasParts(f, d, c, e);
  }

  lemma TensorsEndStep(f: seq<byte>, p: nat, count: nat, t: Tensor, d: nat, q: nat, end: nat)
    requires count > 0 && RowAt(f, p, t, d, q) && TensorsEnd(f, q, count - 1) == Some(end)
    ensures TensorsEnd(f, p, count) == Some(end)
  {
  }

  lemma {:induction false} TensorsSkipped(f: seq<byte>, p: nat, ts: seq<Tensor>, n: nat, end: nat)
    requires forall i :: 0 <= i < |ts| ==> TensorOk(ts[i])
    requires Has(f, p, WriteTensors(ts)) && n == |ts| && end == p + |WriteTensors(ts)|
    ensures TensorsEnd(f, p, n) == Some(end)
    decreases |ts|
  {
    if ts != [] {
      var t, x := ts[0], WriteTensor(ts[0]);
      var d, q := p + 8 + |t.name| + 4, p + |x|;
      HasParts(f, p, x, WriteTensors(ts[1..]));
      TensorParts(f, p, t, d, q);
      TensorsSkipped(f, q, ts[1..], n - 1, end);
      TensorsEndStep(f, p, n, t, d, q, end);
    }
  }

  /** The magic number spells the name of the format. */
  lemma MagicSpelt()
    ensures PutLe32(MAGIC) == ['G' as int, 'G' as int, 'U' as int, 'F' as int]
  {
  }

  lemma HeaderRead(g: File, f: seq<byte>)
    requires Written(g, f)
    ensures |f| >= HEADER && Le32At(f, 0) == MAGIC && Le32At(f, 4) == g.version
    ensures Le64At(f, 8) == |g.tensors| && Le64At(f, 16) == |g.meta|
  {
    var b, c := PutLe64(|g.tensors|), PutLe64(|g.meta|);
    MagicSpelt();
    HasParts(f, 0, PutLe32(MAGIC), PutLe32(g.version) + (b + c));
    HasLe32(f, 0, MAGIC);
    HasParts(f, 4, PutLe32(g.version), b + c);
    HasLe32(f, 4, g.version);
    HasParts(f, 8, b, c);
    HasLe64(f, 8, |g.tensors|);
    HasLe64(f, 16, |g.meta|);
  }

  lemma ProbeIs(f: seq<byte>, version: nat, tensors: nat, metas: nat, p: nat, q: nat)
    requires HEADER <= |f| < WORD && Le32At(f, 0) == MAGIC && Le32At(f, 4) == version && 1 <= version <= 3
    requires Le64At(f, 8) == tensors <= MAX_ENTRIES && Le64At(f, 16) == metas <= MAX_ENTRIES
    requires EntriesEnd(f, HEADER, metas) == Some(p) && p <= |f| && TensorsEnd(f, p, tensors) == Some(q)
    requires Align32(q) <= |f|
    ensures Probe(f) == Some(Info(version, tensors, metas, HEADER, p, Align32(q)))
  {
    DataOffsetIs(q);
  }

  /** A file the probe accepts has the right mark, a version from 1 to 3, at most 1000 entries of each kind, and its
      data starts, on a multiple of 32, inside it. */
  lemma ProbeSound(f: seq<byte>)
    requires Probe(f).Some? && |f| < WORD
    ensures |f| >= 24 && f[0] == 'G' as int && f[1] == 'G' as int && f[2] == 'U' as int && f[3] == 'F' as int
    ensures 1 <= Probe(f).value.version <= 3
    ensures Probe(f).value.tensorCount <= 1000 && Probe(f).value.metaCount <= 1000
    ensures Probe(f).value.dataOff % 32 == 0 && Probe(f).value.dataOff <= |f|
  {
    BytesOfWord(f[0], f[1], f[2], f[3]);
    Multiple32(Probe(f).value.dataOff / 32);
  }

  lemma Multiple32(k: nat)
    ensures k * 32 % 32 == 0
  {
  }

  lemma BytesOfWord(a: byte, b: byte, c: byte, d: byte)
    requires a as int + 0x100 * (b as int) + 0x1_0000 * (c as int) + 0x100_0000 * (d as int) == MAGIC
    ensures a == 'G' as int && b == 'G' as int && c == 'U' as int && d == 'F' as int
  {
  }

  /** Probing a written file finds exactly the parts the writer laid out. */
  lemma ProbeWritten(g: File, f: seq<byte>)
    requires Written(g, f)
    ensures Probe(f) == Some(Info(g.version, |g.tensors|, |g.meta|, HEADER, MetaEnd(g), Align32(InfoEnd(g))))
  {
    HeaderRead(g, f);
    EntriesSkipped(f, HEADER, g.meta, |g.meta|, MetaEnd(g));
    TensorsSkipped(f, MetaEnd(g), g.tensors, |g.tensors|, InfoEnd(g));
    ProbeIs(f, g.version, |g.tensors|, |g.meta|, MetaEnd(g), InfoEnd(g));
  }
}
