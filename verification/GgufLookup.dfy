/** Looking things up in a GGUF file by name: `gguf_find_metadata_entry`, `gguf_get_tensor` and
    `gguf_tensor_byte_size` (`kernel/llm_gguf.c`, lines 19-55 and 342-443). */
module GgufLookup {
  import opened Bytes
  import opened Gguf
  import opened GgufFile

  /** The C string at the front of a buffer. */
  function CString(b: seq<byte>): (s: seq<byte>)
    ensures |s| <= |b|
  {
    if b == [] || b[0] == 0 then [] else [b[0]] + CString(b[1..])
  }

  /** A name as the lookups see it: at most 63 bytes of it, up to the first NUL. */
  function Seen(name: seq<byte>): seq<byte> {
    CString(name[..Min(|name|, NAME_BUF)])
  }

  /** Names the lookups can tell apart. */
  predicate NameOk(name: seq<byte>) {
    |name| <= 63 && 0 !in name
  }

  lemma {:induction false} CStringWhole(b: seq<byte>)
    requires 0 !in b
    ensures CString(b) == b
  {
    if b != [] { CStringWhole(b[1..]); }
  }

  lemma {:induction false} CStringIs(b: seq<byte>)
    ensures var s := CString(b); s <= b && 0 !in s && (|s| == |b| || b[|s|] == 0)
  {
    if b != [] && b[0] != 0 { CStringIs(b[1..]); }
  }

  /** The longest start of the name without a NUL and of at most 63 bytes, so the whole of it exactly for names the
      lookups can tell apart. */
  lemma SeenIs(name: seq<byte>)
    ensures var s := Seen(name);
            s <= name && |s| <= 63 && 0 !in s && (|s| == 63 || |s| == |name| || name[|s|] == 0)
    ensures Seen(name) == name <==> NameOk(name)
  {
    CStringIs(name[..Min(|name|, NAME_BUF)]);
    if NameOk(name) { SeenWhole(name); }
  }

  lemma SeenWhole(name: seq<byte>)
    requires NameOk(name)
    ensures Seen(name) == name
  {
    assert name[..Min(|name|, NAME_BUF)] == name;
    CStringWhole(name);
  }

  // ---- Searching a table of records of varying size ----

  /** What looking at the record at some place gives: it is malformed, it is the one wanted, or the next one is there.
      */
  datatype Look<+R> = Broken | Hit(found: R) | Next(at: nat)

  /** The loop both lookups run: at most `n` records from `p` on. */
  function Search<R>(look: nat -> Look<R>, p: nat, n: nat): (r: Option<R>)
    decreases n
  {
    if n == 0 then None
    else
      match look(p)
      case Broken => None
      case Hit(r) => Some(r)
      case Next(q) => Search(look, q, n - 1)
  }

  ghost predicate Leads<R>(look: nat -> Look<R>, places: seq<nat>, k: nat) {
    k + 1 < |places| && look(places[k]) == Next(places[k + 1])
  }

  /** A search that is led from record to record arrives at the one wanted. */
  lemma {:induction false} SearchFinds<R>(look: nat -> Look<R>, places: seq<nat>, k: nat, i: nat, n: nat, r: R)
    requires k <= i < |places| && i < k + n && (forall j :: k <= j < i ==> Leads(look, places, j))
    requires look(places[i]) == Hit(r)
    ensures Search(look, places[k], n) == Some(r)
    decreases i - k
  {
    if k < i {
      assert Leads(look, places, k);
      SearchFinds(look, places, k + 1, i, n - 1, r);
    }
  }

  // ---- Records one behind the other ----

  function Concat(xs: seq<seq<byte>>): seq<byte> {
    if xs == [] then [] else xs[0] + Concat(xs[1..])
  }

  /** The places of all records, and of the end. */
  function Places(p: nat, xs: seq<seq<byte>>): (ps: seq<nat>)
    ensures |ps| == |xs| + 1 && ps[0] == p
    decreases |xs|
  {
    if xs == [] then [p] else [p] + Places(p + |xs[0]|, xs[1..])
  }

  lemma {:induction false} Placed(f: seq<byte>, p: nat, xs: seq<seq<byte>>, k: nat)
    requires Has(f, p, Concat(xs)) && k < |xs|
    ensures Has(f, Places(p, xs)[k], xs[k]) && Places(p, xs)[k + 1] == Places(p, xs)[k] + |xs[k]|
    decreases k
  {
    HasParts(f, p, xs[0], Concat(xs[1..]));
    if k > 0 { Placed(f, p + |xs[0]|, xs[1..], k - 1); }
  }

  // ---- Metadata ----

  datatype Found = Found(ty: nat, at: nat)

  /** One iteration of `gguf_find_metadata_entry`. */
  function LookEntry(f: seq<byte>, key: seq<byte>, p: nat): (r: Look<Found>) {
    if !RangeOk(|f|, p, 8) then Broken
    else
      var keyLen := Le64At(f, p);
      if keyLen > MAX_KEY || !RangeOk(|f|, p + 8, keyLen) || !RangeOk(|f|, p + 8 + keyLen, 4) then Broken
      else
        var ty, at := Le32At(f, p + 8 + keyLen), p + 8 + keyLen + 4;
        if Seen(f[p + 8..p + 8 + keyLen]) == key then Hit(Found(ty, at))
        else
          match ValueSize(f, at, ty)
          case None => Broken
          case Some(n) => Next((at + n) % WORD)
  }

  function EntryLooker(f: seq<byte>, key: seq<byte>): nat -> Look<Found> {
    (p: nat) => LookEntry(f, key, p)
  }

  /** `gguf_find_metadata_entry`: type and place of the value of the first entry with this key. */
  function FindMeta(f: seq<byte>, p: nat, count: nat, key: seq<byte>): (r: Option<Found>) {
    Search(EntryLooker(f, key), p, count)
  }

  ghost predicate DistinctKeys(es: seq<Entry>) {
    && (forall i :: 0 <= i < |es| ==> EntryOk(es[i]) && NameOk(es[i].key))
    && (forall i, j :: 0 <= i < j < |es| ==> es[i].key != es[j].key)
  }

  function ValuePlace(p: nat, e: Entry): nat {
    p + 8 + |e.key| + 4
  }

  function Entries(es: seq<Entry>): (xs: seq<seq<byte>>)
    requires forall i :: 0 <= i < |es| ==> EntryOk(es[i])
    ensures |xs| == |es| && forall i :: 0 <= i < |es| ==> xs[i] == WriteEntry(es[i])
  {
    seq(|es|, i requires 0 <= i < |es| => WriteEntry(es[i]))
  }

  lemma {:induction false} MetaConcat(es: seq<Entry>)
    requires forall i :: 0 <= i < |es| ==> EntryOk(es[i])
    ensures WriteMeta(es) == Concat(Entries(es))
  {
    if es != [] {
      MetaConcat(es[1..]);
      assert Entries(es)[1..] == Entries(es[1..]);
    }
  }

  function EntryPlaces(p: nat, es: seq<Entry>): (ps: seq<nat>)
    requires forall i :: 0 <= i < |es| ==> EntryOk(es[i])
    ensures |ps| == |es| + 1 && ps[0] == p
  {
    Places(p, Entries(es))
  }

  /** The entry `e` stands at `p`, its value where it belongs, and the next entry at `q`. */
  ghost predicate EntryHere(f: seq<byte>, e: Entry, p: nat, q: nat) {
    EntryAt(f, p, e, ValuePlace(p, e), q) && Has(f, ValuePlace(p, e), Write(e.value))
  }

  lemma EntriesPlaced(f: seq<byte>, p: nat, es: seq<Entry>, ps: seq<nat>, k: nat)
    requires (forall i :: 0 <= i < |es| ==> EntryOk(es[i])) && Has(f, p, WriteMeta(es)) && k < |es|
    requires ps == EntryPlaces(p, es)
    ensures EntryHere(f, es[k], ps[k], ps[k + 1])
  {
    MetaConcat(es);
    Placed(f, p, Entries(es), k);
    EntryParts(f, ps[k], es[k], ValuePlace(ps[k], es[k]), ps[k + 1]);
  }

  lemma EntryLooked(f: seq<byte>, key: seq<byte>, p: nat, e: Entry, at: nat, q: nat)
    requires EntryAt(f, p, e, at, q) && NameOk(e.key) && |f| < WORD
    ensures EntryLooker(f, key)(p) == if e.key == key then Hit(Found(TypeOf(e.value), at)) else Next(q)
  {
    SeenWhole(e.key);
    EntryIs(f, p, e.key, TypeOf(e.value), at, |Write(e.value)|, q, key);
  }

  lemma EntryIs(f: seq<byte>, p: nat, name: seq<byte>, ty: u32, at: nat, n: nat, q: nat, key: seq<byte>)
    requires |name| <= MAX_KEY && at == p + 8 + |name| + 4 && q == at + n <= |f| < WORD
    requires Le64At(f, p) == |name| && Has(f, p + 8, name) && Seen(name) == name && Le32At(f, p + 8 + |name|) == ty
    requires ValueSize(f, at, ty) == Some(n)
    ensures LookEntry(f, key, p) == if name == key then Hit(Found(ty, at)) else Next(q)
  {
  }

  lemma EntryLeads(f: seq<byte>, key: seq<byte>, look: nat -> Look<Found>, p: nat, es: seq<Entry>, ps: seq<nat>, k: nat)
    requires DistinctKeys(es) && Has(f, p, WriteMeta(es)) && k < |es| && es[k].key != key && |f| < WORD
    requires look == EntryLooker(f, key) && ps == EntryPlaces(p, es)
    ensures Leads(look, ps, k)
  {
    EntriesPlaced(f, p, es, ps, k);
    EntryLooked(f, key, ps[k], es[k], ValuePlace(ps[k], es[k]), ps[k + 1]);
  }

  /** Every written entry is found under its key, with its type, at the place where its value stands. */
  lemma MetaWritten(f: seq<byte>, p: nat, es: seq<Entry>, i: nat) returns (at: nat)
    requires DistinctKeys(es) && Has(f, p, WriteMeta(es)) && i < |es| && |f| < WORD
    ensures FindMeta(f, p, |es|, es[i].key) == Some(Found(TypeOf(es[i].value), at)) && Has(f, at, Write(es[i].value))
  {
    var e, ps := es[i], EntryPlaces(p, es);
    var look := EntryLooker(f, e.key);
    at := ValuePlace(ps[i], e);
    forall k | 0 <= k < i
      ensures Leads(look, ps, k)
    {
      EntryLeads(f, e.key, look, p, es, ps, k);
    }
    EntriesPlaced(f, p, es, ps, i);
    EntryLooked(f, e.key, ps[i], e, at, ps[i + 1]);
    SearchFinds(look, ps, 0, i, |es|, Found(TypeOf(e.value), at));
  }

  /** `gguf_get_metadata_value_from_info` once the entry is found: the bytes copied out. */
  function TakeValue(f: seq<byte>, ty: nat, at: nat): (r: Option<seq<byte>>) {
    if ty == 4 || ty == 5 || ty == 6 then if RangeOk(|f|, at, 4) then Some(f[at..at + 4]) else None
    else if ty == 10 || ty == 11 then if RangeOk(|f|, at, 8) then Some(f[at..at + 8]) else None
    else if ty == STRING then
      if !RangeOk(|f|, at, 8) then None
      else
        var len := Le64At(f, at);
        if len > MAX_KEY || !RangeOk(|f|, at + 8, len) then None
        else Some(f[at + 8..at + 8 + Min(len, NAME_BUF)] + [0])
    else None
  }

  function GetMeta(f: seq<byte>, p: nat, count: nat, key: seq<byte>, expected: nat): (r: Option<seq<byte>>) {
    var e := FindMeta(f, p, count, key);
    if e.None? || e.value.ty != expected then None else TakeValue(f, e.value.ty, e.value.at)
  }

  /** What a caller gets for a value: 32- and 64-bit numbers as written, strings of up to 255 bytes cut to 63 and ended,
      nothing else. */
  function Readable(v: Value): (r: Option<seq<byte>>) {
    match v
    case Fixed(s) =>
      if s.U32? || s.I32? || s.F32? || s.U64? || s.I64? then Some(WriteScalar(s)) else None
    case Str(text) => if |text| <= 255 then Some(text[..Min(|text|, 63)] + [0]) else None
    case Arr(_, _) => None
  }

  lemma TakeWritten(f: seq<byte>, at: nat, v: Value)
    requires Valid(v) && Has(f, at, Write(v))
    ensures TakeValue(f, TypeOf(v), at) == Readable(v)
  {
    match v
    case Fixed(s) =>
    case Str(text) =>
      HasParts(f, at, PutLe64(|text|), text);
      HasLe64(f, at, |text|);
      SliceSlice(f, at + 8, at + 8 + |text|, 0, Min(|text|, 63));
    case Arr(_, _) =>
  }

  /** Every written value comes back under its key, to a caller who expects its type. */
  lemma GetMetaWritten(f: seq<byte>, p: nat, es: seq<Entry>, i: nat, expected: nat)
    requires DistinctKeys(es) && Has(f, p, WriteMeta(es)) && i < |es| && |f| < WORD
    ensures GetMeta(f, p, |es|, es[i].key, expected) ==
      if expected == TypeOf(es[i].value) then Readable(es[i].value) else None
  {
    var at := MetaWritten(f, p, es, i);
    assert EntryOk(es[i]);
    TakeWritten(f, at, es[i].value);
  }

  // ---- Tensor sizes ----

  function Product(ds: seq<nat>): nat {
    if ds == [] then 1 else Product(ds[..|ds| - 1]) * ds[|ds| - 1]
  }

  /** The size in bytes of a tensor's data, for the types the kernel computes with: the product of the outer
      dimensions, the elements or blocks in a row, and the bytes of one. */
  function TrueSize(ty: nat, dims: seq<nat>): (r: Option<nat>)
    requires |dims| > 0
  {
    if ty == 0 then Some(Product(dims[1..] + [dims[0], 4]))
    else if ty == 1 then Some(Product(dims[1..] + [dims[0], 2]))
    else if ty == 2 then
      if dims[0] == 0 || dims[0] % 32 != 0 then None else Some(Product(dims[1..] + [dims[0] / 32, 18]))
    else if ty == 14 then
      if dims[0] == 0 || dims[0] % 256 != 0 then None else Some(Product(dims[1..] + [dims[0] / 256, 210]))
    else None
  }

  /** Wrapping after every multiplication is wrapping once at the end. */
  lemma WrapMul(x: nat, y: nat)
    ensures (x % WORD64 * y) % WORD64 == (x * y) % WORD64
  {
    var q, r := x / WORD64, x % WORD64;
    assert x * y == r * y + WORD64 * (q * y) by {
      assert x == WORD64 * q + r;
      assert (WORD64 * q + r) * y == WORD64 * q * y + r * y;
      assert WORD64 * q * y == WORD64 * (q * y);
    }
    MultipleAdded(r * y, q * y);
  }

  lemma {:induction false} MultipleAdded(a: nat, k: nat)
    ensures (a + WORD64 * k) % WORD64 == a % WORD64
  {
    if k > 0 {
      MultipleAdded(a, k - 1);
      assert a + WORD64 * k == (a + WORD64 * (k - 1)) + WORD64;
    }
  }

  /** `gguf_tensor_byte_size`, in 64-bit arithmetic: the true size modulo 2^64. */
  method ByteSize(ty: nat, dims: seq<nat>) returns (r: Option<nat>)
    requires |dims| > 0
    ensures r.Some? <==> TrueSize(ty, dims).Some?
    ensures r.Some? ==> r.value == TrueSize(ty, dims).value % WORD64
  {
    ghost var tail := dims[1..];
    var rows := 1;
    for d := 1 to |dims|
      invariant rows == Product(tail[..d - 1]) % WORD64
    {
      WrapMul(Product(tail[..d - 1]), dims[d]);
      assert tail[..d][..d - 1] == tail[..d - 1];
      rows := rows * dims[d] % WORD64;
    }
    assert tail[..|tail|] == tail;
    match ty
    case 0 => r := Scale(rows, dims[0], 4, tail);
    case 1 => r := Scale(rows, dims[0], 2, tail);
    case 2 =>
      if dims[0] == 0 || dims[0] % 32 != 0 { return None; }
      r := Scale(rows, dims[0] / 32, 18, tail);
    case 14 =>
      if dims[0] == 0 || dims[0] % 256 != 0 { return None; }
      r := Scale(rows, dims[0] / 256, 210, tail);
    case _ => r := None;
  }

  method Scale(rows: nat, blocks: nat, bytes: nat, ghost outer: seq<nat>) returns (r: Option<nat>)
    requires rows == Product(outer) % WORD64
    ensures r == Some(Product(outer + [blocks, bytes]) % WORD64)
  {
    ghost var all := Product(outer);
    WrapMul(all, blocks);
    WrapMul(all * blocks, bytes);
    ProductPush(outer, blocks);
    ProductPush(outer + [blocks], bytes);
    assert outer + [blocks] + [bytes] == outer + [blocks, bytes];
    r := Some(rows * blocks % WORD64 * bytes % WORD64);
  }

  lemma ProductPush(ds: seq<nat>, d: nat)
    ensures Product(ds + [d]) == Product(ds) * d
  {
    assert (ds + [d])[..|ds|] == ds;
  }

  // ---- Tensors ----

  /** A row of the tensor table as the lookup reads it, dimensions cut to 32 bits. */
  datatype Row = Row(ty: u32, dims: seq<nat>, offset: u64)

  function ReadDims(f: seq<byte>, q: nat, nd: nat): (ds: seq<nat>)
    requires q + 8 * nd <= |f|
    ensures |ds| == nd
    decreases nd
  {
    if nd == 0 then [] else [Le32At(f, q)] + ReadDims(f, q + 8, nd - 1)
  }

  /** The part of a row behind its name. */
  function LookBody(f: seq<byte>, wanted: bool, nd: nat, q: nat): (r: Look<Row>)
    ensures r.Hit? ==> 1 <= |r.found.dims| <= 4
  {
    if nd == 0 || nd > 4 || !RangeOk(|f|, q, 8 * nd) || !RangeOk(|f|, q + 8 * nd, 12) then Broken
    else if wanted then Hit(Row(Le32At(f, q + 8 * nd), ReadDims(f, q, nd), Le64At(f, q + 8 * nd + 4)))
    else Next(q + 8 * nd + 12)
  }

  /** One iteration of the search of `gguf_get_tensor`. */
  function LookRow(f: seq<byte>, name: seq<byte>, p: nat): (r: Look<Row>)
    ensures r.Hit? ==> 1 <= |r.found.dims| <= 4
  {
    if !RangeOk(|f|, p, 8) then Broken
    else
      var nameLen := Le64At(f, p);
      if nameLen > MAX_KEY || !RangeOk(|f|, p + 8, nameLen) || !RangeOk(|f|, p + 8 + nameLen, 4) then Broken
      else
        LookBody(f, Seen(f[p + 8..p + 8 + nameLen]) == name, Le32At(f, p + 8 + nameLen), p + 8 + nameLen + 4)
  }

  function RowLooker(f: seq<byte>, name: seq<byte>): nat -> Look<Row> {
    (p: nat) => LookRow(f, name, p)
  }

  /** The first row with this name. */
  function FindTensor(f: seq<byte>, p: nat, count: nat, name: seq<byte>): (r: Option<Row>) {
    Search(RowLooker(f, name), p, count)
  }

  /** The row is accepted: its data starts inside the file and, if its size is known, ends there. */
  predicate Accepted(size: nat, dataOff: nat, r: Row) {
    var start := (dataOff + r.offset) % WORD64;
    && start <= size && |r.dims| > 0
    && (TrueSize(r.ty, r.dims).Some? ==> TrueSize(r.ty, r.dims).value % WORD64 <= size - start)
  }

  /** Dimensions that 32 bits hold. */
  ghost predicate SmallDims(ds: seq<u64>) {
    ds == [] || (ds[0] < WORD && SmallDims(ds[1..]))
  }

  lemma {:induction false} DimsRead(f: seq<byte>, q: nat, ds: seq<u64>)
    requires Has(f, q, WriteDims(ds)) && SmallDims(ds)
    ensures ReadDims(f, q, |ds|) == ds
    decreases |ds|
  {
    if ds != [] {
      var x, rest := ds[0], ds[1..];
      HasParts(f, q, PutLe64(x), WriteDims(rest));
      HasLow(f, q, x);
      DimsRead(f, q + 8, rest);
      assert [x] + rest == ds;
    }
  }

  lemma HasLow(f: seq<byte>, q: nat, x: u64)
    requires Has(f, q, PutLe64(x)) && x < WORD
    ensures Le32At(f, q) == x
  {
    HasParts(f, q, PutLe32(x % WORD), PutLe32(x / WORD));
    HasLe32(f, q, x);
  }

  /** The low half of a 64-bit word is what a cast to 32 bits leaves. */
  lemma LowHalf(f: seq<byte>, q: nat)
    requires q + 8 <= |f|
    ensures Le64At(f, q) % WORD == Le32At(f, q)
  {
    ModOfSum(Le32At(f, q), Le32At(f, q + 4));
  }

  lemma ModOfSum(low: u32, high: u32)
    ensures (low as int + WORD * (high as int)) % WORD == low
  {
  }

  /** The tensor's data lies inside a file of `size` bytes whose data starts at `dataOff`. */
  ghost predicate DataFits(t: Tensor, size: nat, dataOff: nat) {
    && TensorOk(t) && SmallDims(t.dims)
    && dataOff + t.offset <= size
    && (TrueSize(t.ty, t.dims).Some? ==> TrueSize(t.ty, t.dims).value <= size - dataOff - t.offset)
  }

  /** Data that really fits is never refused by the wrapping checks. */
  lemma FittingAccepted(t: Tensor, size: nat, dataOff: nat)
    requires DataFits(t, size, dataOff) && size < WORD
    ensures HandOut(size, dataOff, Some(Row(t.ty, t.dims, t.offset))) == Some(Row(t.ty, t.dims, t.offset))
  {
  }

  ghost predicate DistinctNames(ts: seq<Tensor>) {
    && (forall i :: 0 <= i < |ts| ==> TensorOk(ts[i]) && NameOk(ts[i].name))
    && (forall i, j :: 0 <= i < j < |ts| ==> ts[i].name != ts[j].name)
  }

  function Rows(ts: seq<Tensor>): (xs: seq<seq<byte>>)
    requires forall i :: 0 <= i < |ts| ==> TensorOk(ts[i])
    ensures |xs| == |ts| && forall i :: 0 <= i < |ts| ==> xs[i] == WriteTensor(ts[i])
  {
    seq(|ts|, i requires 0 <= i < |ts| => WriteTensor(ts[i]))
  }

  lemma {:induction false} TableConcat(ts: seq<Tensor>)
    requires forall i :: 0 <= i < |ts| ==> TensorOk(ts[i])
    ensures WriteTensors(ts) == Concat(Rows(ts))
  {
    if ts != [] {
      TableConcat(ts[1..]);
      assert Rows(ts)[1..] == Rows(ts[1..]);
    }
  }

  function RowPlaces(p: nat, ts: seq<Tensor>): (ps: seq<nat>)
    requires forall i :: 0 <= i < |ts| ==> TensorOk(ts[i])
    ensures |ps| == |ts| + 1 && ps[0] == p
  {
    Places(p, Rows(ts))
  }

  lemma RowsPlaced(f: seq<byte>, p: nat, ts: seq<Tensor>, ps: seq<nat>, k: nat)
    requires (forall i :: 0 <= i < |ts| ==> TensorOk(ts[i])) && Has(f, p, WriteTensors(ts)) && k < |ts|
    requires ps == RowPlaces(p, ts)
    ensures RowAt(f, ps[k], ts[k], DimsPlace(ps[k], ts[k]), ps[k + 1])
  {
    TableConcat(ts);
    Placed(f, p, Rows(ts), k);
    TensorParts(f, ps[k], ts[k], DimsPlace(ps[k], ts[k]), ps[k + 1]);
  }

  function DimsPlace(p: nat, t: Tensor): nat {
    p + 8 + |t.name| + 4
  }

  lemma RowMissed(f: seq<byte>, p: nat, name: seq<byte>, t: Tensor, d: nat, q: nat)
    requires RowAt(f, p, t, d, q) && NameOk(t.name) && name != t.name
    ensures RowLooker(f, name)(p) == Next(q)
  {
    SeenWhole(t.name);
    NameRead(f, p, t.name, name, |t.dims|, d);
  }

  lemma RowIs(f: seq<byte>, p: nat, name: seq<byte>, ty: u32, dims: seq<nat>, offset: u64, d: nat, e: nat)
    requires |name| <= MAX_KEY && 1 <= |dims| <= 4 && d == p + 8 + |name| + 4 && e == d + 8 * |dims| && e + 12 <= |f|
    requires Le64At(f, p) == |name| && Has(f, p + 8, name) && Seen(name) == name && Le32At(f, p + 8 + |name|) == |dims|
    requires ReadDims(f, d, |dims|) == dims && Le32At(f, e) == ty && Le64At(f, e + 4) == offset
    ensures LookRow(f, name, p) == Hit(Row(ty, dims, offset))
  {
    assert LookBody(f, true, |dims|, d) == Hit(Row(ty, dims, offset));
    NameRead(f, p, name, name, |dims|, d);
  }

  lemma NameRead(f: seq<byte>, p: nat, name: seq<byte>, wanted: seq<byte>, nd: nat, d: nat)
    requires |name| <= MAX_KEY && d == p + 8 + |name| + 4 <= |f|
    requires Le64At(f, p) == |name| && Has(f, p + 8, name) && Seen(name) == name && Le32At(f, p + 8 + |name|) == nd
    ensures LookRow(f, wanted, p) == LookBody(f, name == wanted, nd, d)
  {
  }

  lemma RowHit(f: seq<byte>, p: nat, t: Tensor, d: nat, q: nat, r: Row)
    requires RowAt(f, p, t, d, q) && NameOk(t.name) && SmallDims(t.dims) && r == Row(t.ty, t.dims, t.offset)
    ensures RowLooker(f, t.name)(p) == Hit(r)
  {
    SeenWhole(t.name);
    DimsRead(f, d, t.dims);
    RowIs(f, p, t.name, t.ty, t.dims, t.offset, d, q - 12);
  }

  lemma RowLeads(f: seq<byte>, name: seq<byte>, look: nat -> Look<Row>, p: nat, ts: seq<Tensor>, ps: seq<nat>, k: nat)
    requires DistinctNames(ts) && Has(f, p, WriteTensors(ts)) && k < |ts| && ts[k].name != name
    requires look == RowLooker(f, name) && ps == RowPlaces(p, ts)
    ensures Leads(look, ps, k)
  {
    RowsPlaced(f, p, ts, ps, k);
    RowMissed(f, ps[k], name, ts[k], DimsPlace(ps[k], ts[k]), ps[k + 1]);
  }

  lemma TensorWritten(f: seq<byte>, p: nat, ts: seq<Tensor>, i: nat, t: Tensor, r: Row)
    requires DistinctNames(ts) && Has(f, p, WriteTensors(ts)) && i < |ts| && t == ts[i]
    requires SmallDims(t.dims) && r == Row(t.ty, t.dims, t.offset)
    ensures FindTensor(f, p, |ts|, t.name) == Some(r)
  {
    var ps, look := RowPlaces(p, ts), RowLooker(f, t.name);
    forall k | 0 <= k < i
      ensures Leads(look, ps, k)
    {
      RowLeads(f, t.name, look, p, ts, ps, k);
    }
    RowsPlaced(f, p, ts, ps, i);
    RowHit(f, ps[i], t, DimsPlace(ps[i], t), ps[i + 1], r);
    SearchFinds(look, ps, 0, i, |ts|, r);
  }

  /** The rest of `gguf_get_tensor`, after the search; the offset handed out is cut to 32 bits. */
  function HandOut(size: nat, dataOff: nat, row: Option<Row>): (r: Option<Row>) {
    if row.Some? && Accepted(size, dataOff, row.value) then Some(row.value.(offset := row.value.offset % WORD))
    else None
  }

  /** The data the row describes lies inside the file. */
  ghost predicate InFile(size: nat, dataOff: nat, r: Row)
    requires |r.dims| > 0
  {
    dataOff + r.offset + (if TrueSize(r.ty, r.dims).Some? then TrueSize(r.ty, r.dims).value else 0) <= size
  }

  /** The converse of `FittingAccepted` fails, because both checks wrap: a tensor handed out lies inside the file
      exactly when neither its place nor its size leaves 64 bits. */
  lemma AcceptedInFileIff(size: nat, dataOff: nat, r: Row)
    requires size < WORD && |r.dims| > 0 && HandOut(size, dataOff, Some(r)).Some?
    ensures InFile(size, dataOff, r) <==>
      dataOff + r.offset < WORD64 && (TrueSize(r.ty, r.dims).Some? ==> TrueSize(r.ty, r.dims).value < WORD64)
  {
    if InFile(size, dataOff, r) { assert dataOff + r.offset <= size; }
  }

  function TensorIn(f: seq<byte>, info: Option<Info>, name: seq<byte>): (r: Option<Row>) {
    if info.None? then None
    else HandOut(|f|, info.value.dataOff, FindTensor(f, info.value.tensorOff, info.value.tensorCount, name))
  }

  /** `gguf_get_tensor` without the cache. */
  function GetTensor(f: seq<byte>, name: seq<byte>): (r: Option<Row>) {
    TensorIn(f, Probe(f), name)
  }

  /** Reading back a written file by name: every tensor comes out with the shape, type and offset it was written with.
      */
  lemma GetTensorWritten(g: File, f: seq<byte>, i: nat)
    requires Written(g, f) && DistinctNames(g.tensors) && i < |g.tensors|
    requires DataFits(g.tensors[i], |f|, Align32(InfoEnd(g)))
    ensures var t := g.tensors[i]; GetTensor(f, t.name) == Some(Row(t.ty, t.dims, t.offset))
  {
    var t := g.tensors[i];
    FoundInFile(g, f, i, t, Row(t.ty, t.dims, t.offset));
    FittingAccepted(t, |f|, Align32(InfoEnd(g)));
  }

  // ---- A file whose tensors are handed out without being in it ----

  const BIG: Tensor := Tensor([66], [0x8000_0000, 0x8000_0000, 4], 0, 0)
  const LOW: Tensor := Tensor([76], [1], 3, 0xFFFF_FFFF_FFFF_FF80)

  function WrappingFile(data: seq<byte>): File {
    File(3, [], [BIG, LOW], data)
  }

  lemma WrappingInfoEnd(data: seq<byte>)
    ensures FileOk(WrappingFile(data)) && DistinctNames([BIG, LOW])
    ensures MetaEnd(WrappingFile(data)) == 24 && InfoEnd(WrappingFile(data)) == 106
  {
    assert [BIG, LOW][1..] == [LOW] && [LOW][1..] == [];
    assert |WriteTensor(BIG)| == 49 && |WriteTensor(LOW)| == 33;
    assert WriteTensors([LOW]) == WriteTensor(LOW) + WriteTensors([]);
    assert WriteTensors([BIG, LOW]) == WriteTensor(BIG) + WriteTensors([LOW]);
  }

  lemma BigSize()
    ensures TrueSize(0, BIG.dims) == Some(4 * WORD64)
  {
    var outer: seq<nat> := [0x8000_0000, 4];
    assert BIG.dims[1..] == outer;
    ProductPush([], 0x8000_0000);
    ProductPush([0x8000_0000], 4);
    ProductPush(outer, 0x8000_0000);
    ProductPush(outer + [0x8000_0000], 4);
    assert [] + [0x8000_0000] == [0x8000_0000] && [0x8000_0000] + [4] == outer;
    assert outer + [0x8000_0000] + [4] == outer + [0x8000_0000, 4];
  }

  /** In this written file, whatever its data, the parser hands out a tensor of 2^66 bytes and one that starts 128 bytes
      in front of the data. */
  lemma WrappedAccepted(data: seq<byte>, f: seq<byte>)
    requires 128 + |data| < WORD && f == WriteFile(WrappingFile(data))
    ensures Written(WrappingFile(data), f) && |f| == 128 + |data|
    ensures GetTensor(f, BIG.name) == Some(Row(0, BIG.dims, 0)) && !InFile(|f|, 128, Row(0, BIG.dims, 0))
    ensures GetTensor(f, LOW.name) == Some(Row(3, LOW.dims, 0xFFFF_FF80))
    ensures !InFile(|f|, 128, Row(3, LOW.dims, LOW.offset))
  {
    var g := WrappingFile(data);
    WrappingInfoEnd(data);
    assert Align32(106) == 128;
    WriteFileWritten(g);
    BigSize();
    FoundInFile(g, f, 0, BIG, Row(0, BIG.dims, 0));
    FoundInFile(g, f, 1, LOW, Row(3, LOW.dims, LOW.offset));
  }

  /** What the parser makes of a tensor of a written file, wherever it claims to be. */
  lemma FoundInFile(g: File, f: seq<byte>, i: nat, t: Tensor, r: Row)
    requires Written(g, f) && DistinctNames(g.tensors) && i < |g.tensors| && t == g.tensors[i]
    requires SmallDims(t.dims) && r == Row(t.ty, t.dims, t.offset)
    ensures GetTensor(f, t.name) == HandOut(|f|, Align32(InfoEnd(g)), Some(r))
  {
    ProbeWritten(g, f);
    TensorWritten(f, MetaEnd(g), g.tensors, i, t, r);
  }
}
