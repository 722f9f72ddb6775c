/** The loops of the GGUF parser and its one-slot probe cache (`kernel/llm_gguf.c`, lines 19-55, 185-340 and 374-443),
    proved to compute the functions of `GgufFile` and `GgufLookup`. */
module GgufProbe {
  import opened Bytes
  import opened Gguf
  import opened GgufFile
  import opened GgufLookup

  method PassEntry(f: seq<byte>, p: nat) returns (r: Option<nat>)
    requires |f| < WORD
    ensures r == SkipEntry(f, p)
  {
    if !RangeOk(|f|, p, 8) { return None; }
    var keyLen := Le64At(f, p);
    if keyLen > MAX_KEY || !RangeOk(|f|, p + 8, keyLen) { return None; }
    if !RangeOk(|f|, p + 8 + keyLen, 4) { return None; }
    var ty, at := Le32At(f, p + 8 + keyLen), p + 8 + keyLen + 4;
    var n := SkipValue(f, at, ty);
    if n.None? || !RangeOk(|f|, at, n.value) { return None; }
    r := Some(at + n.value);
  }

  method PassRow(f: seq<byte>, p: nat) returns (r: Option<nat>)
    ensures r == SkipTensor(f, p)
  {
    if !RangeOk(|f|, p, 8) { return None; }
    var nameLen := Le64At(f, p);
    if nameLen > MAX_KEY || !RangeOk(|f|, p + 8, nameLen) { return None; }
    if !RangeOk(|f|, p + 8 + nameLen, 4) { return None; }
    var nd, q := Le32At(f, p + 8 + nameLen), p + 8 + nameLen + 4;
    if nd == 0 || nd > 4 || !RangeOk(|f|, q, 8 * nd) { return None; }
    if !RangeOk(|f|, q + 8 * nd, 12) { return None; }
    r := Some(q + 8 * nd + 12);
  }

  lemma EntriesOn(f: seq<byte>, p: nat, n: nat, q: Option<nat>, r: Option<nat>)
    requires p <= |f| && n > 0 && SkipEntry(f, p) == q && EntriesEnd(f, p, n) == r
    ensures if q.None? then r.None? else EntriesEnd(f, q.value, n - 1) == r
  {
  }

  lemma TensorsOn(f: seq<byte>, p: nat, n: nat, q: Option<nat>, r: Option<nat>)
    requires p <= |f| && n > 0 && SkipTensor(f, p) == q && TensorsEnd(f, p, n) == r
    ensures if q.None? then r.None? else TensorsEnd(f, q.value, n - 1) == r
  {
  }

  method PassEntries(f: seq<byte>, count: nat) returns (r: Option<nat>)
    requires HEADER <= |f| < WORD
    ensures r == EntriesEnd(f, HEADER, count)
  {
    ghost var end := EntriesEnd(f, HEADER, count);
    var p: nat, i: nat := HEADER, 0;
    while i < count
      invariant 0 <= i <= count && p <= |f| && EntriesEnd(f, p, count - i) == end
    {
      r := PassEntry(f, p);
      EntriesOn(f, p, count - i, r, end);
      if r.None? { return; }
      p, i := r.value, i + 1;
    }
    r := Some(p);
  }

  method PassRows(f: seq<byte>, start: nat, count: nat) returns (r: Option<nat>)
    requires start <= |f|
    ensures r == TensorsEnd(f, start, count)
  {
    ghost var end := TensorsEnd(f, start, count);
    var p: nat, i: nat := start, 0;
    while i < count
      invariant 0 <= i <= count && p <= |f| && TensorsEnd(f, p, count - i) == end
    {
      r := PassRow(f, p);
      TensorsOn(f, p, count - i, r, end);
      if r.None? { return; }
      p, i := r.value, i + 1;
    }
    r := Some(p);
  }

  /** The body of `gguf_probe` after the cache. */
  method Compute(f: seq<byte>) returns (r: Option<Info>)
    requires |f| < WORD
    ensures r == Probe(f)
  {
    if |f| < HEADER { return None; }
    var version, tensors, metas := Le32At(f, 4), Le64At(f, 8), Le64At(f, 16);
    if Le32At(f, 0) != MAGIC { return None; }
    if metas > MAX_ENTRIES || tensors > MAX_ENTRIES { return None; }
    if version == 0 || version > 3 { return None; }
    var p := PassEntries(f, metas);
    if p.None? { return None; }
    var q := PassRows(f, p.value, tensors);
    if q.None? { return None; }
    var dataOff := (q.value + 31) % WORD / 32 * 32;
    if dataOff > |f| { return None; }
    r := Some(Info(version, tensors, metas, HEADER, p.value, dataOff));
  }

  // ---- Lookups ----

  ghost predicate SeesEntry(look: nat -> Look<Found>, f: seq<byte>, key: seq<byte>) {
    forall p: nat {:trigger LookEntry(f, key, p)} :: look(p) == LookEntry(f, key, p)
  }

  method SeeEntry(f: seq<byte>, key: seq<byte>, p: nat, ghost look: nat -> Look<Found>) returns (r: Look<Found>)
    requires SeesEntry(look, f, key)
    requires |f| < WORD
    ensures r == look(p)
  {
    assert look(p) == LookEntry(f, key, p);
    if !RangeOk(|f|, p, 8) { return Broken; }
    var keyLen := Le64At(f, p);
    if keyLen > MAX_KEY || !RangeOk(|f|, p + 8, keyLen) { return Broken; }
    var current := Seen(f[p + 8..p + 8 + keyLen]);
    if !RangeOk(|f|, p + 8 + keyLen, 4) { return Broken; }
    var ty, at := Le32At(f, p + 8 + keyLen), p + 8 + keyLen + 4;
    if current == key { return Hit(Found(ty, at)); }
    var n := SkipValue(f, at, ty);
    if n.None? { return Broken; }
    r := Next((at + n.value) % WORD);
  }

  method EntryLoop(f: seq<byte>, start: nat, count: nat, key: seq<byte>, ghost look: nat -> Look<Found>)
    returns (r: Option<Found>)
    requires SeesEntry(look, f, key) && |f| < WORD
    ensures r == Search(look, start, count)
  {
    var p, i := start, 0;
    while i < count
      invariant 0 <= i <= count && Search(look, p, count - i) == Search(look, start, count)
    {
      var here := SeeEntry(f, key, p, look);
      match here
      case Broken => return None;
      case Hit(x) => return Some(x);
      case Next(q) => p, i := q, i + 1;
    }
    r := None;
  }

  method FindEntry(f: seq<byte>, start: nat, count: nat, key: seq<byte>) returns (r: Option<Found>)
    requires |f| < WORD
    ensures r == FindMeta(f, start, count, key)
  {
    r := EntryLoop(f, start, count, key, EntryLooker(f, key));
  }

  /** `gguf_get_metadata_value_from_info`. */
  method GetValue(f: seq<byte>, start: nat, count: nat, key: seq<byte>, expected: nat) returns (r: Option<seq<byte>>)
    requires |f| < WORD
    ensures r == GetMeta(f, start, count, key, expected)
  {
    var e := FindEntry(f, start, count, key);
    if e.None? || e.value.ty != expected { return None; }
    var ty, at := e.value.ty, e.value.at;
    if ty == 4 || ty == 5 || ty == 6 {
      if !RangeOk(|f|, at, 4) { return None; }
      return Some(f[at..at + 4]);
    }
    if ty == 10 || ty == 11 {
      if !RangeOk(|f|, at, 8) { return None; }
      return Some(f[at..at + 8]);
    }
    if ty != STRING || !RangeOk(|f|, at, 8) { return None; }
    var len := Le64At(f, at);
    if len > MAX_KEY || !RangeOk(|f|, at + 8, len) { return None; }
    var copyLen := if len > NAME_BUF then NAME_BUF else len;
    r := Some(f[at + 8..at + 8 + copyLen] + [0]);
  }

  /** The dimensions of a row, each checked to be there and cut to 32 bits. */
  method TakeDims(f: seq<byte>, start: nat, nd: nat) returns (r: Option<seq<nat>>)
    requires start <= |f|
    ensures r == if RangeOk(|f|, start, 8 * nd) then Some(ReadDims(f, start, nd)) else None
  {
    var ds: seq<nat> := [];
    var d := 0;
    while d < nd
      invariant 0 <= d <= nd && start + 8 * d <= |f| && ds == ReadDims(f, start, d)
    {
      if !RangeOk(|f|, start + 8 * d, 8) { return None; }
      LowHalf(f, start + 8 * d);
      ReadDimsSnoc(f, start, d);
      ds := ds + [Le64At(f, start + 8 * d) % WORD];
      d := d + 1;
    }
    r := Some(ds);
  }

  lemma {:induction false} ReadDimsSnoc(f: seq<byte>, q: nat, nd: nat)
    requires q + 8 * nd + 8 <= |f|
    ensures ReadDims(f, q, nd + 1) == ReadDims(f, q, nd) + [Le32At(f, q + 8 * nd) as nat]
    decreases nd
  {
    if nd > 0 { ReadDimsSnoc(f, q + 8, nd - 1); }
  }

  ghost predicate SeesRow(look: nat -> Look<Row>, f: seq<byte>, name: seq<byte>) {
    forall p: nat {:trigger LookRow(f, name, p)} :: look(p) == LookRow(f, name, p)
  }

  method SeeRow(f: seq<byte>, name: seq<byte>, p: nat, ghost look: nat -> Look<Row>) returns (r: Look<Row>)
    requires SeesRow(look, f, name)
    ensures r == look(p)
  {
    assert look(p) == LookRow(f, name, p);
    if !RangeOk(|f|, p, 8) { return Broken; }
    var nameLen := Le64At(f, p);
    if nameLen > MAX_KEY || !RangeOk(|f|, p + 8, nameLen) { return Broken; }
    var current := Seen(f[p + 8..p + 8 + nameLen]);
    if !RangeOk(|f|, p + 8 + nameLen, 4) { return Broken; }
    var nd, q := Le32At(f, p + 8 + nameLen), p + 8 + nameLen + 4;
    if nd == 0 || nd > 4 { return Broken; }
    var ds := TakeDims(f, q, nd);
    if ds.None? || !RangeOk(|f|, q + 8 * nd, 12) { return Broken; }
    if current == name { return Hit(Row(Le32At(f, q + 8 * nd), ds.value, Le64At(f, q + 8 * nd + 4))); }
    r := Next(q + 8 * nd + 12);
  }

  method RowLoop(f: seq<byte>, start: nat, count: nat, name: seq<byte>, ghost look: nat -> Look<Row>)
    returns (r: Option<Row>)
    requires SeesRow(look, f, name)
    ensures r == Search(look, start, count)
  {
    var p, i := start, 0;
    while i < count
      invariant 0 <= i <= count && Search(look, p, count - i) == Search(look, start, count)
    {
      var here := SeeRow(f, name, p, look);
      match here
      case Broken => return None;
      case Hit(x) => return Some(x);
      case Next(q) => p, i := q, i + 1;
    }
    r := None;
  }

  method FindRow(f: seq<byte>, start: nat, count: nat, name: seq<byte>) returns (r: Option<Row>)
    ensures r == FindTensor(f, start, count, name)
  {
    r := RowLoop(f, start, count, name, RowLooker(f, name));
  }

  /** The checks on the row found, with the size computed in wrapping 64-bit arithmetic. */
  method CheckRow(size: nat, dataOff: nat, row: Row) returns (r: Option<Row>)
    requires |row.dims| > 0
    ensures r == HandOut(size, dataOff, Some(row))
  {
    var start := (dataOff + row.offset) % WORD64;
    if start > size { return None; }
    var bytes := ByteSize(row.ty, row.dims);
    if bytes.Some? && bytes.value > size - start { return None; }
    r := Some(row.(offset := row.offset % WORD));
  }

  // ---- The cache ----

  ghost predicate Probed(memory: seq<byte>, start: nat, size: nat, info: Info) {
    start + size <= |memory| && Probe(memory[start..start + size]) == Some(info)
  }

  method ComputeIn(memory: seq<byte>, s: nat, n: nat) returns (r: Option<Info>)
    requires s + n <= |memory| && n < WORD
    ensures r == Probe(memory[s..s + n]) && (r.Some? ==> Probed(memory, s, n, r.value))
  {
    r := Compute(memory[s..s + n]);
  }

  /** Low memory with a model file somewhere in it, and the parser's single-slot cache. */
  class Parser {
    var memory: seq<byte>
    var valid: bool
    var start: nat
    var size: nat
    var info: Info

    /** A valid slot holds what probing its range afresh would give. */
    ghost predicate Valid()
      reads this
    {
      valid ==> Probed(memory, start, size, info)
    }

    constructor (bytes: seq<byte>)
      ensures Valid() && memory == bytes
    {
      memory, valid, start, size, info := bytes, false, 0, 0, Info(0, 0, 0, 0, 0, 0);
    }

    /** `gguf_probe`: a hit in the cache answers like a fresh probe. */
    method ProbeRange(s: nat, n: nat) returns (r: Option<Info>)
      requires Valid() && s + n <= |memory| && n < WORD
      modifies `valid, `start, `size, `info
      ensures Valid() && r == Probe(memory[s..s + n]) && (r.Some? ==> valid && start == s && size == n)
    {
      if valid && start == s && size == n { return Some(info); }
      r := ComputeIn(memory, s, n);
      if r.Some? { valid, start, size, info := true, s, n, r.value; }
    }

    /** `gguf_probe_invalidate`, which loading a model calls: whatever has happened to memory since the last probe, the
        next answer is a fresh one. */
    method Invalidate()
      modifies `valid
      ensures Valid() && !valid
    {
      valid := false;
    }

    /** `gguf_get_tensor`. */
    method Tensor(s: nat, n: nat, name: seq<byte>) returns (r: Option<Row>)
      requires Valid() && s + n <= |memory| && n < WORD
      modifies `valid, `start, `size, `info
      ensures Valid() && r == GetTensor(memory[s..s + n], name)
    {
      var i := ProbeRange(s, n);
      if i.None? { return None; }
      var f := memory[s..s + n];
      var row := FindRow(f, i.value.tensorOff, i.value.tensorCount, name);
      if row.None? { return None; }
      RowHasDims(f, i.value.tensorOff, i.value.tensorCount, name);
      r := CheckRow(n, i.value.dataOff, row.value);
    }
  }

  lemma {:induction false} FoundBy<R>(look: nat -> Look<R>, p: nat, n: nat) returns (q: nat)
    requires Search(look, p, n).Some?
    ensures look(q) == Hit(Search(look, p, n).value)
    decreases n
  {
    match look(p)
    case Hit(_) => q := p;
    case Next(next) => q := FoundBy(look, next, n - 1);
  }

  lemma RowHasDims(f: seq<byte>, p: nat, n: nat, name: seq<byte>)
    requires FindTensor(f, p, n, name).Some?
    ensures 1 <= |FindTensor(f, p, n, name).value.dims| <= 4
  {
    var q := FoundBy(RowLooker(f, name), p, n);
    assert RowLooker(f, name)(q) == LookRow(f, name, q);
  }
}
