/** `tokenizer_encode` as the kernel runs it: symbols in a fixed array, linked by index, merged in place.
    `kernel/tokenizer.c`, lines 148-344. */
module Tokenizer {
  import opened Bytes
  import opened Bpe
  import opened Utf8

  const BUFFER: nat := 600

  /** U+2581, the mark for a word-leading space. */
  const MARK: seq<byte> := [0xE2, 0x96, 0x81]

  function Code(o: Option<nat>): (c: int) {
    if o.Some? then o.value else -1
  }

  // ---- Vocabulary lookups ----

  method FindToken(v: Vocab, text: seq<byte>) returns (id: int)
    ensures id == Code(FindExact(v, text))
  {
    for i := 0 to |v.tokens|
      invariant FindFrom(v, text, i) == FindFrom(v, text, 0)
    {
      if v.tokens[i] == text { return i; }
    }
    id := -1;
  }

  method FindSpecial(v: Vocab, rest: seq<byte>) returns (best: int)
    requires v.Valid()
    ensures best == Code(SpecialAt(v, rest))
  {
    best := -1;
    var bestLen := 0;
    for k := 0 to |v.specials|
      invariant best == Code(SpecialAmong(v, rest, k))
      invariant bestLen == if best == -1 then 0 else |v.tokens[best]|
    {
      var id := v.specials[k];
      var len := |v.tokens[id]|;
      if len == 0 || len > |rest| || len <= bestLen { continue; }
      if v.tokens[id] == rest[..len] {
        best, bestLen := id, len;
      }
    }
  }

  // ---- The marked text ----

  function Marked(c: byte): seq<byte> {
    if c == 32 then MARK else [c]
  }

  /** The text with every space marked. */
  function Substituted(text: seq<byte>): seq<byte> {
    if text == [] then [] else Marked(text[0]) + Substituted(text[1..])
  }

  /** Filling the fixed buffer stops when fewer than four bytes and the terminator are left. */
  function Fill(acc: seq<byte>, text: seq<byte>): (r: seq<byte>)
    decreases |text|
  {
    if text == [] || |acc| + 4 >= BUFFER then acc else Fill(acc + Marked(text[0]), text[1..])
  }

  method Prepare(text: seq<byte>) returns (enc: seq<byte>)
    ensures enc == Fill(MARK, text)
  {
    enc := MARK;
    var i := 0;
    while i < |text| && |enc| + 4 < BUFFER
      invariant 0 <= i <= |text| && Fill(enc, text[i..]) == Fill(MARK, text)
    {
      assert text[i..][1..] == text[i + 1..];
      enc := enc + Marked(text[i]);
      i := i + 1;
    }
  }

  /** The buffer holds the marked text, or a prefix of it when it does not fit. */
  lemma {:induction false} FillIsPrefix(acc: seq<byte>, text: seq<byte>)
    ensures Fill(acc, text) <= acc + Substituted(text)
    ensures |acc + Substituted(text)| <= BUFFER - 4 ==> Fill(acc, text) == acc + Substituted(text)
    ensures |acc| < BUFFER - 1 ==> |Fill(acc, text)| < BUFFER - 1
    decreases |text|
  {
    if text != [] && |acc| + 4 < BUFFER {
      FillIsPrefix(acc + Marked(text[0]), text[1..]);
      assert acc + Marked(text[0]) + Substituted(text[1..]) == acc + Substituted(text);
    }
  }

  /** The mark is one character, U+2581. */
  lemma MarkIs()
    ensures MARK == [0xE2, 0x96, 0x81] && IsChar(MARK)
    ensures (0xE2 - 0xE0) * 0x1000 + (0x96 - 0x80) * 0x40 + (0x81 - 0x80) == 0x2581
  {
  }

  /** The characters of a text with every space replaced by the mark. */
  function MarkEach(cs: seq<seq<byte>>): (ds: seq<seq<byte>>)
    ensures |ds| == |cs|
    ensures forall i :: 0 <= i < |cs| ==> ds[i] == if cs[i] == [' ' as int] then [0xE2, 0x96, 0x81] else cs[i]
  {
    seq(|cs|, i requires 0 <= i < |cs| => if cs[i] == [' ' as int] then [0xE2, 0x96, 0x81] else cs[i])
  }

  lemma MarkEachChars(cs: seq<seq<byte>>)
    requires AllChars(cs)
    ensures AllChars(MarkEach(cs))
  {
    MarkIs();
    assert forall i :: 0 <= i < |cs| ==> IsChar(cs[i]);
  }

  lemma {:induction false} SubstitutedConcat(a: seq<byte>, b: seq<byte>)
    ensures Substituted(a + b) == Substituted(a) + Substituted(b)
  {
    if a == [] {
      assert a + b == b;
    } else {
      SubstitutedConcat(a[1..], b);
      assert (a + b)[1..] == a[1..] + b;
    }
  }

  lemma SubstitutedChar(c: seq<byte>)
    requires IsChar(c)
    ensures Substituted(c) == if c == [' ' as int] then [0xE2, 0x96, 0x81] else c
  {
    if |c| > 1 { Unmarked(c); }
  }

  lemma {:induction false} Unmarked(c: seq<byte>)
    requires 32 !in c
    ensures Substituted(c) == c
  {
    if c != [] {
      Unmarked(c[1..]);
      assert c == [c[0]] + c[1..];
    }
  }

  /** Marking works on characters: only the spaces among them change. */
  lemma {:induction false} SubstitutedChars(cs: seq<seq<byte>>)
    requires AllChars(cs)
    ensures Substituted(Join(cs)) == Join(MarkEach(cs))
  {
    if cs != [] {
      SubstitutedConcat(cs[0], Join(cs[1..]));
      SubstitutedChar(cs[0]);
      SubstitutedChars(cs[1..]);
      assert MarkEach(cs)[1..] == MarkEach(cs[1..]);
    }
  }

  // ---- The symbol array ----

  datatype Sym = Sym(off: nat, len: nat, prev: int, next: int, forced: int)

  /** Entry `i` of the array is piece `p`, linked to `prev` and `next`. */
  predicate Entry(s: Sym, p: Piece, prev: int, next: int) {
    s == Sym(p.off, p.len, prev, next, Code(p.forced))
  }

  function At(live: seq<nat>, k: int): int {
    if 0 <= k < |live| then live[k] else -1
  }

  /** Following the links from entry 0 visits the indices `live`, whose entries are the pieces `ps`. */
  ghost predicate Linked(a: seq<Sym>, live: seq<nat>, ps: seq<Piece>) {
    && |live| == |ps| > 0 && live[0] == 0
    && (forall k :: 0 <= k < |live| ==> live[k] < |a|)
    && (forall k {:trigger ps[k]} :: 0 <= k < |live| ==> Entry(a[live[k]], ps[k], At(live, k - 1), At(live, k + 1)))
    && Increasing(live)
  }

  function Without(live: seq<nat>, k: nat): seq<nat>
    requires k < |live|
  {
    live[..k] + live[k + 1..]
  }

  /** `live` is increasing, stated so that it is used only where asked for. */
  ghost predicate Increasing(live: seq<nat>) {
    forall j, k :: 0 <= j < k < |live| ==> Below(live, j, k)
  }

  predicate Below(live: seq<nat>, j: nat, k: nat)
    requires j < |live| && k < |live|
  {
    live[j] < live[k]
  }

  lemma WithoutAt(live: seq<nat>, k: nat, j: int)
    requires k < |live|
    ensures At(Without(live, k), j) == if j < k then At(live, j) else At(live, j + 1)
  {
  }

  /** The array after the merge of piece `k` with its successor: two entries change. */
  function Spliced(a: seq<Sym>, i: nat): (r: seq<Sym>)
    requires i < |a| && 0 <= a[i].next < |a| && -1 <= a[a[i].next].next < |a|
    ensures |r| == |a|
  {
    var s := a[a[i].next];
    var b := a[i := a[i].(len := a[i].len + s.len, next := s.next)];
    if s.next != -1 then b[s.next := b[s.next].(prev := i)] else b
  }

  lemma SpliceLinked(a: seq<Sym>, live: seq<nat>, ps: seq<Piece>, k: nat)
    requires Linked(a, live, ps) && k + 1 < |ps| && ps[k].forced.None?
    ensures a[live[k]].next == live[k + 1] && a[live[k + 1]].next == At(live, k + 2)
    ensures Linked(Spliced(a, live[k]), Without(live, k + 1), MergeAt(ps, k))
  {
    var i := live[k];
    assert Entry(a[i], ps[k], At(live, k - 1), At(live, k + 1));
    assert Entry(a[live[k + 1]], ps[k + 1], At(live, k), At(live, k + 2));
    var r, l, q := Spliced(a, i), Without(live, k + 1), MergeAt(ps, k);
    forall j | 0 <= j < |l| ensures Entry(r[l[j]], q[j], At(l, j - 1), At(l, j + 1)) {
      SpliceEntry(a, live, ps, k, j);
    }
    WithoutIncreasing(live, k + 1);
  }

  lemma WithoutIncreasing(live: seq<nat>, k: nat)
    requires Increasing(live) && k < |live|
    ensures Increasing(Without(live, k))
  {
    var l := Without(live, k);
    forall i, j | 0 <= i < j < |l| ensures Below(l, i, j) {
      assert Below(live, if i < k then i else i + 1, if j < k then j else j + 1);
    }
  }

  lemma SpliceEntry(a: seq<Sym>, live: seq<nat>, ps: seq<Piece>, k: nat, j: nat)
    requires Linked(a, live, ps) && k + 1 < |ps| && ps[k].forced.None? && j < |ps| - 1
    requires a[live[k]].next == live[k + 1] && a[live[k + 1]].next == At(live, k + 2)
    ensures var l := Without(live, k + 1);
            Entry(Spliced(a, live[k])[l[j]], MergeAt(ps, k)[j], At(l, j - 1), At(l, j + 1))
  {
    WithoutAt(live, k + 1, j);
    WithoutAt(live, k + 1, j - 1);
    WithoutAt(live, k + 1, j + 1);
    MergedAt(ps, k, j);
    var o := if j <= k then j else j + 1;
    SplicedAt(a, live, ps, k, o);
    assert Without(live, k + 1)[j] == live[o];
  }

  lemma MergedAt(ps: seq<Piece>, k: nat, j: nat)
    requires k + 1 < |ps| && j < |ps| - 1
    ensures MergeAt(ps, k)[j] == if j < k then ps[j]
                                 else if j == k then Piece(ps[k].off, ps[k].len + ps[k + 1].len, None) else ps[j + 1]
  {
  }

  /** The surviving entries after the merge, by their position before it. */
  lemma SplicedAt(a: seq<Sym>, live: seq<nat>, ps: seq<Piece>, k: nat, o: nat)
    requires Linked(a, live, ps) && k + 1 < |ps| && o < |ps| && o != k + 1
    requires a[live[k]].next == live[k + 1] && a[live[k + 1]].next == At(live, k + 2)
    ensures var p := if o == k then Piece(ps[k].off, ps[k].len + ps[k + 1].len, ps[k].forced) else ps[o];
            Entry(Spliced(a, live[k])[live[o]], p, if o == k + 2 then live[k] else At(live, o - 1),
                  if o == k then At(live, k + 2) else At(live, o + 1))
  {
    assert Entry(a[live[o]], ps[o], At(live, o - 1), At(live, o + 1));
    assert Entry(a[live[k + 1]], ps[k + 1], At(live, k), At(live, k + 2));
    assert k + 2 < |live| ==> Below(live, k, k + 2);
    assert o < k ==> Below(live, o, k);
    assert o < k && k + 2 < |live| ==> Below(live, o, k + 2);
    assert k + 2 < o ==> Below(live, k, o) && Below(live, k + 2, o);
  }

  // ---- Splitting into the array ----

  function Iota(n: nat): (s: seq<nat>)
    ensures |s| == n && forall k :: 0 <= k < n ==> s[k] == k
  {
    if n == 0 then [] else Iota(n - 1) + [n - 1]
  }

  /** The first `n` entries are `ps`, each linked to its neighbours and the last one on to `n`. */
  ghost predicate Filled(a: seq<Sym>, n: nat, ps: seq<Piece>) {
    n == |ps| <= |a| && forall k :: 0 <= k < n ==> Entry(a[k], ps[k], k - 1, k + 1)
  }

  lemma FilledSnoc(a: seq<Sym>, n: nat, ps: seq<Piece>, p: Piece)
    requires Filled(a, n, ps) && n < |a|
    ensures Filled(a[n := Sym(p.off, p.len, n - 1, n + 1, Code(p.forced))], n + 1, ps + [p])
  {
  }

  lemma FilledLinked(a: seq<Sym>, n: nat, ps: seq<Piece>)
    requires Filled(a, n, ps) && n > 0
    ensures Linked(a[n - 1 := a[n - 1].(next := -1)], Iota(n), ps)
  {
    var b, live := a[n - 1 := a[n - 1].(next := -1)], Iota(n);
    forall k | 0 <= k < n ensures Entry(b[live[k]], ps[k], At(live, k - 1), At(live, k + 1)) {
      assert Entry(a[k], ps[k], k - 1, k + 1);
    }
  }

  /** `p` is the piece that a split of `text` from `pos` on begins with. */
  ghost predicate NextIs(v: Vocab, text: seq<byte>, pos: nat, p: Piece)
    requires v.Valid()
  {
    && p.off == pos < |text| && p.len > 0 && p.End() <= |text|
    && forall n: nat :: n > 0 ==> Split(v, text, pos, n) == [p] + Split(v, text, p.End(), n - 1)
  }

  /** The body of the splitting loop: a control token if one matches here, one character otherwise. */
  method NextPiece(v: Vocab, text: seq<byte>, pos: nat) returns (len: nat, forced: int, ghost p: Piece)
    requires v.Valid() && pos < |text|
    ensures len == PieceAt(v, text, pos).len && forced == Code(PieceAt(v, text, pos).forced)
    ensures NextIs(v, text, pos, p) && len == p.len && forced == Code(p.forced)
  {
    p := PieceAt(v, text, pos);
    forced := FindSpecial(v, text[pos..]);
    if forced >= 0 {
      len := |v.tokens[forced]|;
    } else {
      len := CharLen(text[pos]);
      if pos + len > |text| { len := |text| - pos; }
    }
  }

  /** `n` symbols stand for the text up to `pos`, and splitting the rest completes `all`. */
  ghost predicate SplitInv(v: Vocab, text: seq<byte>, a: seq<Sym>, n: nat, left: nat, pos: nat, ps: seq<Piece>,
                           all: seq<Piece>) {
    && v.Valid() && n + left == |a| && pos <= |text| && (n == 0 ==> pos == 0)
    && Filled(a, n, ps) && ps + Split(v, text, pos, left) == all
  }

  lemma SplitStep(v: Vocab, text: seq<byte>, a: seq<Sym>, n: nat, left: nat, pos: nat, ps: seq<Piece>, all: seq<Piece>,
                  p: Piece, len: nat, forced: int, a': seq<Sym>)
    requires SplitInv(v, text, a, n, left, pos, ps, all) && left > 0 && NextIs(v, text, pos, p)
    requires len == p.len && forced == Code(p.forced) && a' == a[n := Sym(pos, len, n - 1, n + 1, forced)]
    ensures SplitInv(v, text, a', n + 1, left - 1, pos + len, ps + [p], all)
  {
    FilledSnoc(a, n, ps, p);
    var rest := Split(v, text, p.End(), left - 1);
    assert Split(v, text, pos, left) == [p] + rest;
    assert ps + ([p] + rest) == ps + [p] + rest;
  }

  lemma SplitDone(v: Vocab, text: seq<byte>, a: seq<Sym>, n: nat, left: nat, pos: nat, ps: seq<Piece>, all: seq<Piece>)
    requires SplitInv(v, text, a, n, left, pos, ps, all) && (pos == |text| || left == 0) && |text| > 0 && |a| > 0
    ensures n > 0 && Linked(a[n - 1 := a[n - 1].(next := -1)], Iota(n), all)
  {
    assert ps + [] == ps;
    FilledLinked(a, n, ps);
  }

  method AddSymbol(v: Vocab, text: seq<byte>, a: array<Sym>, n: nat, pos: nat, ghost ps: seq<Piece>,
                   ghost all: seq<Piece>)
    returns (pos': nat, ghost ps': seq<Piece>)
    requires pos < |text| && n < a.Length && SplitInv(v, text, a[..], n, a.Length - n, pos, ps, all)
    modifies a
    ensures SplitInv(v, text, a[..], n + 1, a.Length - (n + 1), pos', ps', all)
  {
    ghost var before := a[..];
    var len, forced, p := NextPiece(v, text, pos);
    a[n] := Sym(pos, len, n - 1, n + 1, forced);
    assert a[..] == before[n := Sym(pos, len, n - 1, n + 1, forced)];
    SplitStep(v, text, before, n, a.Length - n, pos, ps, all, p, len, forced, a[..]);
    pos', ps' := pos + len, ps + [p];
  }

  method SplitInto(v: Vocab, text: seq<byte>, a: array<Sym>) returns (n: nat)
    requires v.Valid() && |text| > 0 && a.Length > 0
    modifies a
    ensures n > 0 && Linked(a[..], Iota(n), Split(v, text, 0, a.Length))
  {
    n := 0;
    var pos := 0;
    ghost var ps, all := [], Split(v, text, 0, a.Length);
    assert [] + all == all;
    while pos < |text| && n < a.Length
      invariant 0 <= pos && n <= a.Length && SplitInv(v, text, a[..], n, a.Length - n, pos, ps, all)
      decreases a.Length - n
    {
      pos, ps := AddSymbol(v, text, a, n, pos, ps, all);
      n := n + 1;
    }
    ghost var before := a[..];
    SplitDone(v, text, before, n, a.Length - n, pos, ps, all);
    a[n - 1] := a[n - 1].(next := -1);
    assert a[..] == before[n - 1 := before[n - 1].(next := -1)];
  }

  // ---- The merge loop ----

  /** Index and score of the best pair among the first `k`, as the scan keeps them. */
  ghost predicate Candidate(v: Vocab, text: seq<byte>, live: seq<nat>, ps: seq<Piece>, k: nat, i: int, score: real)
    requires v.Valid() && k <= |live| == |ps|
  {
    var b := Best(v, text, ps, k);
    i == (if b.Some? then At(live, b.value) else -1) && (b.Some? ==> score == ScoreAt(v, text, ps, b.value))
  }

  /** The symbols are linked and partition the front of the text. */
  ghost predicate Ready(text: seq<byte>, a: seq<Sym>, live: seq<nat>, ps: seq<Piece>, hi: nat) {
    Linked(a, live, ps) && Tiled(ps, 0, hi) && hi <= |text|
  }

  lemma EntryFacts(text: seq<byte>, a: seq<Sym>, live: seq<nat>, ps: seq<Piece>, hi: nat, k: nat)
    requires Ready(text, a, live, ps, hi) && k < |ps|
    ensures live[k] < |a| && a[live[k]].next == At(live, k + 1)
    ensures a[live[k]].forced == Code(ps[k].forced) && a[live[k]].off == ps[k].off && a[live[k]].len == ps[k].len
    ensures ps[k].End() <= |text|
    ensures k + 1 < |ps| ==> ps[k].End() == ps[k + 1].off
  {
    assert Entry(a[live[k]], ps[k], At(live, k - 1), At(live, k + 1));
    TiledBound(ps, 0, hi, k);
    if k + 1 < |ps| { assert StartOf(ps, k + 1, 0) == ps[k + 1].off; }
  }

  /** The token that the symbols `i` and `j` would make together, or -1. */
  method PairToken(v: Vocab, text: seq<byte>, a: array<Sym>, i: nat, j: nat,
                   ghost live: seq<nat>, ghost ps: seq<Piece>, ghost hi: nat, ghost k: nat) returns (tok: int)
    requires Ready(text, a[..], live, ps, hi) && k + 1 < |ps| && i == live[k] && j == live[k + 1]
    ensures tok == Code(Merged(v, text, ps, k))
  {
    EntryFacts(text, a[..], live, ps, hi, k);
    EntryFacts(text, a[..], live, ps, hi, k + 1);
    if a[i].forced >= 0 || a[j].forced >= 0 { return -1; }
    var mergedLen := a[i].len + a[j].len;
    tok := FindToken(v, text[a[i].off..a[i].off + mergedLen]);
  }

  lemma CandidateNext(v: Vocab, text: seq<byte>, live: seq<nat>, ps: seq<Piece>, k: nat, i: int, score: real)
    requires v.Valid() && k < |live| == |ps| && Candidate(v, text, live, ps, k, i, score)
    ensures var m := Merged(v, text, ps, k);
            if m.Some? && (i == -1 || Score(v, m.value) > score)
            then Candidate(v, text, live, ps, k + 1, live[k], Score(v, m.value))
            else Candidate(v, text, live, ps, k + 1, i, score)
  {
    assert Best(v, text, ps, k + 1) == Better(v, text, ps, Best(v, text, ps, k), k);
  }

  /** The scan for the best pair: along the links, keeping the first of equally good ones. */
  method FindBest(v: Vocab, text: seq<byte>, a: array<Sym>, ghost live: seq<nat>, ghost ps: seq<Piece>, ghost hi: nat)
    returns (best: int)
    requires v.Valid() && Ready(text, a[..], live, ps, hi)
    ensures var b := Best(v, text, ps, |ps|); best == if b.Some? then At(live, b.value) else -1
  {
    best := -1;
    var score := 0.0;
    var i := 0;
    ghost var k := 0;
    while true
      invariant 0 <= k < |ps| && i == live[k] && Candidate(v, text, live, ps, k, best, score)
      decreases |ps| - k
    {
      EntryFacts(text, a[..], live, ps, hi, k);
      CandidateNext(v, text, live, ps, k, best, score);
      var j := a[i].next;
      if j == -1 { break; }
      var tok := PairToken(v, text, a, i, j, live, ps, hi, k);
      if tok >= 0 && (best == -1 || Score(v, tok) > score) {
        best, score := i, Score(v, tok);
      }
      i, k := j, k + 1;
    }
  }

  /** One merge: the left symbol takes over the length and the link of its successor. */
  method Merge(a: array<Sym>, i: nat, ghost live: seq<nat>, ghost ps: seq<Piece>, ghost k: nat)
    requires Linked(a[..], live, ps) && k + 1 < |ps| && ps[k].forced.None? && i == live[k]
    modifies a
    ensures Linked(a[..], Without(live, k + 1), MergeAt(ps, k))
  {
    ghost var before := a[..];
    SpliceLinked(before, live, ps, k);
    var j := a[i].next;
    var next := a[j].next;
    a[i] := a[i].(len := a[i].len + a[j].len, next := next);
    if next != -1 {
      a[next] := a[next].(prev := i);
    }
    assert a[..] == Spliced(before, i);
  }

  /** The whole merge loop computes the specified encoding; the number of live symbols falls every time. */
  method MergeAll(v: Vocab, text: seq<byte>, a: array<Sym>, ghost live0: seq<nat>, ghost ps0: seq<Piece>, ghost hi: nat)
    returns (ghost live: seq<nat>)
    requires v.Valid() && Ready(text, a[..], live0, ps0, hi)
    modifies a
    ensures Ready(text, a[..], live, Encode(v, text, ps0), hi)
  {
    live := live0;
    ghost var ps := ps0;
    while true
      invariant Ready(text, a[..], live, ps, hi) && Encode(v, text, ps) == Encode(v, text, ps0)
      decreases |ps|
    {
      var best := FindBest(v, text, a, live, ps, hi);
      if best == -1 { break; }
      ghost var k := Best(v, text, ps, |ps|).value;
      MergeTiled(ps, 0, hi, k);
      Merge(a, best, live, ps, k);
      live, ps := Without(live, k + 1), MergeAt(ps, k);
    }
  }

  // ---- Emitting ----

  function Take(s: seq<nat>, n: nat): seq<nat> {
    if |s| <= n then s else s[..n]
  }

  /** `out` is complete up to `rest`, or already cut off at `max`. */
  ghost predicate Emitted(out: seq<nat>, rest: seq<nat>, full: seq<nat>, max: nat) {
    |out| <= max && (out + rest == full || (|out| == max && out == Take(full, max)))
  }

  lemma EmittedDone(out: seq<nat>, rest: seq<nat>, full: seq<nat>, max: nat)
    requires Emitted(out, rest, full, max) && (rest == [] || |out| == max)
    ensures out == Take(full, max)
  {
    if out + rest == full { assert rest == [] ==> out == full; }
  }

  lemma EmittedMore(out: seq<nat>, x: seq<nat>, rest: seq<nat>, full: seq<nat>, max: nat)
    requires Emitted(out, x + rest, full, max) && |out| < max
    ensures Emitted(Take(out + x, max), rest, full, max)
  {
    assert out + (x + rest) == out + x + rest;
  }

  lemma IdsOfBytes(v: Vocab, text: seq<byte>, off: nat, n: nat)
    requires off + n <= |text| && n > 0
    ensures var t := FindExact(v, ByteName(text[off]));
            Ids(EmitBytes(v, text, off, n)) ==
              (if t.Some? then [t.value] else []) + Ids(EmitBytes(v, text, off + 1, n - 1))
  {
    var t := FindExact(v, ByteName(text[off]));
    var x := if t.Some? then [Emission(t.value, off, 1, Fallback)] else [];
    IdsConcat(x, EmitBytes(v, text, off + 1, n - 1));
    if t.Some? { assert x[1..] == []; }
  }

  /** The fallback loop over the bytes of a symbol. */
  method EmitFallback(v: Vocab, text: seq<byte>, off: nat, n: nat, tokens: seq<nat>, max: nat) returns (out: seq<nat>)
    requires off + n <= |text| && |tokens| <= max
    ensures out == Take(tokens + Ids(EmitBytes(v, text, off, n)), max)
  {
    ghost var full := tokens + Ids(EmitBytes(v, text, off, n));
    out := tokens;
    var pos, left := off, n;
    while left > 0 && |out| < max
      invariant 0 <= left && off <= pos && pos + left == off + n
      invariant Emitted(out, Ids(EmitBytes(v, text, pos, left)), full, max)
    {
      out := EmitByte(v, text, pos, left, out, full, max);
      pos, left := pos + 1, left - 1;
    }
    EmittedDone(out, Ids(EmitBytes(v, text, pos, left)), full, max);
  }

  method EmitByte(v: Vocab, text: seq<byte>, pos: nat, ghost left: nat, tokens: seq<nat>, ghost full: seq<nat>,
                  max: nat)
    returns (out: seq<nat>)
    requires left > 0 && pos + left <= |text| && |tokens| < max
    requires Emitted(tokens, Ids(EmitBytes(v, text, pos, left)), full, max)
    ensures Emitted(out, Ids(EmitBytes(v, text, pos + 1, left - 1)), full, max)
  {
    var t := FindToken(v, ByteName(text[pos]));
    IdsOfBytes(v, text, pos, left);
    ghost var x := if t >= 0 then [t] else [];
    EmittedMore(tokens, x, Ids(EmitBytes(v, text, pos + 1, left - 1)), full, max);
    out := if t >= 0 then tokens + [t] else tokens;
    assert out == Take(tokens + x, max);
  }

  lemma {:induction false} IdsConcat(x: seq<Emission>, y: seq<Emission>)
    ensures Ids(x + y) == Ids(x) + Ids(y)
  {
    if x == [] {
      assert x + y == y;
    } else {
      IdsConcat(x[1..], y);
      assert (x + y)[1..] == x[1..] + y;
    }
  }

  /** What one symbol contributes. */
  method EmitSymbol(v: Vocab, text: seq<byte>, s: Sym, ghost p: Piece, tokens: seq<nat>, max: nat)
    returns (out: seq<nat>)
    requires |tokens| < max && p.End() <= |text| && s.off == p.off && s.len == p.len && s.forced == Code(p.forced)
    ensures out == Take(tokens + Ids(EmitPiece(v, text, p)), max)
  {
    if s.forced >= 0 {
      assert EmitPiece(v, text, p)[1..] == [];
      return tokens + [s.forced];
    }
    var tok := FindToken(v, text[s.off..s.off + s.len]);
    if tok >= 0 {
      assert EmitPiece(v, text, p)[1..] == [];
      return tokens + [tok];
    }
    out := EmitFallback(v, text, s.off, s.len, tokens, max);
  }

  /** The emitting loop, along the links. */
  method EmitTokens(v: Vocab, text: seq<byte>, a: array<Sym>, max: nat, ghost live: seq<nat>, ghost ps: seq<Piece>,
                    ghost hi: nat)
    returns (out: seq<nat>)
    requires Ready(text, a[..], live, ps, hi) && forall k :: 0 <= k < |ps| ==> ps[k].End() <= |text|
    ensures out == Take(Ids(EmitAll(v, text, ps)), max)
  {
    ghost var full := Ids(EmitAll(v, text, ps));
    out := [];
    var i := 0;
    ghost var k := 0;
    assert ps[0..] == ps;
    while i != -1 && |out| < max
      invariant 0 <= k <= |ps| && i == At(live, k) && Emitted(out, Ids(EmitAll(v, text, ps[k..])), full, max)
      decreases |ps| - k
    {
      EntryFacts(text, a[..], live, ps, hi, k);
      ghost var x, rest := EmitPiece(v, text, ps[k]), EmitAll(v, text, ps[k + 1..]);
      assert ps[k..][1..] == ps[k + 1..];
      IdsConcat(x, rest);
      EmittedMore(out, Ids(x), Ids(rest), full, max);
      out := EmitSymbol(v, text, a[i], ps[k], out, max);
      i := a[i].next;
      k := k + 1;
    }
    EmittedDone(out, Ids(EmitAll(v, text, ps[k..])), full, max);
  }

  // ---- The whole encoder ----

  /** The pieces the encoder ends with. */
  function Pieces(v: Vocab, text: seq<byte>): seq<Piece>
    requires v.Valid()
  {
    Encode(v, Fill(MARK, text), Split(v, Fill(MARK, text), 0, MAX_SYMBOLS))
  }

  lemma PiecesTiled(v: Vocab, text: seq<byte>) returns (hi: nat)
    requires v.Valid()
    ensures var enc := Fill(MARK, text);
            && |enc| > 0 && hi <= |enc| && Tiled(Split(v, enc, 0, 512), 0, hi) && Tiled(Pieces(v, text), 0, hi)
            && forall k :: 0 <= k < |Pieces(v, text)| ==> Pieces(v, text)[k].End() <= |enc|
  {
    var enc := Fill(MARK, text);
    FillGrows(MARK, text);
    var ps := Split(v, enc, 0, MAX_SYMBOLS);
    hi := EndOf(ps, 0);
    SplitTiled(v, enc, 0, MAX_SYMBOLS);
    EncodeTiled(v, enc, ps, 0, hi);
    forall k | 0 <= k < |Pieces(v, text)| ensures Pieces(v, text)[k].End() <= |enc| {
      TiledBound(Pieces(v, text), 0, hi, k);
    }
  }

  lemma {:induction false} FillGrows(acc: seq<byte>, text: seq<byte>)
    ensures acc <= Fill(acc, text)
    decreases |text|
  {
    if text != [] && |acc| + 4 < BUFFER { FillGrows(acc + Marked(text[0]), text[1..]); }
  }

  /** `tokenizer_encode`: at most `max` of the ids that the specification emits. */
  method Tokenize(v: Vocab, text: seq<byte>, max: nat) returns (tokens: seq<nat>)
    requires v.Valid()
    ensures (forall k :: 0 <= k < |Pieces(v, text)| ==> Pieces(v, text)[k].End() <= |Fill(MARK, text)|)
    ensures tokens == Take(Ids(EmitAll(v, Fill(MARK, text), Pieces(v, text))), max)
  {
    var enc := Prepare(text);
    ghost var hi := PiecesTiled(v, text);
    var symbols := new Sym[MAX_SYMBOLS];
    var n := SplitInto(v, enc, symbols);
    ghost var live := MergeAll(v, enc, symbols, Iota(n), Split(v, enc, 0, MAX_SYMBOLS), hi);
    tokens := EmitTokens(v, enc, symbols, max, live, Pieces(v, text), hi);
  }

  /** Every id the encoder emits is the token of a stretch of the marked text or the fallback token of one byte of it;
      the control tokens found in the text come through as they are; and no pair that could be merged is left. */
  lemma EncodingSound(v: Vocab, text: seq<byte>)
    requires v.Valid()
    ensures var enc, ps := Fill(MARK, text), Pieces(v, text);
            && (forall k :: 0 <= k < |ps| ==> ps[k].End() <= |enc|)
            && AllJustified(v, enc, EmitAll(v, enc, ps))
            && Controls(ps) == Controls(Split(v, enc, 0, 512))
            && forall k :: 0 <= k < |ps| ==> Merged(v, enc, ps, k).None?
  {
    var enc := Fill(MARK, text);
    var hi := PiecesTiled(v, text);
    var ps := Split(v, enc, 0, MAX_SYMBOLS);
    SplitMatches(v, enc, 0, MAX_SYMBOLS);
    EncodeMatches(v, enc, ps);
    EmitJustified(v, enc, Pieces(v, text));
    EncodeKeepsControls(v, enc, ps);
    EncodeIsNormal(v, enc, ps);
  }

  /** Nothing is lost or repeated: with a fallback token for every byte the emitted stretches cover the marked text
      from its first byte on, to its end unless it has more than 512 symbols. */
  lemma EncodingLossless(v: Vocab, text: seq<byte>) returns (hi: nat)
    requires v.Valid() && HasAllBytes(v)
    ensures var enc, ps := Fill(MARK, text), Pieces(v, text);
            && (forall k :: 0 <= k < |ps| ==> ps[k].End() <= |enc|)
            && hi <= |enc| && Covers(EmitAll(v, enc, ps), 0, hi)
            && (|Split(v, enc, 0, 512)| < 512 ==> hi == |enc|)
  {
    var enc := Fill(MARK, text);
    hi := PiecesTiled(v, text);
    SplitTiled(v, enc, 0, MAX_SYMBOLS);
    EmitCovers(v, enc, Pieces(v, text), 0, hi);
  }

  /** The characters of the marked text: the mark, then those of the text with spaces marked. */
  function MarkedChars(cs: seq<seq<byte>>): seq<seq<byte>> {
    [[0xE2, 0x96, 0x81]] + MarkEach(cs)
  }

  /** For a text of characters the buffer holds the marked characters, all of them if they take at most 596 bytes. The
      symbols start out as those characters and the control tokens among them, and no token ever starts inside a
      character. */
  lemma EncodingOnChars(v: Vocab, text: seq<byte>, cs: seq<seq<byte>>)
    requires v.Valid() && ControlsAreText(v) && AllChars(cs) && Join(cs) == text
    ensures var enc, ds, ps := Fill(MARK, text), MarkedChars(cs), Pieces(v, text);
            && AllChars(ds) && |enc| <= 598 && enc <= Join(ds) && (|Join(ds)| <= 596 ==> enc == Join(ds))
            && OnChars(ds, enc, Split(v, enc, 0, 512))
            && forall i :: 0 <= i < |ps| ==> Boundary(ds, ps[i].off)
  {
    var enc, ds := Fill(MARK, text), MarkedChars(cs);
    MarkIs();
    MarkEachChars(cs);
    SubstitutedChars(cs);
    FillIsPrefix(MARK, text);
    assert ds[1..] == MarkEach(cs);
    assert AllChars(ds);
    assert 0 == Start(ds, 0);
    SplitOnChars(v, ds, enc, 0, 512);
    EncodeOnChars(v, ds, enc, Split(v, enc, 0, 512));
  }

  /** The symbols become the final pieces by merging, again and again, the leftmost of the highest-scoring neighbours
      that together spell a token, until there are none; each final piece is emitted as its token if it has one. */
  lemma EncodingMerges(v: Vocab, text: seq<byte>) returns (run: seq<seq<Piece>>)
    requires v.Valid()
    ensures var enc := Fill(MARK, text);
            && |run| > 0 && run[0] == Split(v, enc, 0, 512) && run[|run| - 1] == Pieces(v, text)
            && (forall i :: 0 <= i < |run| - 1 ==> MergeStep(v, enc, run[i], run[i + 1]))
            && NoneMergeable(v, enc, Pieces(v, text))
  {
    var enc := Fill(MARK, text);
    SplitTiled(v, enc, 0, MAX_SYMBOLS);
    var ps := Split(v, enc, 0, MAX_SYMBOLS);
    run := EncodeMerges(v, enc, ps, 0, EndOf(ps, 0));
  }
}
