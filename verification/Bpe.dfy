/** Byte-pair encoding as a specification over sequences of pieces: what `tokenizer_encode` computes
    (`kernel/tokenizer.c`, lines 148-341), without the linked list it computes it with. */
module Bpe {
  import opened Bytes
  import opened Utf8

  /** A vocabulary: token texts, optional merge scores, and the ids of the control tokens. */
  datatype Vocab = Vocab(tokens: seq<seq<byte>>, scores: Option<seq<real>>, specials: seq<nat>) {
    ghost predicate Valid() {
      && (scores.Some? ==> |scores.value| == |tokens|)
      && (forall k :: 0 <= k < |specials| ==> specials[k] < |tokens|)
    }
  }

  // ---- Vocabulary lookups ----

  /** `tokenizer_find_exact`: the lowest id at or above `from` with this text. */
  function FindFrom(v: Vocab, text: seq<byte>, from: nat): (r: Option<nat>)
    requires from <= |v.tokens|
    ensures r.Some? ==> from <= r.value < |v.tokens| && v.tokens[r.value] == text
    ensures r.Some? ==> forall i :: from <= i < r.value ==> v.tokens[i] != text
    ensures r.None? ==> forall i :: from <= i < |v.tokens| ==> v.tokens[i] != text
    decreases |v.tokens| - from
  {
    if from == |v.tokens| then None
    else if v.tokens[from] == text then Some(from)
    else FindFrom(v, text, from + 1)
  }

  function FindExact(v: Vocab, text: seq<byte>): (r: Option<nat>)
    ensures r.Some? ==> r.value < |v.tokens| && v.tokens[r.value] == text
    ensures r.Some? <==> text in v.tokens
  {
    FindFrom(v, text, 0)
  }

  predicate SpecialHere(v: Vocab, rest: seq<byte>, id: nat)
    requires id < |v.tokens|
  {
    0 < |v.tokens[id]| <= |rest| && v.tokens[id] == rest[..|v.tokens[id]|]
  }

  /** The text begins with the token, which is not empty. */
  lemma SpecialHereIs(v: Vocab, rest: seq<byte>, id: nat)
    requires id < |v.tokens|
    ensures SpecialHere(v, rest, id) <==> v.tokens[id] != [] && v.tokens[id] <= rest
  {
  }

  /** `tokenizer_find_special_at` over the first `n` control tokens: the longest match, the first of equal ones. */
  function SpecialAmong(v: Vocab, rest: seq<byte>, n: nat): (r: Option<nat>)
    requires v.Valid() && n <= |v.specials|
    ensures r.Some? ==> r.value < |v.tokens| && SpecialHere(v, rest, r.value) && r.value in v.specials[..n]
    ensures forall k :: 0 <= k < n && SpecialHere(v, rest, v.specials[k]) ==>
      r.Some? && |v.tokens[v.specials[k]]| <= |v.tokens[r.value]|
    decreases n
  {
    if n == 0 then None
    else
      var b := SpecialAmong(v, rest, n - 1);
      var id := v.specials[n - 1];
      assert v.specials[..n] == v.specials[..n - 1] + [id];
      if SpecialHere(v, rest, id) && (b.None? || |v.tokens[id]| > |v.tokens[b.value]|) then Some(id) else b
  }

  /** Of several that match it is the longest, and of equally long ones the one listed first. */
  lemma {:induction false} SpecialFirst(v: Vocab, rest: seq<byte>, n: nat) returns (j: nat)
    requires v.Valid() && n <= |v.specials| && SpecialAmong(v, rest, n).Some?
    ensures j < n && SpecialAmong(v, rest, n) == Some(v.specials[j]) && SpecialHere(v, rest, v.specials[j])
    ensures forall k :: 0 <= k < n && SpecialHere(v, rest, v.specials[k]) ==>
      if k < j then |v.tokens[v.specials[k]]| < |v.tokens[v.specials[j]]|
      else |v.tokens[v.specials[k]]| <= |v.tokens[v.specials[j]]|
    decreases n
  {
    if SpecialAmong(v, rest, n) == SpecialAmong(v, rest, n - 1) && SpecialAmong(v, rest, n - 1).Some? {
      j := SpecialFirst(v, rest, n - 1);
    } else {
      j := n - 1;
    }
  }

  function SpecialAt(v: Vocab, rest: seq<byte>): (r: Option<nat>)
    requires v.Valid()
    ensures r.Some? ==> r.value < |v.tokens| && SpecialHere(v, rest, r.value) && r.value in v.specials
  {
    SpecialAmong(v, rest, |v.specials|)
  }

  function HexDigit(n: nat): byte
    requires n < 16
  {
    if n < 10 then 48 + n else 55 + n
  }

  /** The name of the byte-fallback token: `<0xXX>`. */
  function ByteName(b: byte): seq<byte> {
    [60, 48, 120, HexDigit(b / 16), HexDigit(b % 16), 62]
  }

  const HEX: string := "0123456789ABCDEF"

  function Ascii(s: string): (b: seq<byte>)
    requires forall i :: 0 <= i < |s| ==> s[i] < 128 as char
    ensures |b| == |s|
  {
    seq(|s|, i requires 0 <= i < |s| => s[i] as int)
  }

  /** That is what it spells, in upper case. */
  lemma ByteNameSpelt(b: byte)
    ensures ByteName(b) == Ascii("<0x" + [HEX[b / 16], HEX[b % 16]] + ">")
  {
    HexDigitIs(b / 16);
    HexDigitIs(b % 16);
  }

  lemma HexDigitIs(n: nat)
    requires n < 16
    ensures HexDigit(n) == HEX[n] as int
  {
  }

  lemma ByteNameInjective(a: byte, b: byte)
    requires ByteName(a) == ByteName(b)
    ensures a == b
  {
    assert ByteName(a)[3] == ByteName(b)[3] && ByteName(a)[4] == ByteName(b)[4];
  }

  // ---- Splitting ----

  /** `utf8_char_len`. */
  function CharLen(b: byte): (n: nat)
    ensures 1 <= n <= 4
  {
    if b / 0x80 == 0 then 1
    else if b / 0x20 == 6 then 2
    else if b / 0x10 == 14 then 3
    else if b / 8 == 30 then 4
    else 1
  }

  /** A stretch of the text, with the control token it is if it was matched as one. */
  datatype Piece = Piece(off: nat, len: nat, forced: Option<nat>) {
    function End(): nat { off + len }
  }

  const MAX_SYMBOLS: nat := 512

  function PieceAt(v: Vocab, text: seq<byte>, pos: nat): (p: Piece)
    requires v.Valid() && pos < |text|
    ensures p.off == pos && p.len > 0 && p.End() <= |text|
  {
    var s := SpecialAt(v, text[pos..]);
    if s.Some? then Piece(pos, |v.tokens[s.value]|, s)
    else Piece(pos, Min(CharLen(text[pos]), |text| - pos), None)
  }

  /** At most `n` pieces from `pos` on. */
  function Split(v: Vocab, text: seq<byte>, pos: nat, n: nat): (ps: seq<Piece>)
    requires v.Valid() && pos <= |text|
    decreases |text| - pos
  {
    if pos == |text| || n == 0 then []
    else
      var p := PieceAt(v, text, pos);
      [p] + Split(v, text, p.End(), n - 1)
  }

  /** The split covers the text from `pos` on without gaps, all of it unless the number of pieces runs out. */
  lemma {:induction false} SplitTiled(v: Vocab, text: seq<byte>, pos: nat, n: nat)
    requires v.Valid() && pos <= |text|
    ensures var ps := Split(v, text, pos, n);
            && Tiled(ps, pos, EndOf(ps, pos)) && EndOf(ps, pos) <= |text|
            && |ps| <= n && (|ps| < n ==> EndOf(ps, pos) == |text|)
    decreases n
  {
    if pos < |text| && n > 0 {
      var p := PieceAt(v, text, pos);
      SplitTiled(v, text, p.End(), n - 1);
      TiledCons(p, Split(v, text, p.End(), n - 1));
    }
  }

  // ---- Characters ----

  /** The length read off the first byte is that of the character, and a byte that starts none counts alone. */
  lemma CharLenIs(c: seq<byte>)
    requires IsChar(c)
    ensures CharLen(c[0]) == |c|
  {
  }

  lemma StrayLen(b: byte)
    requires Continuation(b)
    ensures CharLen(b) == 1
  {
  }

  /** The piece is character `k`, or as much of it as the text has. */
  ghost predicate IsCharPiece(cs: seq<seq<byte>>, text: seq<byte>, p: Piece, k: nat) {
    && k < |cs| && p.off == Start(cs, k) && p.End() <= |text|
    && p.len == Min(|cs[k]|, |text| - p.off) && text[p.off..p.End()] == cs[k][..p.len]
  }

  /** In a text of characters, which may end inside one, a piece that starts with a character is that character; one
      that starts inside a character is a single byte. */
  lemma PieceIsChar(v: Vocab, cs: seq<seq<byte>>, text: seq<byte>, pos: nat)
    requires v.Valid() && AllChars(cs) && text <= Join(cs) && pos < |text| && PieceAt(v, text, pos).forced.None?
    ensures Boundary(cs, pos) ==> exists k :: IsCharPiece(cs, text, PieceAt(v, text, pos), k)
    ensures !Boundary(cs, pos) ==> PieceAt(v, text, pos).len == 1 && Continuation(text[pos])
  {
    if k :| 0 <= k <= |cs| && pos == Start(cs, k) {
      CharAt(cs, text, pos, k);
      assert IsCharPiece(cs, text, PieceAt(v, text, pos), k);
    } else {
      InsideChar(cs, pos);
      StrayLen(text[pos]);
    }
  }

  lemma CharAt(cs: seq<seq<byte>>, text: seq<byte>, pos: nat, k: nat)
    requires AllChars(cs) && text <= Join(cs) && k <= |cs| && pos == Start(cs, k) < |text|
    ensures k < |cs| && CharLen(text[pos]) == |cs[k]|
    ensures var n := Min(|cs[k]|, |text| - pos); text[pos..pos + n] == cs[k][..n]
  {
    if k == |cs| { StartEnd(cs); }
    JoinFrom(cs, k);
    assert cs[k..][0] == cs[k] && IsChar(cs[k]);
    assert Join(cs)[pos..] == cs[k] + Join(cs[k..][1..]);
    var n := Min(|cs[k]|, |text| - pos);
    assert text[pos..pos + n] == Join(cs)[pos..][..n];
    assert text[pos] == Join(cs)[pos..][0] == cs[k][0];
    CharLenIs(cs[k]);
  }

  /** Control tokens made of characters. */
  ghost predicate ControlsAreText(v: Vocab)
    requires v.Valid()
  {
    forall k :: 0 <= k < |v.specials| ==> IsText(v.tokens[v.specials[k]])
  }

  ghost predicate IsText(t: seq<byte>) {
    exists ds :: AllChars(ds) && Join(ds) == t
  }

  /** A control token made of characters that stands at a character ends before one. */
  lemma ControlEnds(cs: seq<seq<byte>>, text: seq<byte>, pos: nat, t: seq<byte>)
    requires AllChars(cs) && text <= Join(cs) && pos <= |text| && Boundary(cs, pos) && IsText(t) && t <= text[pos..]
    ensures Boundary(cs, pos + |t|)
  {
    var k :| 0 <= k <= |cs| && pos == Start(cs, k);
    var ds :| AllChars(ds) && Join(ds) == t;
    JoinFrom(cs, k);
    assert text[pos..] <= Join(cs)[pos..];
    assert AllChars(cs[k..]);
    FrontChars(ds, cs[k..]);
    StartAdd(cs, k, |ds|);
    assert ds == cs[k..][..|ds|];
    StartFront(cs[k..], |ds|);
  }

  lemma {:induction false} StartAdd(cs: seq<seq<byte>>, k: nat, n: nat)
    requires k + n <= |cs|
    ensures Start(cs, k + n) == Start(cs, k) + Start(cs[k..], n)
  {
    if k > 0 {
      StartAdd(cs[1..], k - 1, n);
      assert cs[1..][k - 1..] == cs[k..];
    } else {
      assert cs[0..] == cs;
    }
  }

  lemma {:induction false} StartFront(cs: seq<seq<byte>>, n: nat)
    requires n <= |cs|
    ensures Start(cs, n) == |Join(cs[..n])|
  {
    if n > 0 {
      StartFront(cs[1..], n - 1);
      assert cs[..n][1..] == cs[1..][..n - 1];
    }
  }

  /** All pieces start with a character, and those that are no control tokens are one each. */
  ghost predicate OnChars(cs: seq<seq<byte>>, text: seq<byte>, ps: seq<Piece>) {
    forall i :: 0 <= i < |ps| ==>
      Boundary(cs, ps[i].off) && (ps[i].forced.None? ==> exists k :: IsCharPiece(cs, text, ps[i], k))
  }

  /** The initial symbols of a text of characters are its characters and the control tokens in it. */
  lemma {:induction false} SplitOnChars(v: Vocab, cs: seq<seq<byte>>, text: seq<byte>, pos: nat, n: nat)
    requires v.Valid() && AllChars(cs) && text <= Join(cs) && ControlsAreText(v)
    requires pos <= |text| && (pos < |text| ==> Boundary(cs, pos))
    ensures OnChars(cs, text, Split(v, text, pos, n))
    decreases n
  {
    if pos < |text| && n > 0 {
      var p := PieceAt(v, text, pos);
      PieceEnds(v, cs, text, pos);
      SplitOnChars(v, cs, text, p.End(), n - 1);
    }
  }

  lemma PieceEnds(v: Vocab, cs: seq<seq<byte>>, text: seq<byte>, pos: nat)
    requires v.Valid() && AllChars(cs) && text <= Join(cs) && ControlsAreText(v) && pos < |text| && Boundary(cs, pos)
    ensures var p := PieceAt(v, text, pos);
            && (p.forced.None? ==> exists k :: IsCharPiece(cs, text, p, k))
            && (p.End() < |text| ==> Boundary(cs, p.End()))
  {
    var p := PieceAt(v, text, pos);
    if p.forced.None? {
      PieceIsChar(v, cs, text, pos);
      var k :| IsCharPiece(cs, text, p, k);
      if p.End() < |text| { StartNext(cs, k); }
    } else {
      assert SpecialAt(v, text[pos..]) == p.forced;
      ControlEnds(cs, text, pos, v.tokens[p.forced.value]);
    }
  }

  /** Merging never puts a cut inside a character. */
  lemma {:induction false} EncodeOnChars(v: Vocab, cs: seq<seq<byte>>, text: seq<byte>, ps: seq<Piece>)
    requires v.Valid() && forall i :: 0 <= i < |ps| ==> Boundary(cs, ps[i].off)
    ensures forall i :: 0 <= i < |Encode(v, text, ps)| ==> Boundary(cs, Encode(v, text, ps)[i].off)
    decreases |ps|
  {
    var b := Best(v, text, ps, |ps|);
    if b.Some? {
      var r := MergeAt(ps, b.value);
      forall i | 0 <= i < |r|
        ensures Boundary(cs, r[i].off)
      {
        assert r[i].off == ps[if i <= b.value then i else i + 1].off;
      }
      EncodeOnChars(v, cs, text, r);
    }
  }

  function EndOf(ps: seq<Piece>, pos: nat): nat {
    if ps == [] then pos else ps[|ps| - 1].End()
  }

  /** The pieces are nonempty and lie side by side from `lo` to `hi`. */
  ghost predicate Tiled(ps: seq<Piece>, lo: nat, hi: nat) {
    && (forall k :: 0 <= k < |ps| ==> ps[k].len > 0)
    && (forall k {:trigger StartOf(ps, k, lo)} :: 0 <= k < |ps| ==> StartOf(ps, k, lo) == ps[k].off)
    && EndOf(ps, lo) == hi
  }

  function StartOf(ps: seq<Piece>, k: nat, lo: nat): nat
    requires k < |ps|
  {
    if k == 0 then lo else ps[k - 1].End()
  }

  lemma TiledCons(p: Piece, rest: seq<Piece>)
    requires p.len > 0 && Tiled(rest, p.End(), EndOf(rest, p.End()))
    ensures Tiled([p] + rest, p.off, EndOf(rest, p.End()))
  {
    var ps := [p] + rest;
    forall k | 0 <= k < |ps| ensures ps[k].len > 0 && StartOf(ps, k, p.off) == ps[k].off {
      if k > 0 {
        assert ps[k] == rest[k - 1] && StartOf(rest, k - 1, p.End()) == rest[k - 1].off;
      }
    }
  }

  lemma {:induction false} TiledBound(ps: seq<Piece>, lo: nat, hi: nat, k: nat)
    requires Tiled(ps, lo, hi) && k < |ps|
    ensures lo <= ps[k].off && ps[k].End() <= hi
  {
    TiledLow(ps, lo, hi, k);
    TiledHigh(ps, lo, hi, k);
  }

  lemma {:induction false} TiledLow(ps: seq<Piece>, lo: nat, hi: nat, k: nat)
    requires Tiled(ps, lo, hi) && k < |ps|
    ensures lo <= ps[k].off
  {
    assert StartOf(ps, k, lo) == ps[k].off;
    if k > 0 {
      TiledLow(ps, lo, hi, k - 1);
      assert StartOf(ps, k - 1, lo) == ps[k - 1].off;
    }
  }

  lemma {:induction false} TiledHigh(ps: seq<Piece>, lo: nat, hi: nat, k: nat)
    requires Tiled(ps, lo, hi) && k < |ps|
    ensures ps[k].End() <= hi
    decreases |ps| - k
  {
    if k < |ps| - 1 {
      TiledHigh(ps, lo, hi, k + 1);
      assert StartOf(ps, k + 1, lo) == ps[k + 1].off;
    }
  }

  // ---- Merging ----

  /** The token that pieces `k` and `k + 1` would make together; control tokens never take part. */
  function Merged(v: Vocab, text: seq<byte>, ps: seq<Piece>, k: nat): (r: Option<nat>) {
    if k + 1 >= |ps| || ps[k].forced.Some? || ps[k + 1].forced.Some? || ps[k].off + (ps[k].len + ps[k + 1].len) > |text|
    then None
    else FindExact(v, text[ps[k].off..ps[k].off + (ps[k].len + ps[k + 1].len)])
  }

  function Score(v: Vocab, id: nat): real
    requires v.Valid() && id < |v.tokens|
  {
    if v.scores.Some? then v.scores.value[id] else 0.0
  }

  function ScoreAt(v: Vocab, text: seq<byte>, ps: seq<Piece>, k: nat): real
    requires v.Valid() && Merged(v, text, ps, k).Some?
  {
    Score(v, Merged(v, text, ps, k).value)
  }

  /** Pair `b` is the leftmost of the best-scoring mergeable pairs among the first `n`. */
  ghost predicate IsBest(v: Vocab, text: seq<byte>, ps: seq<Piece>, n: nat, b: Option<nat>)
    requires v.Valid()
  {
    match b
    case None => forall k :: 0 <= k < n ==> Merged(v, text, ps, k).None?
    case Some(i) =>
      && i < n && Merged(v, text, ps, i).Some?
      && forall k :: 0 <= k < n && Merged(v, text, ps, k).Some? ==>
           if k < i then ScoreAt(v, text, ps, k) < ScoreAt(v, text, ps, i)
           else ScoreAt(v, text, ps, k) <= ScoreAt(v, text, ps, i)
  }

  /** The scan over pairs: a strictly better score replaces the candidate. */
  function Best(v: Vocab, text: seq<byte>, ps: seq<Piece>, n: nat): (b: Option<nat>)
    requires v.Valid()
    ensures IsBest(v, text, ps, n, b)
    decreases n
  {
    if n == 0 then None
    else Better(v, text, ps, Best(v, text, ps, n - 1), n - 1)
  }

  function Better(v: Vocab, text: seq<byte>, ps: seq<Piece>, b: Option<nat>, k: nat): (r: Option<nat>)
    requires v.Valid() && IsBest(v, text, ps, k, b)
    ensures IsBest(v, text, ps, k + 1, r)
  {
    if Merged(v, text, ps, k).Some? && (b.None? || ScoreAt(v, text, ps, k) > ScoreAt(v, text, ps, b.value))
    then Some(k) else b
  }

  function MergeAt(ps: seq<Piece>, k: nat): (r: seq<Piece>)
    requires k + 1 < |ps|
    ensures |r| == |ps| - 1
  {
    ps[..k] + [Piece(ps[k].off, ps[k].len + ps[k + 1].len, None)] + ps[k + 2..]
  }

  /** Merge the leftmost best pair until none is left. */
  function Encode(v: Vocab, text: seq<byte>, ps: seq<Piece>): (r: seq<Piece>)
    requires v.Valid()
    decreases |ps|
  {
    var b := Best(v, text, ps, |ps|);
    if b.None? then ps else Encode(v, text, MergeAt(ps, b.value))
  }

  // ---- What merging does, pair by pair ----

  /** Pieces `k` and `k + 1` are no control tokens and together spell token `id`, the first that they spell. */
  ghost predicate Mergeable(v: Vocab, text: seq<byte>, ps: seq<Piece>, k: nat, id: nat) {
    && k + 1 < |ps| && ps[k].forced.None? && ps[k + 1].forced.None?
    && ps[k].End() <= |text| && ps[k + 1].End() <= |text|
    && id < |v.tokens| && v.tokens[id] == text[ps[k].off..ps[k].End()] + text[ps[k + 1].off..ps[k + 1].End()]
    && forall i :: 0 <= i < id ==> v.tokens[i] != v.tokens[id]
  }

  /** Token `u` scores below `id`, or as high if that is enough. Without scores all tokens score the same. */
  ghost predicate Lower(v: Vocab, u: nat, id: nat, strictly: bool)
    requires v.Valid() && u < |v.tokens| && id < |v.tokens|
  {
    if v.scores.None? then !strictly
    else if strictly then v.scores.value[u] < v.scores.value[id] else v.scores.value[u] <= v.scores.value[id]
  }

  /** No mergeable pair scores higher than pair `k`, and none before it as high. */
  ghost predicate Leading(v: Vocab, text: seq<byte>, ps: seq<Piece>, k: nat, id: nat)
    requires v.Valid()
  {
    && Mergeable(v, text, ps, k, id)
    && forall j: nat, u: nat :: Mergeable(v, text, ps, j, u) ==> Lower(v, u, id, j < k)
  }

  /** That pair becomes one piece. */
  ghost predicate MergeStep(v: Vocab, text: seq<byte>, ps: seq<Piece>, r: seq<Piece>)
    requires v.Valid()
  {
    exists k: nat, id: nat :: && Leading(v, text, ps, k, id)
                              && r == ps[..k] + [Piece(ps[k].off, ps[k].len + ps[k + 1].len, None)] + ps[k + 2..]
  }

  ghost predicate NoneMergeable(v: Vocab, text: seq<byte>, ps: seq<Piece>) {
    forall k: nat, id: nat :: !Mergeable(v, text, ps, k, id)
  }

  /** The text of two neighbours is one stretch. */
  lemma JoinedText(text: seq<byte>, ps: seq<Piece>, lo: nat, hi: nat, k: nat)
    requires Tiled(ps, lo, hi) && hi <= |text| && k + 1 < |ps|
    ensures ps[k].End() == ps[k + 1].off && ps[k + 1].End() <= |text|
    ensures text[ps[k].off..ps[k].End()] + text[ps[k + 1].off..ps[k + 1].End()] == text[ps[k].off..ps[k + 1].End()]
  {
    assert StartOf(ps, k + 1, lo) == ps[k + 1].off;
    TiledHigh(ps, lo, hi, k + 1);
  }

  lemma MergedIs(v: Vocab, text: seq<byte>, ps: seq<Piece>, lo: nat, hi: nat, k: nat)
    requires Tiled(ps, lo, hi) && hi <= |text| && Merged(v, text, ps, k).Some?
    ensures Mergeable(v, text, ps, k, Merged(v, text, ps, k).value)
  {
    JoinedText(text, ps, lo, hi, k);
    assert FindExact(v, text[ps[k].off..ps[k + 1].End()]) == FindFrom(v, text[ps[k].off..ps[k + 1].End()], 0);
  }

  lemma MergeableIs(v: Vocab, text: seq<byte>, ps: seq<Piece>, lo: nat, hi: nat, k: nat, id: nat)
    requires Tiled(ps, lo, hi) && hi <= |text| && Mergeable(v, text, ps, k, id)
    ensures Merged(v, text, ps, k) == Some(id)
  {
    JoinedText(text, ps, lo, hi, k);
    var t := text[ps[k].off..ps[k + 1].End()];
    var r := FindFrom(v, t, 0);
    assert v.tokens[id] == t;
  }

  lemma BestLeads(v: Vocab, text: seq<byte>, ps: seq<Piece>, lo: nat, hi: nat, i: nat, id: nat)
    requires v.Valid() && Tiled(ps, lo, hi) && hi <= |text|
    requires IsBest(v, text, ps, |ps|, Some(i)) && Merged(v, text, ps, i) == Some(id)
    ensures Leading(v, text, ps, i, id)
  {
    MergedIs(v, text, ps, lo, hi, i);
    forall j: nat, u: nat | Mergeable(v, text, ps, j, u)
      ensures Lower(v, u, id, j < i)
    {
      MergeableIs(v, text, ps, lo, hi, j, u);
    }
  }

  lemma NoneBest(v: Vocab, text: seq<byte>, ps: seq<Piece>, lo: nat, hi: nat)
    requires v.Valid() && Tiled(ps, lo, hi) && hi <= |text| && IsBest(v, text, ps, |ps|, None)
    ensures NoneMergeable(v, text, ps)
  {
    forall k: nat, id: nat
      ensures !Mergeable(v, text, ps, k, id)
    {
      if Mergeable(v, text, ps, k, id) { MergeableIs(v, text, ps, lo, hi, k, id); }
    }
  }

  /** Encoding merges leading pairs, one after the other, until no pair is mergeable. */
  lemma {:induction false} EncodeMerges(v: Vocab, text: seq<byte>, ps: seq<Piece>, lo: nat, hi: nat)
    returns (run: seq<seq<Piece>>)
    requires v.Valid() && Tiled(ps, lo, hi) && hi <= |text|
    ensures |run| > 0 && run[0] == ps && run[|run| - 1] == Encode(v, text, ps)
    ensures forall i :: 0 <= i < |run| - 1 ==> MergeStep(v, text, run[i], run[i + 1])
    ensures NoneMergeable(v, text, Encode(v, text, ps))
    decreases |ps|
  {
    var b := Best(v, text, ps, |ps|);
    if b.None? {
      NoneBest(v, text, ps, lo, hi);
      run := [ps];
    } else {
      var r := MergeAt(ps, b.value);
      BestLeads(v, text, ps, lo, hi, b.value, Merged(v, text, ps, b.value).value);
      assert MergeStep(v, text, ps, r);
      MergeTiled(ps, lo, hi, b.value);
      var rest := EncodeMerges(v, text, r, lo, hi);
      run := [ps] + rest;
    }
  }

  /** A normal form: no mergeable pair is left. */
  lemma {:induction false} EncodeIsNormal(v: Vocab, text: seq<byte>, ps: seq<Piece>)
    requires v.Valid()
    ensures forall k :: 0 <= k < |Encode(v, text, ps)| ==> Merged(v, text, Encode(v, text, ps), k).None?
    decreases |ps|
  {
    var b := Best(v, text, ps, |ps|);
    if b.Some? { EncodeIsNormal(v, text, MergeAt(ps, b.value)); }
  }

  lemma MergeTiled(ps: seq<Piece>, lo: nat, hi: nat, k: nat)
    requires Tiled(ps, lo, hi) && k + 1 < |ps|
    ensures Tiled(MergeAt(ps, k), lo, hi)
  {
    var r := MergeAt(ps, k);
    assert StartOf(ps, k + 1, lo) == ps[k + 1].off;
    forall j | 0 <= j < |r| ensures r[j].len > 0 && StartOf(r, j, lo) == r[j].off {
      var i := if j <= k then j else j + 1;
      assert ps[i].len > 0 && StartOf(ps, i, lo) == ps[i].off;
    }
  }

  /** The pieces always partition the text they were cut from. */
  lemma {:induction false} EncodeTiled(v: Vocab, text: seq<byte>, ps: seq<Piece>, lo: nat, hi: nat)
    requires v.Valid() && Tiled(ps, lo, hi)
    ensures Tiled(Encode(v, text, ps), lo, hi)
    decreases |ps|
  {
    var b := Best(v, text, ps, |ps|);
    if b.Some? {
      MergeTiled(ps, lo, hi, b.value);
      EncodeTiled(v, text, MergeAt(ps, b.value), lo, hi);
    }
  }

  /** The control-token pieces, in order. */
  function Controls(ps: seq<Piece>): seq<Piece> {
    if ps == [] then []
    else
      var n := |ps| - 1;
      Controls(ps[..n]) + if ps[n].forced.Some? then [ps[n]] else []
  }

  lemma {:induction false} ControlsConcat(a: seq<Piece>, b: seq<Piece>)
    ensures Controls(a + b) == Controls(a) + Controls(b)
  {
    if b == [] {
      assert a + b == a;
    } else {
      assert (a + b)[..|a + b| - 1] == a + b[..|b| - 1];
      ControlsConcat(a, b[..|b| - 1]);
    }
  }

  lemma MergeKeepsControls(ps: seq<Piece>, k: nat)
    requires k + 1 < |ps| && ps[k].forced.None? && ps[k + 1].forced.None?
    ensures Controls(MergeAt(ps, k)) == Controls(ps)
  {
    var x, y := ps[k], ps[k + 1];
    assert ps == ps[..k] + [x, y] + ps[k + 2..];
    ControlsSwap(ps[..k], Piece(x.off, x.len + y.len, None), x, y, ps[k + 2..]);
  }

  lemma ControlsSwap(a: seq<Piece>, m: Piece, x: Piece, y: Piece, c: seq<Piece>)
    requires m.forced.None? && x.forced.None? && y.forced.None?
    ensures Controls(a + [m] + c) == Controls(a + [x, y] + c)
  {
    NoControls(m);
    NoControls(x);
    NoControls(y);
    assert [x, y] == [x] + [y];
    ControlsConcat([x], [y]);
    ControlsAround(a, [m], c);
    ControlsAround(a, [x, y], c);
  }

  lemma NoControls(p: Piece)
    requires p.forced.None?
    ensures Controls([p]) == []
  {
    assert [p][..0] == [];
  }

  lemma ControlsAround(a: seq<Piece>, mid: seq<Piece>, c: seq<Piece>)
    requires Controls(mid) == []
    ensures Controls(a + mid + c) == Controls(a) + Controls(c)
  {
    ControlsConcat(a + mid, c);
    ControlsConcat(a, mid);
  }

  /** Control tokens come through untouched. */
  lemma {:induction false} EncodeKeepsControls(v: Vocab, text: seq<byte>, ps: seq<Piece>)
    requires v.Valid()
    ensures Controls(Encode(v, text, ps)) == Controls(ps)
    decreases |ps|
  {
    var b := Best(v, text, ps, |ps|);
    if b.Some? {
      MergeKeepsControls(ps, b.value);
      EncodeKeepsControls(v, text, MergeAt(ps, b.value));
    }
  }

  /** Every control piece is the text of its token. */
  ghost predicate ControlsMatch(v: Vocab, text: seq<byte>, ps: seq<Piece>) {
    forall k :: 0 <= k < |ps| && ps[k].forced.Some? ==>
      && ps[k].End() <= |text| && ps[k].forced.value < |v.tokens|
      && v.tokens[ps[k].forced.value] == text[ps[k].off..ps[k].End()]
  }

  lemma {:induction false} SplitMatches(v: Vocab, text: seq<byte>, pos: nat, n: nat)
    requires v.Valid() && pos <= |text|
    ensures ControlsMatch(v, text, Split(v, text, pos, n))
    decreases n
  {
    if pos < |text| && n > 0 {
      SplitMatches(v, text, PieceAt(v, text, pos).End(), n - 1);
      assert SpecialAt(v, text[pos..]).Some? ==>
        text[pos..][..PieceAt(v, text, pos).len] == text[pos..PieceAt(v, text, pos).End()];
    }
  }

  lemma {:induction false} EncodeMatches(v: Vocab, text: seq<byte>, ps: seq<Piece>)
    requires v.Valid() && ControlsMatch(v, text, ps)
    ensures ControlsMatch(v, text, Encode(v, text, ps))
    decreases |ps|
  {
    var b := Best(v, text, ps, |ps|);
    if b.Some? {
      var r := MergeAt(ps, b.value);
      forall k | 0 <= k < |r| && r[k].forced.Some?
        ensures && r[k].End() <= |text| && r[k].forced.value < |v.tokens|
                && v.tokens[r[k].forced.value] == text[r[k].off..r[k].End()]
      {
        assert r[k] == if k < b.value then ps[k] else ps[k + 1];
      }
      EncodeMatches(v, text, r);
    }
  }

  // ---- Emitting ----

  datatype Kind = Control | Whole | Fallback

  /** A token id together with the stretch of text it stands for. */
  datatype Emission = Emission(id: nat, off: nat, len: nat, kind: Kind)

  /** One fallback token for each byte that has one. */
  function EmitBytes(v: Vocab, text: seq<byte>, off: nat, n: nat): (es: seq<Emission>)
    requires off + n <= |text|
    decreases n
  {
    if n == 0 then []
    else
      var t := FindExact(v, ByteName(text[off]));
      (if t.Some? then [Emission(t.value, off, 1, Fallback)] else []) + EmitBytes(v, text, off + 1, n - 1)
  }

  function EmitPiece(v: Vocab, text: seq<byte>, p: Piece): (es: seq<Emission>)
    requires p.End() <= |text|
  {
    if p.forced.Some? then [Emission(p.forced.value, p.off, p.len, Control)]
    else
      var t := FindExact(v, text[p.off..p.End()]);
      if t.Some? then [Emission(t.value, p.off, p.len, Whole)] else EmitBytes(v, text, p.off, p.len)
  }

  function EmitAll(v: Vocab, text: seq<byte>, ps: seq<Piece>): (es: seq<Emission>)
    requires forall k :: 0 <= k < |ps| ==> ps[k].End() <= |text|
  {
    if ps == [] then [] else EmitPiece(v, text, ps[0]) + EmitAll(v, text, ps[1..])
  }

  /** A piece is emitted as the control token it is, or as the first token that spells it, or, if there is none, byte by
      byte. */
  lemma EmitPieceIs(v: Vocab, text: seq<byte>, p: Piece)
    requires p.End() <= |text|
    ensures var es, t := EmitPiece(v, text, p), text[p.off..p.End()];
            if p.forced.Some? then |es| == 1 && es[0].id == p.forced.value
            else if t in v.tokens
            then && |es| == 1 && es[0].id < |v.tokens| && v.tokens[es[0].id] == t
                 && forall i :: 0 <= i < es[0].id ==> v.tokens[i] != t
            else HasAllBytes(v) ==> |es| == p.len && forall j :: 0 <= j < p.len ==>
                   es[j].id < |v.tokens| && v.tokens[es[j].id] == ByteName(text[p.off + j])
  {
    if HasAllBytes(v) { EmitBytesAre(v, text, p.off, p.len); }
  }

  lemma {:induction false} EmitBytesAre(v: Vocab, text: seq<byte>, off: nat, n: nat)
    requires off + n <= |text| && HasAllBytes(v)
    ensures var es := EmitBytes(v, text, off, n);
            |es| == n && forall j :: 0 <= j < n ==>
              es[j].id < |v.tokens| && v.tokens[es[j].id] == ByteName(text[off + j])
    decreases n
  {
    if n > 0 {
      EmitBytesAre(v, text, off + 1, n - 1);
      assert ByteName(text[off]) in v.tokens;
      var es := EmitBytes(v, text, off, n);
      assert es[1..] == EmitBytes(v, text, off + 1, n - 1);
      forall j | 0 <= j < n
        ensures es[j].id < |v.tokens| && v.tokens[es[j].id] == ByteName(text[off + j])
      {
        if j > 0 { assert es[j] == es[1..][j - 1]; }
      }
    }
  }

  /** The id is the token of exactly that text, or the fallback token of that one byte. */
  ghost predicate Justified(v: Vocab, text: seq<byte>, e: Emission) {
    && e.off + e.len <= |text| && e.id < |v.tokens|
    && (if e.kind.Fallback? then e.len == 1 && v.tokens[e.id] == ByteName(text[e.off])
        else v.tokens[e.id] == text[e.off..e.off + e.len])
  }

  ghost predicate AllJustified(v: Vocab, text: seq<byte>, es: seq<Emission>) {
    forall i :: 0 <= i < |es| ==> Justified(v, text, es[i])
  }

  lemma {:induction false} BytesJustified(v: Vocab, text: seq<byte>, off: nat, n: nat)
    requires off + n <= |text|
    ensures AllJustified(v, text, EmitBytes(v, text, off, n))
    decreases n
  {
    if n > 0 { BytesJustified(v, text, off + 1, n - 1); }
  }

  /** Nothing is emitted that is not in the text. */
  lemma {:induction false} EmitJustified(v: Vocab, text: seq<byte>, ps: seq<Piece>)
    requires (forall k :: 0 <= k < |ps| ==> ps[k].End() <= |text|) && ControlsMatch(v, text, ps)
    ensures AllJustified(v, text, EmitAll(v, text, ps))
    decreases |ps|
  {
    if ps != [] {
      BytesJustified(v, text, ps[0].off, ps[0].len);
      EmitJustified(v, text, ps[1..]);
    }
  }

  /** The emitted stretches follow one another from `lo` to `hi` without gap or overlap. */
  ghost predicate Covers(es: seq<Emission>, lo: nat, hi: nat)
    decreases |es|
  {
    if es == [] then lo == hi else es[0].off == lo && Covers(es[1..], lo + es[0].len, hi)
  }

  lemma {:induction false} CoversConcat(a: seq<Emission>, b: seq<Emission>, lo: nat, mid: nat, hi: nat)
    requires Covers(a, lo, mid) && Covers(b, mid, hi)
    ensures Covers(a + b, lo, hi)
    decreases |a|
  {
    if a == [] {
      assert a + b == b;
    } else {
      CoversConcat(a[1..], b, lo + a[0].len, mid, hi);
      assert (a + b)[1..] == a[1..] + b;
    }
  }

  ghost predicate HasAllBytes(v: Vocab) {
    forall b: byte :: ByteName(b) in v.tokens
  }

  lemma {:induction false} BytesCover(v: Vocab, text: seq<byte>, off: nat, n: nat)
    requires off + n <= |text| && HasAllBytes(v)
    ensures Covers(EmitBytes(v, text, off, n), off, off + n)
    decreases n
  {
    if n > 0 {
      BytesCover(v, text, off + 1, n - 1);
      assert ByteName(text[off]) in v.tokens;
      assert EmitBytes(v, text, off, n)[1..] == EmitBytes(v, text, off + 1, n - 1);
    }
  }

  /** Encoding is lossless: with a fallback token for every byte, the emitted tokens spell the whole text the pieces
      were cut from, in order. */
  lemma {:induction false} EmitCovers(v: Vocab, text: seq<byte>, ps: seq<Piece>, lo: nat, hi: nat)
    requires HasAllBytes(v) && Tiled(ps, lo, hi) && hi <= |text| && forall k :: 0 <= k < |ps| ==> ps[k].End() <= |text|
    ensures Covers(EmitAll(v, text, ps), lo, hi)
    decreases |ps|
  {
    if ps != [] {
      var p, rest := ps[0], ps[1..];
      assert StartOf(ps, 0, lo) == p.off;
      BytesCover(v, text, p.off, p.len);
      assert Covers(EmitPiece(v, text, p), lo, p.End()) by {
        if p.forced.Some? || FindExact(v, text[p.off..p.End()]).Some? {
          assert EmitPiece(v, text, p)[1..] == [];
        }
      }
      TiledTail(ps, lo, hi);
      EmitCovers(v, text, rest, p.End(), hi);
      CoversConcat(EmitPiece(v, text, p), EmitAll(v, text, rest), lo, p.End(), hi);
    }
  }

  lemma TiledTail(ps: seq<Piece>, lo: nat, hi: nat)
    requires Tiled(ps, lo, hi) && ps != []
    ensures Tiled(ps[1..], ps[0].End(), hi)
  {
    var rest := ps[1..];
    forall k | 0 <= k < |rest| ensures StartOf(rest, k, ps[0].End()) == rest[k].off {
      assert StartOf(ps, k + 1, lo) == ps[k + 1].off;
    }
  }

  function Ids(es: seq<Emission>): (ids: seq<nat>)
    ensures |ids| == |es|
  {
    if es == [] then [] else [es[0].id] + Ids(es[1..])
  }
}
