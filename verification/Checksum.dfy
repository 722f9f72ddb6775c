/** The Internet checksum of `kernel/net.c`, lines 494-535 (RFC 1071, section 1): one's complement sums over
    big-endian 16-bit words, accumulated in 32 bits and folded at the end. */
module Checksum {
  import opened Bytes

  const ONES: int := 0xFFFF

  /** The plain sum of the words; an odd last byte counts as the high half of a word. */
  function WordSum(d: seq<byte>): nat {
    if |d| == 0 then 0
    else if |d| == 1 then 0x100 * (d[0] as int)
    else 0x100 * (d[0] as int) + d[1] as int + WordSum(d[2..])
  }

  /** The 16-bit value with the same residue modulo 0xFFFF, where only an exact zero gives zero. */
  function Fold(s: nat): (r: nat)
    ensures r <= ONES && (r == 0 <==> s == 0)
  {
    if s == 0 then 0 else (s - 1) % ONES + 1
  }

  /** Adding the carries back in does not change the folded value. */
  lemma FoldCarry(s: nat)
    ensures Fold(s % 0x1_0000 + s / 0x1_0000) == Fold(s)
  {
    var h := s / 0x1_0000;
    var t := s % 0x1_0000 + h;
    assert t == s - ONES * h;
    if s > 0 {
      assert t > 0;
      ModShift(t - 1, h);
      assert t - 1 + ONES * h == s - 1;
    }
  }

  lemma {:induction false} ModShift(a: nat, h: nat)
    ensures (a + ONES * h) % ONES == a % ONES
  {
    if h > 0 {
      ModShift(a, h - 1);
      assert (a + ONES * (h - 1) + ONES) % ONES == (a + ONES * (h - 1)) % ONES;
    }
  }

  /** `net_checksum16_partial`. */
  method Partial(data: seq<byte>, sum0: u32) returns (sum: u32)
    ensures sum == (sum0 + WordSum(data)) % WORD
  {
    sum := sum0;
    var rest := data;
    ghost var total: nat := sum0;
    while |rest| > 1
      invariant sum == total % WORD && total + WordSum(rest) == sum0 as int + WordSum(data)
      decreases |rest|
    {
      var word := 0x100 * (rest[0] as int) + rest[1] as int;
      WrapAdd(total, word);
      sum := (sum as int + word) % WORD;
      total := total + word;
      rest := rest[2..];
    }
    if |rest| == 1 {
      WrapAdd(total, 0x100 * (rest[0] as int));
      sum := (sum as int + 0x100 * (rest[0] as int)) % WORD;
    }
  }

  /** Wrapping after every addition is wrapping once at the end. */
  lemma WrapAdd(x: nat, y: nat)
    ensures (x % WORD + y) % WORD == (x + y) % WORD
  {
  }

  /** `net_checksum16_finish`. */
  method Finish(sum0: u32) returns (c: nat)
    ensures c == ONES - Fold(sum0)
  {
    var sum: nat := sum0;
    while sum / 0x1_0000 != 0
      invariant Fold(sum) == Fold(sum0)
      decreases sum
    {
      FoldCarry(sum);
      sum := sum % 0x1_0000 + sum / 0x1_0000;
    }
    c := ONES - sum;
  }

  /** The checksum of one contiguous buffer. */
  function Of(data: seq<byte>): (c: nat)
    ensures c <= ONES
  {
    ONES - Fold(WordSum(data) % WORD)
  }

  /** `net_checksum16`. */
  method Checksum16(data: seq<byte>) returns (c: nat)
    ensures c == Of(data)
  {
    var sum := Partial(data, 0);
    c := Finish(sum);
  }

  /** The worked example of RFC 1071, section 3. */
  lemma WorkedExample()
    ensures Of([0x00, 0x01, 0xF2, 0x03, 0xF4, 0xF5, 0xF6, 0xF7]) == 0x220D
  {
    var d: seq<byte> := [0x00, 0x01, 0xF2, 0x03, 0xF4, 0xF5, 0xF6, 0xF7];
    assert d[2..] == [0xF2, 0x03, 0xF4, 0xF5, 0xF6, 0xF7];
    assert d[2..][2..] == [0xF4, 0xF5, 0xF6, 0xF7];
    assert d[2..][2..][2..] == [0xF6, 0xF7];
    assert d[2..][2..][2..][2..] == [];
    assert WordSum(d) == 0x1 + (0xF203 + (0xF4F5 + (0xF6F7 + 0)));
  }

  /** The checksum of two buffers summed one after the other. */
  function OfParts(a: seq<byte>, b: seq<byte>): (c: nat) {
    ONES - Fold((WordSum(a) % WORD + WordSum(b)) % WORD)
  }

  /** The two-region form used for TCP. */
  method ChecksumParts(a: seq<byte>, b: seq<byte>) returns (c: nat)
    ensures c == OfParts(a, b)
  {
    var sum := Partial(a, 0);
    sum := Partial(b, sum);
    c := Finish(sum);
  }

  lemma {:induction false} WordSumAppend(a: seq<byte>, b: seq<byte>)
    requires |a| % 2 == 0
    ensures WordSum(a + b) == WordSum(a) + WordSum(b)
  {
    if a == [] {
      assert a + b == b;
    } else {
      WordSumAppend(a[2..], b);
      assert (a + b)[2..] == a[2..] + b;
    }
  }

  /** Summing in two parts is summing the whole, for data of any length, if the first part is even. */
  lemma PartsAreWhole(a: seq<byte>, b: seq<byte>)
    requires |a| % 2 == 0
    ensures OfParts(a, b) == Of(a + b)
  {
    WordSumAppend(a, b);
    WrapAdd(WordSum(a), WordSum(b));
  }

  lemma {:induction false} WordSumOdd(a: seq<byte>, x: byte)
    requires |a| % 2 == 1
    ensures WordSum(a + [x]) == WordSum(a) + x
  {
    if |a| > 1 {
      WordSumOdd(a[2..], x);
      assert (a + [x])[2..] == a[2..] + [x];
    }
  }

  /** With an odd first part the two forms disagree on some second part, whatever the first one is. */
  lemma OddPartsFail(a: seq<byte>)
    requires |a| % 2 == 1
    ensures OfParts(a, [1]) != Of(a + [1])
  {
    var s := WordSum(a);
    assert WordSum([1]) == 0x100;
    WordSumOdd(a, 1);
    WrapAdd(s, 1);
    HighOrLow(s % WORD);
  }

  /** Adding a byte as the high or as the low half of a word makes a difference, even where the sum wraps. */
  lemma HighOrLow(t: u32)
    ensures Fold((t + 0x100) % WORD) != Fold((t + 1) % WORD)
  {
    if t + 0x100 < WORD {
      NoWrap(t + 0x100);
      NoWrap(t + 1);
      FoldDiffers(t + 1, 0xFF);
    } else if t + 1 < WORD {
      var p := t + 0x100 - WORD;
      assert (t + 0x100) % WORD == p;
      NoWrap(t + 1);
      if p > 0 {
        FoldShift(p, 0x1_0001);
        FoldDiffers(t + 1, 0xFE);
      }
    }
  }

  lemma FoldShift(s: nat, h: nat)
    requires s > 0
    ensures Fold(s + ONES * h) == Fold(s)
  {
    ModShift(s - 1, h);
  }

  lemma NoWrap(x: nat)
    requires x < WORD
    ensures x % WORD == x
  {
  }

  lemma FoldDiffers(s: nat, k: nat)
    requires 0 < s && 0 < k < ONES
    ensures Fold(s + k) != Fold(s)
  {
    var q, r := (s - 1) / ONES, (s - 1) % ONES;
    if r + k < ONES { ModShift(r + k, q); } else { ModShift(r + k - ONES, q + 1); }
  }

  /** `s` plus its own complement folds to all ones: what a receiver checks. */
  lemma FoldComplement(s: nat)
    ensures Fold(s + (ONES - Fold(s))) == ONES
  {
    if s > 0 {
      var q, r := (s - 1) / ONES, (s - 1) % ONES;
      assert s + (ONES - Fold(s)) - 1 == ONES * q + (ONES - 1);
      ModShift(ONES - 1, q);
    }
  }

  function PutBe16(v: nat): (s: seq<byte>)
    requires v < 0x1_0000
    ensures |s| == 2
  {
    [v / 0x100, v % 0x100]
  }

  /** Storing the checksum in a zeroed, word-aligned field makes the whole sum to all ones (RFC 1071, section 1). */
  lemma StoredChecksumVerifies(pre: seq<byte>, post: seq<byte>)
    requires |pre| % 2 == 0 && WordSum(pre + [0, 0] + post) + ONES < WORD
    ensures Fold(WordSum(pre + PutBe16(Of(pre + [0, 0] + post)) + post)) == ONES
  {
    var s, c := WordSum(pre + [0, 0] + post), Of(pre + [0, 0] + post);
    assert c == ONES - Fold(s) by { NoWrap(s); }
    assert WordSum(pre + PutBe16(c) + post) == s + c by {
      SumAround(pre, [0, 0], post);
      SumAround(pre, PutBe16(c), post);
    }
    FoldComplement(s);
  }

  lemma SumAround(pre: seq<byte>, w: seq<byte>, post: seq<byte>)
    requires |pre| % 2 == 0 && |w| == 2
    ensures WordSum(pre + w + post) == WordSum(pre) + 0x100 * (w[0] as int) + w[1] as int + WordSum(post)
  {
    assert pre + w + post == pre + (w + post);
    WordSumAppend(pre, w + post);
    assert (w + post)[2..] == post;
  }

  /** No datagram is long enough to overflow the 32-bit accumulator. */
  lemma {:induction false} WordSumBound(d: seq<byte>)
    ensures WordSum(d) <= 0x8000 * (|d| + 1)
  {
    if |d| > 1 { WordSumBound(d[2..]); }
  }
}
