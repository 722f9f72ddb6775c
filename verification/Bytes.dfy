/** Byte strings, little-endian words and in-place overwriting: the vocabulary shared by every
    component that moves raw memory around. */
module Bytes {

  const WORD: int := 0x1_0000_0000
  const WORD64: int := 0x1_0000_0000_0000_0000

  type byte = x: int | 0 <= x < 0x100
  type u16 = x: int | 0 <= x < 0x1_0000
  type u32 = x: int | 0 <= x < 0x1_0000_0000
  type u64 = x: int | 0 <= x < 0x1_0000_0000_0000_0000
  type i8 = x: int | -0x80 <= x < 0x80
  type i16 = x: int | -0x8000 <= x < 0x8000
  type i32 = x: int | -0x8000_0000 <= x < 0x8000_0000
  type i64 = x: int | -0x8000_0000_0000_0000 <= x < 0x8000_0000_0000_0000

  datatype Option<+T> = None | Some(value: T)

  function Min(a: int, b: int): (m: int)
    ensures m <= a && m <= b && (m == a || m == b)
  {
    if a <= b then a else b
  }

  /** `s` with the bytes from `off` on replaced by `d`: what memcpy into the middle of a buffer does. */
  function Overwrite<T>(s: seq<T>, off: nat, d: seq<T>): (r: seq<T>)
    requires off + |d| <= |s|
    ensures |r| == |s|
    ensures forall k :: 0 <= k < |s| ==> r[k] == if off <= k < off + |d| then d[k - off] else s[k]
  {
    s[..off] + d + s[off + |d|..]
  }

  /** Two back-to-back overwrites are one. */
  lemma OverwriteAppend<T>(s: seq<T>, off: nat, d: seq<T>, e: seq<T>)
    requires off + |d| + |e| <= |s|
    ensures Overwrite(Overwrite(s, off, d), off + |d|, e) == Overwrite(s, off, d + e)
  {
  }

  lemma OverwriteElsewhere<T>(s: seq<T>, off: nat, d: seq<T>, lo: nat, hi: nat)
    requires off + |d| <= |s| && lo <= hi <= |s| && (hi <= off || off + |d| <= lo)
    ensures Overwrite(s, off, d)[lo..hi] == s[lo..hi]
  {
  }

  lemma OverwriteHere<T>(s: seq<T>, off: nat, d: seq<T>)
    requires off + |d| <= |s|
    ensures Overwrite(s, off, d)[off..off + |d|] == d
  {
  }

  lemma OverwriteFront<T>(s: seq<T>, t: seq<T>, off: nat, d: seq<T>)
    requires off + |d| <= |s|
    ensures Overwrite(s + t, off, d) == Overwrite(s, off, d) + t
  {
  }

  lemma OverwriteBack<T>(s: seq<T>, t: seq<T>, d: seq<T>)
    requires |d| == |t|
    ensures Overwrite(s + t, |s|, d) == s + d
  {
  }

  /** Reading a window, overwriting inside it and writing it back is overwriting in place. */
  lemma ReadModifyWrite<T>(s: seq<T>, lo: nat, hi: nat, at: nat, d: seq<T>)
    requires lo <= hi <= |s| && at + |d| <= hi - lo
    ensures Overwrite(s, lo, Overwrite(s[lo..hi], at, d)) == Overwrite(s, lo + at, d)
  {
  }

  lemma SplitTake<T>(s: seq<T>, n: nat, m: nat)
    requires n <= m <= |s|
    ensures s[..n] + s[n..m] == s[..m]
  {
  }

  lemma SliceSlice<T>(s: seq<T>, a: nat, b: nat, i: nat, j: nat)
    requires a <= b <= |s| && i <= j <= b - a
    ensures s[a..b][i..j] == s[a + i..a + j]
  {
    forall k | 0 <= k < j - i ensures s[a..b][i..j][k] == s[a + i..a + j][k] {
      assert s[a..b][i..j][k] == s[a..b][i + k] == s[a + i + k];
    }
  }

  function Le16At(s: seq<byte>, o: nat): (v: int)
    requires o + 2 <= |s|
    ensures 0 <= v < 0x1_0000
  {
    s[o] as int + 0x100 * (s[o + 1] as int)
  }

  function Le32At(s: seq<byte>, o: nat): (v: u32)
    requires o + 4 <= |s|
  {
    s[o] as int + 0x100 * (s[o + 1] as int) + 0x1_0000 * (s[o + 2] as int) + 0x100_0000 * (s[o + 3] as int)
  }

  function Le64At(s: seq<byte>, o: nat): (v: u64)
    requires o + 8 <= |s|
  {
    Le32At(s, o) as int + WORD * (Le32At(s, o + 4) as int)
  }

  function PutLe16(v: u16): (s: seq<byte>)
    ensures |s| == 2 && Le16At(s, 0) == v
  {
    [v % 0x100, v / 0x100]
  }

  function PutLe32(v: u32): (s: seq<byte>)
    ensures |s| == 4 && Le32At(s, 0) == v
  {
    [v % 0x100, v / 0x100 % 0x100, v / 0x1_0000 % 0x100, v / 0x100_0000]
  }

  function PutLe64(v: u64): (s: seq<byte>)
    ensures |s| == 8 && Le64At(s, 0) == v
  {
    var r := PutLe32(v % WORD) + PutLe32(v / WORD);
    assert Le32At(r, 0) == v % WORD && Le32At(r, 4) == v / WORD;
    r
  }

  /** A word read depends only on the four bytes under it. */
  lemma Le32Local(s: seq<byte>, o: nat, t: seq<byte>, p: nat)
    requires o + 4 <= |s| && p + 4 <= |t| && s[o..o + 4] == t[p..p + 4]
    ensures Le32At(s, o) == Le32At(t, p)
  {
    assert s[o] == s[o..o + 4][0] && s[o + 1] == s[o..o + 4][1];
    assert s[o + 2] == s[o..o + 4][2] && s[o + 3] == s[o..o + 4][3];
  }
}
