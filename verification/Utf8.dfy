/** UTF-8 text as a sequence of characters (RFC 3629, section 3): what the tokenizer's splitting has to respect. */
module Utf8 {
  import opened Bytes

  predicate Continuation(b: byte) {
    0x80 <= b <= 0xBF
  }

  /** A lead byte and exactly as many continuation bytes as it announces. */
  predicate IsChar(c: seq<byte>) {
    || (|c| == 1 && c[0] <= 0x7F)
    || (|c| == 2 && 0xC0 <= c[0] <= 0xDF && Continuation(c[1]))
    || (|c| == 3 && 0xE0 <= c[0] <= 0xEF && Continuation(c[1]) && Continuation(c[2]))
    || (|c| == 4 && 0xF0 <= c[0] <= 0xF7 && Continuation(c[1]) && Continuation(c[2]) && Continuation(c[3]))
  }

  ghost predicate AllChars(cs: seq<seq<byte>>) {
    forall i :: 0 <= i < |cs| ==> IsChar(cs[i])
  }

  function Join(cs: seq<seq<byte>>): (text: seq<byte>) {
    if cs == [] then [] else cs[0] + Join(cs[1..])
  }

  /** Where character `k` starts. */
  function Start(cs: seq<seq<byte>>, k: nat): (pos: nat)
    requires k <= |cs|
  {
    if k == 0 then 0 else |cs[0]| + Start(cs[1..], k - 1)
  }

  lemma {:induction false} StartNext(cs: seq<seq<byte>>, k: nat)
    requires k < |cs|
    ensures Start(cs, k + 1) == Start(cs, k) + |cs[k]|
  {
    if k > 0 { StartNext(cs[1..], k - 1); }
  }

  lemma {:induction false} StartEnd(cs: seq<seq<byte>>)
    ensures Start(cs, |cs|) == |Join(cs)|
  {
    if cs != [] { StartEnd(cs[1..]); }
  }

  /** From the start of character `k` the text is the characters from `k` on. */
  lemma {:induction false} JoinFrom(cs: seq<seq<byte>>, k: nat)
    requires k <= |cs|
    ensures Start(cs, k) <= |Join(cs)| && Join(cs)[Start(cs, k)..] == Join(cs[k..])
  {
    if k > 0 {
      JoinFrom(cs[1..], k - 1);
      assert cs[1..][k - 1..] == cs[k..];
      assert Join(cs)[Start(cs, k)..] == Join(cs[1..])[Start(cs[1..], k - 1)..];
    } else {
      assert cs[0..] == cs;
    }
  }

  /** No character is the beginning of another: the first byte tells how long it is. */
  lemma PrefixFree(c: seq<byte>, d: seq<byte>, text: seq<byte>)
    requires IsChar(c) && IsChar(d) && c <= text && d <= text
    ensures c == d
  {
    assert c[0] == text[0] == d[0];
  }

  /** So characters at the front of a text are its first characters. */
  lemma {:induction false} FrontChars(ds: seq<seq<byte>>, cs: seq<seq<byte>>)
    requires AllChars(ds) && AllChars(cs) && Join(ds) <= Join(cs)
    ensures ds <= cs
    decreases |ds|
  {
    if ds != [] {
      assert IsChar(ds[0]) && ds[0] <= Join(cs);
      assert cs != [];
      assert IsChar(cs[0]) && cs[0] <= Join(cs);
      PrefixFree(ds[0], cs[0], Join(cs));
      assert Join(ds[1..]) == Join(ds)[|ds[0]|..] && Join(cs[1..]) == Join(cs)[|ds[0]|..];
      assert AllChars(ds[1..]) && AllChars(cs[1..]);
      FrontChars(ds[1..], cs[1..]);
      assert ds == [ds[0]] + ds[1..] && cs == [cs[0]] + cs[1..];
    }
  }

  /** The place is the start of a character, or the end of the text. */
  ghost predicate Boundary(cs: seq<seq<byte>>, pos: nat) {
    exists k :: 0 <= k <= |cs| && pos == Start(cs, k)
  }

  /** Inside a character there are continuation bytes only. */
  lemma {:induction false} InsideChar(cs: seq<seq<byte>>, pos: nat)
    requires AllChars(cs) && pos < |Join(cs)|
    ensures Boundary(cs, pos) || Continuation(Join(cs)[pos])
    decreases |cs|
  {
    var c, rest := cs[0], cs[1..];
    assert IsChar(c);
    if pos == 0 {
      assert pos == Start(cs, 0);
    } else if pos >= |c| {
      assert AllChars(rest);
      InsideChar(rest, pos - |c|);
      if k :| 0 <= k <= |rest| && pos - |c| == Start(rest, k) {
        assert pos == Start(cs, k + 1);
      }
    }
  }
}
