/** The Wi-Fi auxiliary transmit ring: sending into 32 buffers and 256 descriptor slots, and rebuilding the full index
    of a completed frame from the low 8 bits the firmware reports (`kernel/iwlwifi.c`, lines 1832-1901 and 2532-2543).
    */
module Iwl {
  import opened Bytes

  const SLOTS: nat := 32
  const HW_SLOTS: nat := 256
  const TABLE: nat := 320
  const OVERHEAD: nat := 60
  const BUFFER_SIZE: nat := 2048

  /** An 802.11 frame and the station it is for. */
  datatype Frame = Frame(bytes: seq<byte>, station: byte)

  // ---- Index arithmetic ----

  /** The one index above `read`, by at most 256, whose predecessor has the low bits `low`. */
  function Target(read: nat, low: byte): (t: nat)
    ensures read < t <= read + 256
  {
    var completed, base := low + 1, read / 256 * 256;
    base + completed + if completed <= read % 256 then 256 else 0
  }

  /** Among the 256 indices from `read` on, the one with the low bits `low` is the one before the target. */
  lemma TargetIs(read: nat, low: byte, k: int)
    requires read <= k < read + 256
    ensures k % 256 == low <==> k + 1 == Target(read, low)
  {
    var q, p := k / 256, read / 256;
    assert k == 256 * q + k % 256 && read == 256 * p + read % 256;
    assert q == p || q == p + 1;
  }

  /** The completion branch, in 32-bit arithmetic. */
  function Complete(read: u32, write: u32, low: byte): (r: u32) {
    var completed := low + 1;
    var base := if completed <= read % 256 then (read / 256 * 256 + 256) % WORD else read / 256 * 256;
    var t := (base + completed) % WORD;
    if t <= write then t else read
  }

  lemma CompleteIs(read: u32, write: u32, low: byte)
    ensures var t := Target(read, low) % WORD; Complete(read, write, low) == if t <= write then t else read
  {
  }

  /** Frames handed to the firmware and not yet reported back. */
  predicate InFlight(read: nat, write: nat, k: int) {
    read <= k < write
  }

  predicate Window(read: nat, write: nat) {
    read <= write <= read + SLOTS && write < WORD
  }

  /** The low bits of an index in flight complete exactly that index. */
  lemma CompletesExactly(read: u32, write: u32, k: nat)
    requires Window(read, write) && InFlight(read, write, k)
    ensures Complete(read, write, k % 256) == k + 1
  {
    TargetIs(read, k % 256, k);
    CompleteIs(read, write, k % 256);
  }

  /** Low bits that belong to no index in flight. */
  ghost predicate Stale(read: nat, write: nat, low: byte) {
    forall k :: InFlight(read, write, k) ==> k % 256 != low
  }

  lemma StaleTarget(read: nat, write: nat, low: byte)
    requires Window(read, write)
    ensures Stale(read, write, low) <==> Target(read, low) > write
  {
    var t := Target(read, low);
    forall k | InFlight(read, write, k)
      ensures k % 256 == low <==> k + 1 == t
    {
      TargetIs(read, low, k);
    }
    if t <= write { assert InFlight(read, write, t - 1); }
  }

  /** Stale low bits change nothing, except in the last 256 indices before the counters wrap: there the rebuilt index
      wraps to a small one, which passes for completed. */
  lemma StaleIgnoredIff(read: u32, write: u32, low: byte)
    requires Window(read, write) && Stale(read, write, low)
    ensures Complete(read, write, low) == read <==> Target(read, low) < WORD
  {
    StaleTarget(read, write, low);
    CompleteIs(read, write, low);
  }

  /** With nothing in flight at index 0xFFFFFF00, a report for slot 255 throws the read index back to 0. */
  lemma StaleAccepted()
    ensures Window(0xFFFF_FF00, 0xFFFF_FF00) && Stale(0xFFFF_FF00, 0xFFFF_FF00, 255)
    ensures Complete(0xFFFF_FF00, 0xFFFF_FF00, 255) == 0 && !Window(0, 0xFFFF_FF00)
  {
  }

  /** Any report keeps the window, as long as the rebuilt index does not wrap. */
  lemma CompleteKeepsWindow(read: u32, write: u32, low: byte)
    requires Window(read, write) && Target(read, low) < WORD
    ensures var r := Complete(read, write, low); read <= r && Window(r, write)
  {
    CompleteIs(read, write, low);
  }

  /** Indices less than 32 apart use different buffers and different descriptor slots. */
  lemma SlotsApart(k: nat, w: nat)
    requires k < w < k + 32
    ensures k % 32 != w % 32 && k % 256 != w % 256
  {
  }

  // ---- The ring ----

  /** The protected-frame bit, 0x4000 of the first word. */
  predicate Protected(f: Frame) {
    |f.bytes| >= 2 && f.bytes[1] / 0x40 % 2 == 1
  }

  /** Word of the byte-count table for a frame: length in words, station in the top bits. */
  function ByteCount(f: Frame): nat {
    (|f.bytes| + 8 + (if Protected(f) then 8 else 0) + 3) / 4 % 4096 + f.station % 16 * 4096
  }

  predicate Sendable(f: Frame): (r: bool)
    ensures r <==> 24 <= |f.bytes| <= 1988
  {
    24 <= |f.bytes| && OVERHEAD + |f.bytes| <= BUFFER_SIZE
  }

  /** The low 12 bits are the least number of 4-byte words that hold the frame, 8 bytes more, and 8 again for a
      protected frame; the top 4 bits are the station. */
  lemma ByteCountIs(f: Frame)
    requires Sendable(f)
    ensures var n := |f.bytes| + 8 + if f.bytes[1] % 0x80 >= 0x40 then 8 else 0;
            var words := ByteCount(f) % 0x1000;
            4 * words - 4 < n <= 4 * words && ByteCount(f) / 0x1000 == f.station % 16
    ensures ByteCount(f) < 0x1_0000
  {
    ProtectedBit(f.bytes[1]);
  }

  lemma ProtectedBit(x: byte)
    ensures x / 0x40 % 2 == 1 <==> x % 0x80 >= 0x40
  {
    assert x / 0x40 == 2 * (x / 0x80) + x % 0x80 / 0x40;
  }

  /** Frame `f` with index `k` stands in its buffer, with its descriptor and both copies of its byte count. */
  predicate Standing(buffers: seq<Frame>, descriptors: seq<nat>, table: seq<nat>, f: Frame, k: nat)
    requires |buffers| == SLOTS && |descriptors| == HW_SLOTS && |table| == TABLE
  {
    && buffers[k % 32] == f && descriptors[k % 256] == k % 32 && table[k % 256] == ByteCount(f)
    && (k % 256 < 64 ==> table[k % 256 + 256] == ByteCount(f))
  }

  function Store(table: seq<nat>, hw: nat, count: nat): (t: seq<nat>)
    requires |table| == TABLE && hw < HW_SLOTS
    ensures |t| == TABLE
  {
    if hw < 64 then table[hw := count][hw + 256 := count] else table[hw := count]
  }

  /** Writing frame `w` leaves every frame up to 31 before it standing, and makes `w` stand. */
  lemma StandingKept(buffers: seq<Frame>, descriptors: seq<nat>, table: seq<nat>, w: nat, f: Frame, g: Frame, k: nat)
    requires |buffers| == SLOTS && |descriptors| == HW_SLOTS && |table| == TABLE
    requires (k == w && g == f) || (k < w < k + 32 && Standing(buffers, descriptors, table, g, k))
    ensures Standing(buffers[w % 32 := f], descriptors[w % 256 := w % 32], Store(table, w % 256, ByteCount(f)), g, k)
  {
    if k < w { SlotsApart(k, w); }
  }

  /** Every frame from number `read` on stands. */
  ghost predicate AllStanding(buffers: seq<Frame>, descriptors: seq<nat>, table: seq<nat>, sent: seq<Frame>, read: nat)
  {
    && |buffers| == 32 && |descriptors| == 256 && |table| == 320
    && forall k :: InFlight(read, |sent|, k) ==> Standing(buffers, descriptors, table, sent[k], k)
  }

  lemma SendStands(buffers: seq<Frame>, descriptors: seq<nat>, table: seq<nat>, sent: seq<Frame>, read: nat, w: nat,
                   f: Frame)
    requires AllStanding(buffers, descriptors, table, sent, read) && w == |sent| < read + 32
    ensures AllStanding(buffers[w % 32 := f], descriptors[w % 256 := w % 32], Store(table, w % 256, ByteCount(f)),
                        sent + [f], read)
  {
    forall k | InFlight(read, w + 1, k)
      ensures Standing(buffers[w % 32 := f], descriptors[w % 256 := w % 32], Store(table, w % 256, ByteCount(f)),
                       (sent + [f])[k], k)
    {
      StandingKept(buffers, descriptors, table, w, f, (sent + [f])[k], k);
    }
  }

  datatype Result = Sent | BadFrame | Full

  class Ring {
    var read: nat
    var write: nat
    /** What each buffer holds, which buffer each descriptor points to, and the byte counts. */
    var buffers: seq<Frame>
    var descriptors: seq<nat>
    var table: seq<nat>
    /** Every frame accepted so far. */
    ghost var sent: seq<Frame>

    ghost predicate Valid()
      reads this
    {
      && Window(read, write) && write == |sent| && |buffers| == SLOTS && |descriptors| == HW_SLOTS && |table| == TABLE
      && AllStanding(buffers, descriptors, table, sent, read)
    }

    constructor ()
      ensures Valid() && read == write == 0
    {
      read, write, sent := 0, 0, [];
      buffers := seq(SLOTS, i => Frame([], 0));
      descriptors := seq(HW_SLOTS, i => 0);
      table := seq(TABLE, i => 0);
    }

    /** `send_wifi_frame`: a frame is accepted if it has a sensible length and fewer than 32 are in flight, and then no
        frame in flight is disturbed, not even by the send after which the index wraps. */
    method Send(f: Frame) returns (r: Result)
      requires Valid()
      modifies `write, `buffers, `descriptors, `table, `sent
      ensures old(write) + 1 < WORD ==> Valid()
      ensures write == if r == Sent then (old(write) + 1) % WORD else old(write)
      ensures |buffers| == SLOTS && |descriptors| == HW_SLOTS && |table| == TABLE
      ensures AllStanding(buffers, descriptors, table, sent, read)
      ensures r == if |f.bytes| < 24 || |f.bytes| > 1988 then BadFrame
                   else if old(write) - read >= 32 then Full else Sent
      ensures r == Sent ==> sent == old(sent) + [f]
      ensures r != Sent ==> unchanged(this)
    {
      if |f.bytes| < 24 || OVERHEAD + |f.bytes| > BUFFER_SIZE { return BadFrame; }
      if (write - read) % WORD >= SLOTS { return Full; }
      var hw, sw := write % 256, write % 32;
      SendStands(buffers, descriptors, table, sent, read, write, f);
      var count := ByteCount(f);
      buffers, descriptors, table := buffers[sw := f], descriptors[hw := sw], table[hw := count];
      if hw < 64 { table := table[hw + 256 := count]; }
      write, sent := (write + 1) % WORD, sent + [f];
      r := Sent;
    }

    /** The completion branch of `handle_runtime_notification`. */
    method Completed(sequence: nat)
      requires Valid()
      modifies `read
      ensures read == Complete(old(read), write, sequence % 256)
      ensures Target(old(read), sequence % 256) < WORD ==> Valid()
    {
      if Target(read, sequence % 256) < WORD { CompleteKeepsWindow(read, write, sequence % 256); }
      var completed := sequence % 256 + 1;
      var base := read / 256 * 256;
      if completed <= read % 256 { base := (base + 256) % WORD; }
      if (base + completed) % WORD <= write { read := (base + completed) % WORD; }
    }
  }

  // ---- Runs ----

  datatype Event = Send(f: Frame) | Report(low: byte)

  function Next(read: u32, write: u32, e: Event): (rw: (u32, u32)) {
    match e
    case Send(f) => if Sendable(f) && (write - read) % WORD < SLOTS then (read, (write + 1) % WORD) else (read, write)
    case Report(low) => (Complete(read, write, low), write)
  }

  function Sends(es: seq<Event>): nat {
    if es == [] then 0 else (if es[0].Send? then 1 else 0) + Sends(es[1..])
  }

  function Run(read: u32, write: u32, es: seq<Event>): (rw: (u32, u32))
    decreases |es|
  {
    if es == [] then (read, write) else var n := Next(read, write, es[0]); Run(n.0, n.1, es[1..])
  }

  /** In every run with at most 2^32 - 257 frames, whatever the firmware reports, at most 32 frames are in flight. */
  lemma {:induction false} RunKeepsWindow(read: u32, write: u32, es: seq<Event>)
    requires Window(read, write) && write + Sends(es) <= WORD - 257
    ensures var n := Run(read, write, es); Window(n.0, n.1) && read <= n.0 && write <= n.1
    decreases |es|
  {
    if es != [] {
      var n := Next(read, write, es[0]);
      if es[0].Report? { CompleteKeepsWindow(read, write, es[0].low); }
      RunKeepsWindow(n.0, n.1, es[1..]);
    }
  }
}
