/** The single-connection TCP receiver: `net_handle_tcp` and the connection it serves (`kernel/net.c`, lines
    851-877, 1165-1221, 2806-2840 and 2864-2921; RFC 793, sections 3.3 and 3.9). */
module Tcp {
  import opened Bytes
  import opened TcpSegment

  datatype State = Closed | SynSent | Established | Done

  /** An acknowledging segment put on the wire. */
  datatype Sent = Sent(flags: nat, seqNo: u32, ackNo: u32)

  /** The connection record, the receive buffer, and the acknowledging segments sent so far. */
  datatype Conn = Conn(state: State, remoteIp: seq<byte>, remotePort: u16, localPort: u16,
                       localSeq: u32, remoteSeq: u32, rst: bool, fin: bool,
                       installed: bool, cap: nat, got: seq<byte>, sent: seq<Sent>)

  function Plus(s: u32, n: nat): (r: u32) {
    (s as int + n) % WORD
  }

  // ---- One segment ----

  predicate ForUs(t: Conn, src: seq<byte>, g: Segment) {
    g.dstPort == t.localPort && g.srcPort == t.remotePort && src == t.remoteIp
  }

  /** What the buffer holds after `payload` arrived in order: as much of it as there is room for. */
  function Filled(t: Conn, payload: seq<byte>): seq<byte> {
    if t.installed && |t.got| < t.cap then t.got + payload[..Min(|payload|, t.cap - |t.got|)] else t.got
  }

  /** The effect of a segment that belongs to the connection. */
  function Receive(t: Conn, g: Segment): (r: Conn) {
    if g.Rst() then t.(rst := true, state := Done)
    else if t.state.SynSent? then
      if g.Syn() && g.Ack() && g.ackNo == Plus(t.localSeq, 1) then
        var s, a := Plus(t.localSeq, 1), Plus(g.seqNo, 1);
        t.(localSeq := s, remoteSeq := a, state := Established, sent := t.sent + [Sent(ACK, s, a)])
      else t
    else if g.seqNo != t.remoteSeq || (g.payload == [] && !g.Fin()) then t
    else
      var a := Plus(Plus(t.remoteSeq, |g.payload|), if g.Fin() then 1 else 0);
      if g.Fin() then
        t.(got := Filled(t, g.payload), remoteSeq := a, fin := true, localSeq := Plus(t.localSeq, 1), state := Done,
           sent := t.sent + [Sent(FIN + ACK, t.localSeq, a)])
      else
        t.(got := Filled(t, g.payload), remoteSeq := a, sent := t.sent + [Sent(ACK, t.localSeq, a)])
  }

  function Handle(t: Conn, d: Datagram): (r: Conn) {
    if t.state.Closed? || t.state.Done? then t
    else
      match Parse(d.bytes)
      case None => t
      case Some(g) => if ForUs(t, d.src, g) then Receive(t, g) else t
  }

  function Run(t: Conn, ds: seq<Datagram>): (r: Conn)
    decreases |ds|
  {
    if ds == [] then t else Run(Handle(t, ds[0]), ds[1..])
  }

  /** A polling loop: batches are taken until the connection leaves `wait`, the buffer is full, or no more arrive in
      time. */
  function PollUntil(t: Conn, wait: State, polls: seq<seq<Datagram>>): Conn
    decreases |polls|
  {
    if polls == [] || t.state != wait || (t.installed && |t.got| >= t.cap) then t
    else PollUntil(Run(t, polls[0]), wait, polls[1..])
  }

  /** The rounds of opening a connection: the first one that brings an answer decides. */
  function Connecting(t: Conn, rounds: seq<seq<seq<Datagram>>>): Conn
    decreases |rounds|
  {
    if rounds == [] then t.(state := Closed)
    else
      var u := PollUntil(t, SynSent, rounds[0]);
      if u.state.SynSent? then Connecting(u, rounds[1..]) else u
  }

  /** The connection once a request of `request` bytes is out. */
  function Requested(t: Conn, request: nat): Conn {
    t.(sent := t.sent + [Sent(PSH + ACK, t.localSeq, t.remoteSeq)], localSeq := Plus(t.localSeq, request))
  }

  /** And once a buffer of `size` bytes is installed. */
  function Installed(t: Conn, size: nat): Conn {
    t.(installed := true, cap := size, got := [])
  }

  /** The connection when the buffer is about to be installed: `early` arrives before the request is out, `late`
      after. */
  function Asked(t: Conn, early: seq<Datagram>, request: nat, late: seq<Datagram>): Conn {
    Run(Requested(Run(t, early), request), late)
  }

  lemma PollOn(t: Conn, wait: State, polls: seq<seq<Datagram>>, i: nat, r: Conn)
    requires i < |polls| && PollUntil(t, wait, polls[i..]) == r && t.state == wait && !(t.installed && |t.got| >= t.cap)
    ensures PollUntil(Run(t, polls[i]), wait, polls[i + 1..]) == r
  {
    assert polls[i..][1..] == polls[i + 1..];
  }

  lemma ConnectOn(t: Conn, rounds: seq<seq<seq<Datagram>>>, i: nat, u: Conn, r: Conn)
    requires i < |rounds| && Connecting(t, rounds[i..]) == r && PollUntil(t, SynSent, rounds[i]) == u
    ensures r == if u.state.SynSent? then Connecting(u, rounds[i + 1..]) else u
  {
    assert rounds[i..][1..] == rounds[i + 1..];
  }

  /** The connection as the kernel keeps it: fields changed in place. */
  class Client {
    var state: State
    var remoteIp: seq<byte>
    var remotePort: u16
    var localPort: u16
    var localSeq: u32
    var remoteSeq: u32
    var rst: bool
    var fin: bool
    var installed: bool
    var cap: nat
    var got: seq<byte>
    var sent: seq<Sent>

    function View(): Conn
      reads this
    {
      Conn(state, remoteIp, remotePort, localPort, localSeq, remoteSeq, rst, fin, installed, cap, got, sent)
    }

    method Send(flags: nat)
      modifies this`sent
      ensures sent == if flags / ACK % 2 == 1 then old(sent) + [Sent(flags, localSeq, remoteSeq)] else old(sent)
    {
      if flags / ACK % 2 == 1 {
        sent := sent + [Sent(flags, localSeq, remoteSeq)];
      }
    }

    /** The payload copy of `net_handle_tcp`. */
    method Store(payload: seq<byte>)
      modifies this`got
      ensures got == Filled(old(View()), payload)
    {
      if |payload| > 0 && installed && |got| < cap {
        var space := cap - |got|;
        var copyLen := if |payload| < space then |payload| else space;
        got := got + payload[..copyLen];
      }
    }

    /** `net_handle_tcp`. */
    method HandleTcp(d: Datagram)
      modifies this
      ensures View() == Handle(old(View()), d)
    {
      var parsed := Parse(d.bytes);
      if state.Closed? || state.Done? || parsed.None? { return; }
      var g := parsed.value;
      if g.dstPort != localPort || g.srcPort != remotePort || d.src != remoteIp { return; }
      if g.Rst() {
        rst := true;
        state := Done;
        return;
      }
      if state.SynSent? {
        if g.Syn() && g.Ack() && g.ackNo == Plus(localSeq, 1) {
          localSeq := Plus(localSeq, 1);
          remoteSeq := Plus(g.seqNo, 1);
          state := Established;
          Send(ACK);
        }
        return;
      }
      if g.seqNo != remoteSeq { return; }
      if |g.payload| == 0 && !g.Fin() { return; }
      Accept(g);
    }

    /** The in-sequence part of `net_handle_tcp`. */
    method Accept(g: Segment)
      requires state.Established? && !g.Rst() && g.seqNo == remoteSeq && (g.payload != [] || g.Fin())
      modifies this
      ensures View() == Receive(old(View()), g)
    {
      Store(g.payload);
      remoteSeq := Plus(remoteSeq, |g.payload|);
      if g.Fin() {
        remoteSeq := Plus(remoteSeq, 1);
        fin := true;
        Send(FIN + ACK);
        localSeq := Plus(localSeq, 1);
        state := Done;
      } else {
        Send(ACK);
        assert Plus(remoteSeq, 0) == remoteSeq;
      }
    }

    // ---- Opening, fetching, closing ----

    /** Everything one `net_poll` hands to the handler. */
    method Poll(batch: seq<Datagram>)
      modifies this
      ensures View() == Run(old(View()), batch)
    {
      ghost var t := View();
      for i := 0 to |batch|
        invariant Run(View(), batch[i..]) == Run(t, batch)
      {
        assert batch[i..][1..] == batch[i + 1..];
        HandleTcp(batch[i]);
      }
    }

    /** Polls until the connection leaves `wait`, the buffer is full, or the deadline: `polls` are the batches that
        arrive before it. */
    method PollWhile(wait: State, polls: seq<seq<Datagram>>, ghost p: Talker, ghost base: nat, ghost a0: nat,
                     ghost acks0: seq<nat>)
      returns (ghost a: nat, ghost acks: seq<nat>)
      requires Tracks(p, base, View(), a0, acks0) && AllBatches(p, View(), polls)
      modifies this
      ensures View() == PollUntil(old(View()), wait, polls)
      ensures a0 <= a && Tracks(p, base, View(), a, acks)
      ensures SameConnection(old(View()), View())
    {
      a, acks := a0, acks0;
      ghost var t, r := View(), PollUntil(View(), wait, polls);
      assert polls[0..] == polls;
      var i := 0;
      while i < |polls| && state == wait && !(installed && |got| >= cap)
        invariant 0 <= i <= |polls| && a0 <= a && Polling(p, base, t, View(), a, acks, wait, polls, i, r)
      {
        a, acks := PollStep(p, base, t, View(), a, acks, wait, polls, i, r);
        Poll(polls[i]);
        i := i + 1;
      }
      PollDone(p, base, t, View(), a, acks, wait, polls, i, r);
    }

    /** The record is cleared and filled in. */
    method Open(ip: seq<byte>, port: u16, local: u16, isn: u32)
      modifies this
      ensures View() == Opening(ip, port, local, isn)
    {
      remoteIp, remotePort, localPort := ip, port, local;
      localSeq, remoteSeq, rst, fin := isn, 0, false, false;
      installed, cap, got, sent := false, 0, [], [];
      state := SynSent;
    }

    /** Up to one round of SYN and polling for each of `rounds`, until there is an answer. */
    method TryRounds(rounds: seq<seq<seq<Datagram>>>, ghost p: Talker) returns (ghost a: nat, ghost acks: seq<nat>)
      requires state.SynSent? && !installed && Tracks(p, 0, View(), 0, [])
      requires forall r :: 0 <= r < |rounds| ==> AllBatches(p, View(), rounds[r])
      modifies this
      ensures View() == Connecting(old(View()), rounds)
      ensures !state.SynSent? && Tracks(p, 0, View(), a, acks) && SameEnds(old(View()), View()) && !installed
    {
      a, acks := 0, [];
      ghost var t, r := View(), Connecting(View(), rounds);
      assert rounds[0..] == rounds;
      var attempt := 0;
      while attempt < |rounds|
        invariant 0 <= attempt <= |rounds| && state.SynSent? && !installed && Connecting(View(), rounds[attempt..]) == r
        invariant Tracks(p, 0, View(), a, acks) && SameEnds(t, View())
      {
        Send(SYN);
        BatchesSameEnds(p, t, View(), rounds[attempt]);
        ConnectOn(View(), rounds, attempt, PollUntil(View(), SynSent, rounds[attempt]), r);
        a, acks := PollWhile(SynSent, rounds[attempt], p, 0, a, acks);
        if !state.SynSent? { return; }
        attempt := attempt + 1;
      }
      state := Closed;
    }

    /** `net_tcp_connect`: a fresh record, then up to three rounds of SYN and polling. `ready` says whether there is a
        working interface. The local port and initial number are chosen by the caller's clock; `rounds` are the
        batches that arrive in each round. */
    method Connect(ready: bool, ip: seq<byte>, port: u16, local: u16, isn: u32, rounds: seq<seq<seq<Datagram>>>,
                   ghost p: Talker)
      returns (code: int, ghost a: nat, ghost acks: seq<nat>)
      requires |rounds| == 3
      requires forall r :: 0 <= r < 3 ==> AllBatches(p, Opening(ip, port, local, isn), rounds[r])
      modifies this
      ensures View() == if ready then Connecting(Opening(ip, port, local, isn), rounds) else old(View())
      ensures code == if !ready then -1 else if state.Established? then 0 else -2
      ensures ready ==> Speaks(isn, 0, 0, View())
      ensures ready ==> !state.SynSent? && Tracks(p, 0, View(), a, acks)
                        && SameEnds(Opening(ip, port, local, isn), View()) && !installed
    {
      if !ready { return -1, 0, []; }
      OpeningSpeaks(ip, port, local, isn);
      ConnectSpeaks(isn, Opening(ip, port, local, isn), rounds);
      Open(ip, port, local, isn);
      a, acks := TryRounds(rounds, p);
      code := if state.Established? then 0 else -2;
    }

    /** `net_tcp_abort`: the connection is over for good, whatever arrives later, and the peer is told with one reset
        if it may still think otherwise. */
    method Abort()
      modifies this`state, this`sent
      ensures state.Closed? && forall ds :: Run(View(), ds) == View()
      ensures sent == old(sent) +
        if old(state.Established? || state.SynSent?) then [Sent(RST + ACK, localSeq, remoteSeq)] else []
    {
      if state.Established? || state.SynSent? { Send(RST + ACK); }
      state := Closed;
      forall ds ensures Run(View(), ds) == View() { FinishedIsFinal(View(), ds); }
    }

    /** `net_http_get`. `resolved` says that the arguments are there and the name has an address. The buffer is
        installed only once the request is out, so the bytes returned are the stream from `base` on, where `base` bytes
        had been acknowledged by then: in the handshake rounds, while the request waited for a hardware address
        (`early`), or between sending and installing (`late`). They are a prefix of the stream if none had. */
    method HttpGet(resolved: bool, ready: bool, ip: seq<byte>, port: u16, local: u16, isn: u32,
                   rounds: seq<seq<seq<Datagram>>>, early: seq<Datagram>, request: nat, sendOk: bool,
                   late: seq<Datagram>, size: nat, polls: seq<seq<Datagram>>, ghost p: Talker)
      returns (code: int, out: seq<byte>, ghost base: nat, ghost a: nat)
      requires |rounds| == 3
      requires forall r :: 0 <= r < 3 ==> AllBatches(p, Opening(ip, port, local, isn), rounds[r])
      requires AllFromPeer(p, Opening(ip, port, local, isn), early)
      requires AllFromPeer(p, Opening(ip, port, local, isn), late)
      requires AllBatches(p, Opening(ip, port, local, isn), polls)
      modifies this
      ensures var c := Connecting(Opening(ip, port, local, isn), rounds);
              if !resolved || size == 0 then code == -1
              else if !ready || !c.state.Established? then code == -2
              else if !sendOk then code == -3
              else
                var q := Asked(c, early, request, late);
                var r := PollUntil(Installed(q, size), Established, polls);
                && (code == if r.got == [] && !(r.state.Done? && r.fin) then -4 else |r.got|)
                && out == r.got && StartsAt(p, q, base)
      ensures code >= 0 ==> code == |out| && base <= a <= |p.stream|
      ensures code >= 0 ==> out == p.stream[base..base + Min(size, a - base)]
      ensures code >= 0 && state.Done? && fin ==> a == |p.stream|
      ensures code >= 0 && base == 0 ==> out <= p.stream
      // Our own numbers count what we have said: the SYN, the request, and an end mark at the end.
      ensures var c := Connecting(Opening(ip, port, local, isn), rounds);
              c.state.Established? && !Run(c, early).fin ==>
                exists q: nat :: Speaks(isn, request, q, Answered(c, early, request, late, size, polls))
      // Nothing that arrives later can write to the buffer that was handed out.
      ensures resolved && size > 0 && ready ==> !installed && (state.Done? || state.Closed?)
    {
      out, base, a := [], 0, 0;
      SessionSpeaks(ip, port, local, isn, rounds, early, request, late, size, polls);
      if !resolved || size == 0 { return -1, out, base, a; }
      ghost var acks;
      ghost var t := Opening(ip, port, local, isn);
      code, base, acks := Connect(ready, ip, port, local, isn, rounds, p);
      if code != 0 { return -2, out, base, a; }
      base, acks := TakeIn(early, p, t, base, acks);
      if !sendOk {
        Abort();
        return -3, out, base, a;
      }
      base, acks := Ask(request, late, p, t, base, acks);
      BatchesSameEnds(p, t, View(), polls);
      StartIs(p, View(), base, acks);
      code, out, a := Fetch(size, polls, p, base, acks);
    }

    /** A batch that arrives on an open connection without a buffer. */
    method TakeIn(batch: seq<Datagram>, ghost p: Talker, ghost t: Conn, ghost a0: nat, ghost acks0: seq<nat>)
      returns (ghost a: nat, ghost acks: seq<nat>)
      requires Awaiting(p, t, View(), a0, acks0) && AllFromPeer(p, t, batch)
      modifies this
      ensures View() == Run(old(View()), batch) && Awaiting(p, t, View(), a, acks)
    {
      SameFromPeer(p, t, View(), batch);
      RunSameConnection(View(), batch);
      RunKeepsSent(View(), batch);
      a, acks := RunTracks(p, 0, View(), a0, acks0, batch);
      Poll(batch);
    }

    /** The request goes out, and what arrives until the buffer is installed is taken in. */
    method Ask(request: nat, late: seq<Datagram>, ghost p: Talker, ghost t: Conn, ghost a0: nat, ghost acks0: seq<nat>)
      returns (ghost a: nat, ghost acks: seq<nat>)
      requires Awaiting(p, t, View(), a0, acks0) && AllFromPeer(p, t, late)
      modifies this
      ensures View() == Run(Requested(old(View()), request), late) && Awaiting(p, t, View(), a, acks)
    {
      ghost var before, top := View(), if fin then a0 + 1 else a0;
      Send(PSH + ACK);
      localSeq := Plus(localSeq, request);
      AcksSnoc(p, before.sent, acks0, top, Sent(PSH + ACK, before.localSeq, before.remoteSeq), top);
      a, acks := TakeIn(late, p, t, a0, acks0 + [top]);
    }

    /** The buffer is installed, and the answer collected until it ends, fills the buffer or takes too long. */
    method Fetch(size: nat, polls: seq<seq<Datagram>>, ghost p: Talker, ghost base: nat, ghost acks0: seq<nat>)
      returns (code: int, out: seq<byte>, ghost a: nat)
      requires (state.Established? || state.Done?) && Tracks(p, 0, View(), base, acks0) && AllBatches(p, View(), polls)
      modifies this
      ensures var r := PollUntil(Installed(old(View()), size), Established, polls);
              (code == if r.got == [] && !(r.state.Done? && r.fin) then -4 else |r.got|) && out == r.got
      ensures !installed && (state.Done? || state.Closed?)
      ensures code >= 0 ==> code == |out| && base <= a <= |p.stream|
      ensures code >= 0 ==> out == p.stream[base..base + Min(size, a - base)]
      ensures code >= 0 && state.Done? && fin ==> a == |p.stream|
    {
      ghost var before := View();
      installed, cap, got := true, size, [];
      BatchesSameEnds(p, before, View(), polls);
      ghost var acks;
      a, acks := PollWhile(Established, polls, p, base, base, acks0);
      code, out := Finish();
    }

    /** The buffer is given up, and the connection if it is not finished. */
    method Finish() returns (code: int, out: seq<byte>)
      modifies this
      ensures code == if old(got == [] && !(state.Done? && fin)) then -4 else |old(got)|
      ensures out == old(got) && !installed
      ensures if old(state.Done?) then state.Done? && fin == old(fin) else state.Closed?
    {
      var hadData, closedCleanly := |got| > 0, state.Done? && fin;
      out := got;
      installed, cap := false, 0;
      if !state.Done? { Abort(); }
      code := if !hadData && !closedCleanly then -4 else |out|;
    }
  }

  /** An open or just finished connection to the ends of `t`, no buffer installed, `a` bytes acknowledged. */
  ghost predicate Awaiting(p: Talker, t: Conn, u: Conn, a: nat, acks: seq<nat>) {
    && (u.state.Established? || u.state.Done?) && u.sent != [] && !u.installed
    && SameEnds(t, u) && Tracks(p, 0, u, a, acks)
  }

  /** `base` bytes of the stream had been acknowledged; none exactly if the next expected number is the one behind the
      SYN, or behind that and an end mark. */
  ghost predicate StartsAt(p: Talker, q: Conn, base: nat) {
    && base <= |p.stream| && q.remoteSeq == Plus(p.isn, 1 + if q.fin then base + 1 else base)
    && (base == 0 <==> q.remoteSeq == Plus(p.isn, if q.fin then 2 else 1))
  }

  lemma StartIs(p: Talker, q: Conn, base: nat, acks: seq<nat>)
    requires Tracks(p, 0, q, base, acks) && q.sent != []
    ensures StartsAt(p, q, base)
  {
    var k := if q.fin then 2 else 1;
    PlusInjective(p.isn, k, base);
  }

  lemma PlusInjective(s: u32, k: nat, n: nat)
    requires n < WORD
    ensures n == 0 <==> Plus(s, k + n) == Plus(s, k)
  {
    var x := s as int + k;
    if Plus(s, k + n) == Plus(s, k) {
      assert (x + n) % WORD == x % WORD;
      var q, r := (x + n) / WORD, x / WORD;
      assert n == WORD * (q - r);
    }
  }

  lemma SameFromPeer(p: Talker, t: Conn, u: Conn, ds: seq<Datagram>)
    requires AllFromPeer(p, t, ds) && SameEnds(t, u)
    ensures AllFromPeer(p, u, ds)
  {
    forall k | 0 <= k < |ds| ensures FromPeer(p, u, ds[k]) { assert FromPeer(p, t, ds[k]); }
  }

  lemma {:induction false} RunKeepsSent(t: Conn, ds: seq<Datagram>)
    requires t.state.Established? || t.state.Done?
    ensures var r := Run(t, ds); t.sent <= r.sent && (r.state.Established? || r.state.Done?)
    decreases |ds|
  {
    if ds != [] { RunKeepsSent(Handle(t, ds[0]), ds[1..]); }
  }

  /** The record a connection attempt starts from. */
  function Opening(ip: seq<byte>, port: u16, local: u16, isn: u32): Conn {
    Conn(SynSent, ip, port, local, isn, 0, false, false, false, 0, [], [])
  }

  ghost predicate AllBatches(p: Talker, t: Conn, polls: seq<seq<Datagram>>) {
    forall i :: 0 <= i < |polls| ==> AllFromPeer(p, t, polls[i])
  }

  /** The same two ends, so the same segments belong to both. */
  ghost predicate SameEnds(t: Conn, r: Conn) {
    r.remoteIp == t.remoteIp && r.remotePort == t.remotePort && r.localPort == t.localPort
  }

  /** Nothing but progress on the same connection, with the same buffer. */
  ghost predicate SameConnection(t: Conn, r: Conn) {
    SameEnds(t, r) && r.installed == t.installed && r.cap == t.cap && (r.state.Closed? <==> t.state.Closed?)
  }

  lemma BatchFromPeer(p: Talker, t: Conn, r: Conn, polls: seq<seq<Datagram>>, i: nat)
    requires AllBatches(p, t, polls) && SameEnds(t, r) && i < |polls|
    ensures AllFromPeer(p, r, polls[i])
  {
    SameFromPeer(p, t, r, polls[i]);
  }

  /** Where a polling loop that started from `t0` stands before batch `i`; it will end at `r`. */
  ghost predicate Polling(p: Talker, base: nat, t0: Conn, t: Conn, a: nat, acks: seq<nat>,
                          wait: State, polls: seq<seq<Datagram>>, i: nat, r: Conn)
  {
    && i <= |polls| && PollUntil(t, wait, polls[i..]) == r
    && Tracks(p, base, t, a, acks) && SameConnection(t0, t)
  }

  lemma PollStep(p: Talker, base: nat, t0: Conn, t: Conn, a: nat, acks: seq<nat>,
                 wait: State, polls: seq<seq<Datagram>>, i: nat, r: Conn)
    returns (a': nat, acks': seq<nat>)
    requires Polling(p, base, t0, t, a, acks, wait, polls, i, r) && AllBatches(p, t0, polls)
    requires i < |polls| && t.state == wait && !(t.installed && |t.got| >= t.cap)
    ensures a <= a' && Polling(p, base, t0, Run(t, polls[i]), a', acks', wait, polls, i + 1, r)
  {
    PollOn(t, wait, polls, i, r);
    BatchFromPeer(p, t0, t, polls, i);
    RunSameConnection(t, polls[i]);
    a', acks' := RunTracks(p, base, t, a, acks, polls[i]);
  }

  lemma PollDone(p: Talker, base: nat, t0: Conn, t: Conn, a: nat, acks: seq<nat>,
                 wait: State, polls: seq<seq<Datagram>>, i: nat, r: Conn)
    requires Polling(p, base, t0, t, a, acks, wait, polls, i, r)
    requires i == |polls| || t.state != wait || (t.installed && |t.got| >= t.cap)
    ensures t == r
  {
  }

  lemma BatchesSameEnds(p: Talker, t: Conn, r: Conn, polls: seq<seq<Datagram>>)
    requires AllBatches(p, t, polls) && SameEnds(t, r)
    ensures AllBatches(p, r, polls)
  {
    forall i | 0 <= i < |polls| ensures AllFromPeer(p, r, polls[i]) { BatchFromPeer(p, t, r, polls, i); }
  }

  lemma {:induction false} RunSameConnection(t: Conn, ds: seq<Datagram>)
    ensures SameConnection(t, Run(t, ds))
    decreases |ds|
  {
    if ds != [] { RunSameConnection(Handle(t, ds[0]), ds[1..]); }
  }

  /** A finished or unopened connection ignores everything: the handler never leaves DONE. */
  lemma {:induction false} FinishedIsFinal(t: Conn, ds: seq<Datagram>)
    requires t.state.Done? || t.state.Closed?
    ensures Run(t, ds) == t
  {
    if ds != [] { FinishedIsFinal(t, ds[1..]); }
  }

  // ---- Our own side ----

  /** What we have said since `isn`: nothing before the answer to our SYN, then that SYN, `asked` bytes of request
      and, at the end, our end mark. Every acknowledging segment carries the number of the next thing we say: those
      before the request and the request itself, which is number `q` of them, the one behind the SYN, the later ones
      the one behind the request. The request is pushed, the last one of a finished stream ends ours too, all others
      only acknowledge. */
  ghost predicate Speaks(isn: u32, asked: nat, q: nat, t: Conn) {
    && (t.state.SynSent? ==> t.sent == [] && !t.fin) && (t.state.Established? ==> t.sent != [] && !t.fin)
    && (t.sent == [] ==> asked == 0 && !t.fin) && q <= |t.sent| && (q == 0 ==> asked == 0)
    && t.localSeq == Plus(isn, if t.sent == [] then 0 else 1 + asked + if t.fin then 1 else 0)
    && (forall i :: 0 <= i < |t.sent| ==> t.sent[i].seqNo == Plus(isn, if i < q then 1 else 1 + asked))
    && (forall i :: 0 <= i < |t.sent| ==>
          t.sent[i].flags == if t.fin && i == |t.sent| - 1 then 0x11 else if i == q - 1 then 0x18 else 0x10)
  }

  lemma OpeningSpeaks(ip: seq<byte>, port: u16, local: u16, isn: u32)
    ensures Speaks(isn, 0, 0, Opening(ip, port, local, isn))
  {
    assert Plus(isn, 0) == isn;
  }

  lemma ReceiveSpeaks(isn: u32, asked: nat, q: nat, t: Conn, g: Segment)
    requires Speaks(isn, asked, q, t) && (t.state.SynSent? || t.state.Established?)
    ensures Speaks(isn, asked, q, Receive(t, g))
  {
    PlusPlus(isn, 0, 1);
    PlusPlus(isn, 1 + asked, 1);
  }

  /** Every run of datagrams, whoever sends them, keeps that. */
  lemma {:induction false} RunSpeaks(isn: u32, asked: nat, q: nat, t: Conn, ds: seq<Datagram>)
    requires Speaks(isn, asked, q, t)
    ensures Speaks(isn, asked, q, Run(t, ds))
    decreases |ds|
  {
    if ds != [] {
      var r := Handle(t, ds[0]);
      if r != t { ReceiveSpeaks(isn, asked, q, t, Parse(ds[0].bytes).value); }
      RunSpeaks(isn, asked, q, r, ds[1..]);
    }
  }

  lemma {:induction false} PollSpeaks(isn: u32, asked: nat, q: nat, t: Conn, wait: State, polls: seq<seq<Datagram>>)
    requires Speaks(isn, asked, q, t)
    ensures Speaks(isn, asked, q, PollUntil(t, wait, polls))
    decreases |polls|
  {
    if !(polls == [] || t.state != wait || (t.installed && |t.got| >= t.cap)) {
      RunSpeaks(isn, asked, q, t, polls[0]);
      PollSpeaks(isn, asked, q, Run(t, polls[0]), wait, polls[1..]);
    }
  }

  lemma {:induction false} ConnectSpeaks(isn: u32, t: Conn, rounds: seq<seq<seq<Datagram>>>)
    requires Speaks(isn, 0, 0, t)
    ensures Speaks(isn, 0, 0, Connecting(t, rounds))
    decreases |rounds|
  {
    if rounds != [] {
      PollSpeaks(isn, 0, 0, t, SynSent, rounds[0]);
      ConnectSpeaks(isn, PollUntil(t, SynSent, rounds[0]), rounds[1..]);
    }
  }

  /** The request is the next thing we say. */
  lemma RequestSpeaks(isn: u32, t: Conn, request: nat)
    requires Speaks(isn, 0, 0, t) && t.sent != [] && !t.fin
    ensures Speaks(isn, request, |t.sent| + 1, Requested(t, request))
    ensures Requested(t, request).sent[|t.sent|].seqNo == Plus(isn, 1)
  {
    PlusPlus(isn, 1, request);
  }

  /** The connection when the answer has been collected. */
  function Answered(c: Conn, early: seq<Datagram>, request: nat, late: seq<Datagram>, size: nat,
                    polls: seq<seq<Datagram>>): Conn
  {
    PollUntil(Installed(Asked(c, early, request, late), size), Established, polls)
  }

  /** From opening to the end of the answer our numbers are right at every step. After an early end mark of the peer the
      request still goes out, behind our own end mark. */
  lemma SessionSpeaks(ip: seq<byte>, port: u16, local: u16, isn: u32, rounds: seq<seq<seq<Datagram>>>,
                      early: seq<Datagram>, request: nat, late: seq<Datagram>, size: nat, polls: seq<seq<Datagram>>)
    ensures var c := Connecting(Opening(ip, port, local, isn), rounds);
            && Speaks(isn, 0, 0, c) && Speaks(isn, 0, 0, Run(c, early))
            && (c.state.Established? ==> c.localSeq == Plus(isn, 1))
            && (Run(c, early).fin ==>
                  Requested(Run(c, early), request).sent[|Run(c, early).sent|].seqNo == Plus(isn, 2))
            && (c.state.Established? && !Run(c, early).fin ==>
                  && Requested(Run(c, early), request).localSeq == Plus(isn, 1 + request)
                  && exists q: nat :: Speaks(isn, request, q, Answered(c, early, request, late, size, polls)))
  {
    var t := Opening(ip, port, local, isn);
    OpeningSpeaks(ip, port, local, isn);
    ConnectSpeaks(isn, t, rounds);
    var c := Connecting(t, rounds);
    RunSpeaks(isn, 0, 0, c, early);
    var u := Run(c, early);
    if c.state.Established? && !u.fin {
      RunKeepsSent(c, early);
      RequestSpeaks(isn, u, request);
      var q := |u.sent| + 1;
      RunSpeaks(isn, request, q, Requested(u, request), late);
      var a := Installed(Asked(c, early, request, late), size);
      assert Speaks(isn, request, q, a);
      PollSpeaks(isn, request, q, a, Established, polls);
      assert Speaks(isn, request, q, Answered(c, early, request, late, size, polls));
      assert Requested(u, request).localSeq == Plus(isn, 1 + request);
    }
  }

  /** The handshake succeeds with exactly the segments that have SYN and ACK set, not RST, and acknowledge our SYN. */
  lemma HandshakeIff(isn: u32, t: Conn, g: Segment)
    requires Speaks(isn, 0, 0, t) && t.state.SynSent?
    ensures Receive(t, g).state.Established? <==>
      g.flags % 4 >= 2 && g.flags % 32 >= 16 && g.flags % 8 < 4 && (g.ackNo as int - isn as int) % WORD == 1
    ensures Receive(t, g).state.Established? ==> (Receive(t, g).remoteSeq as int - g.seqNo as int) % WORD == 1
  {
    FlagBits(g);
    NextOf(isn, g.ackNo);
    NextOf(g.seqNo, Plus(g.seqNo, 1));
    assert Plus(isn, 0) == isn;
  }

  lemma NextOf(s: u32, x: u32)
    ensures x == Plus(s, 1) <==> (x as int - s as int) % WORD == 1
  {
  }

  /** A reset ends the connection, whatever its numbers, and is not answered. */
  lemma ResetEnds(t: Conn, g: Segment)
    requires g.flags % 8 >= 4
    ensures Receive(t, g) == t.(rst := true, state := Done)
  {
    FlagBits(g);
  }

  /** Only segments from the address and port we talk to, to the port we talk from, have any effect. */
  lemma ForeignIgnored(t: Conn, d: Datagram)
    requires Handle(t, d) != t
    ensures d.src == t.remoteIp && |d.bytes| >= 20
    ensures 0x100 * (d.bytes[0] as int) + d.bytes[1] as int == t.remotePort
    ensures 0x100 * (d.bytes[2] as int) + d.bytes[3] as int == t.localPort
  {
  }

  // ---- Polling ----

  function Flatten<T>(xs: seq<seq<T>>): seq<T> {
    if xs == [] then [] else xs[0] + Flatten(xs[1..])
  }

  lemma {:induction false} RunConcat(t: Conn, a: seq<Datagram>, b: seq<Datagram>)
    ensures Run(t, a + b) == Run(Run(t, a), b)
    decreases |a|
  {
    if a == [] {
      assert a + b == b;
    } else {
      RunConcat(Handle(t, a[0]), a[1..], b);
      assert (a + b)[1..] == a[1..] + b;
    }
  }

  predicate Waiting(t: Conn, wait: State) {
    t.state == wait && !(t.installed && |t.got| >= t.cap)
  }

  /** Polling is handling all batches in order, up to the first one after which there is nothing to wait for. */
  lemma {:induction false} PollIsRun(t: Conn, wait: State, polls: seq<seq<Datagram>>) returns (m: nat)
    ensures m <= |polls| && PollUntil(t, wait, polls) == Run(t, Flatten(polls[..m]))
    ensures forall j :: 0 <= j < m ==> Waiting(Run(t, Flatten(polls[..j])), wait)
    ensures m < |polls| ==> !Waiting(PollUntil(t, wait, polls), wait)
    decreases |polls|
  {
    assert polls[..0] == [] && Flatten<Datagram>([]) == [];
    if polls == [] || !Waiting(t, wait) {
      m := 0;
      assert PollUntil(t, wait, polls) == t;
    } else {
      var u := Run(t, polls[0]);
      var k := PollIsRun(u, wait, polls[1..]);
      m := k + 1;
      forall j | 0 <= j < |polls|
        ensures Run(t, Flatten(polls[..j + 1])) == Run(u, Flatten(polls[1..][..j]))
      {
        assert polls[..j + 1][1..] == polls[1..][..j];
        RunConcat(t, polls[0], Flatten(polls[1..][..j]));
      }
      forall j | 0 <= j < m
        ensures Waiting(Run(t, Flatten(polls[..j])), wait)
      {
        if j > 0 { assert Waiting(Run(u, Flatten(polls[1..][..j - 1])), wait); }
      }
    }
  }

  /** The rounds of connecting are one long wait for the answer; if none has come by the end, the connection is
      closed. */
  lemma {:induction false} ConnectIsPoll(t: Conn, rounds: seq<seq<seq<Datagram>>>)
    requires t.state.SynSent? && !t.installed
    ensures var u := PollUntil(t, SynSent, Flatten(rounds));
            Connecting(t, rounds) == if u.state.SynSent? then u.(state := Closed) else u
    decreases |rounds|
  {
    if rounds != [] {
      var u := PollUntil(t, SynSent, rounds[0]);
      PollSame(t, SynSent, rounds[0]);
      PollConcat(t, SynSent, rounds[0], Flatten(rounds[1..]));
      if u.state.SynSent? { ConnectIsPoll(u, rounds[1..]); }
    }
  }

  lemma {:induction false} PollSame(t: Conn, wait: State, polls: seq<seq<Datagram>>)
    ensures PollUntil(t, wait, polls).installed == t.installed
    decreases |polls|
  {
    if !(polls == [] || !Waiting(t, wait)) {
      RunSameConnection(t, polls[0]);
      PollSame(Run(t, polls[0]), wait, polls[1..]);
    }
  }

  lemma {:induction false} PollConcat(t: Conn, wait: State, a: seq<seq<Datagram>>, b: seq<seq<Datagram>>)
    ensures PollUntil(t, wait, a + b) ==
      var u := PollUntil(t, wait, a); if Waiting(u, wait) then PollUntil(u, wait, b) else u
    decreases |a|
  {
    if a == [] {
      assert a + b == b;
    } else {
      assert (a + b)[1..] == a[1..] + b;
      if Waiting(t, wait) { PollConcat(Run(t, a[0]), wait, a[1..], b); }
    }
  }

  // ---- A peer that sends one stream ----

  /** The other side: its initial sequence number and the bytes it has to say, fewer than 2^32 of them. */
  datatype Peer = Peer(isn: u32, stream: seq<byte>)

  type Talker = p: Peer | |p.stream| < WORD witness Peer(0, [])

  /** `g` carries the peer's bytes from position `off` on, and its end mark only behind the last of them. */
  ghost predicate CarriesFrom(p: Talker, g: Segment, off: nat) {
    && off + |g.payload| <= |p.stream| && g.seqNo == Plus(p.isn, 1 + off)
    && g.payload == p.stream[off..off + |g.payload|]
    && (g.Fin() ==> off + |g.payload| == |p.stream|)
  }

  /** A segment the peer may have sent: a reset, its SYN, or a piece of the stream cut anywhere. */
  ghost predicate CutFrom(p: Talker, g: Segment) {
    || g.Rst()
    || (g.Syn() && g.seqNo == p.isn && g.payload == [] && !g.Fin())
    || (!g.Syn() && exists off: nat :: CarriesFrom(p, g, off))
  }

  /** A datagram that the handler either ignores or takes for a segment of the peer. */
  ghost predicate FromPeer(p: Talker, t: Conn, d: Datagram) {
    match Parse(d.bytes)
    case None => true
    case Some(g) => ForUs(t, d.src, g) ==> CutFrom(p, g)
  }

  ghost predicate AllFromPeer(p: Talker, t: Conn, ds: seq<Datagram>) {
    forall i :: 0 <= i < |ds| ==> FromPeer(p, t, ds[i])
  }

  /** Position in the stream that sequence number `s` stands for. */
  function Position(p: Peer, s: u32): (n: nat)
    ensures n < WORD
  {
    (s as int - p.isn as int - 1) % WORD
  }

  lemma PositionOf(p: Peer, n: nat)
    requires n < WORD
    ensures Position(p, Plus(p.isn, 1 + n)) == n
  {
    var x := p.isn as int + (1 + n);
    assert Plus(p.isn, 1 + n) == x % WORD;
    SubMod(x, p.isn as int + 1);
  }

  lemma SubMod(x: int, y: int)
    ensures (x % WORD - y) % WORD == (x - y) % WORD
  {
    var q := x / WORD;
    assert x == q * WORD + x % WORD;
  }

  lemma PlusPlus(s: u32, m: nat, n: nat)
    ensures Plus(Plus(s, m), n) == Plus(s, m + n)
  {
  }

  lemma NextNumber(s: u32, k: nat, m: nat, n: nat)
    ensures Plus(Plus(Plus(s, k), m), n) == Plus(s, k + m + n)
  {
    PlusPlus(s, k, m);
    PlusPlus(s, k + m, n);
  }

  /** What is true after any number of segments: `a` bytes of the stream have been acknowledged, `a + 1` numbers
      after the end mark; a buffer installed at position `base` holds the stream from there on, as far as it has
      room; and the acknowledgements sent so far are positions of the stream, in order, up to the one reached. */
  ghost predicate Tracks(p: Talker, base: nat, t: Conn, a: nat, acks: seq<nat>) {
    && a <= |p.stream|
    && (t.state.SynSent? ==> a == 0 && !t.fin && t.sent == [])
    && (t.state.Established? ==> !t.fin && t.sent != [])
    && (t.fin ==> a == |p.stream| && t.sent != [])
    && (t.sent != [] ==> t.remoteSeq == Plus(p.isn, 1 + if t.fin then a + 1 else a))
    && Buffered(p, base, t, a)
    && AcksOk(p, t.sent, acks, if t.fin then a + 1 else a)
  }

  ghost predicate Buffered(p: Talker, base: nat, t: Conn, a: nat) {
    if t.installed then
      base <= a && a <= |p.stream| && t.got == p.stream[base..base + Min(t.cap, a - base)]
    else t.got == []
  }

  ghost predicate AcksOk(p: Talker, sent: seq<Sent>, acks: seq<nat>, top: nat) {
    && |acks| == |sent|
    && (forall i :: 0 <= i < |sent| ==> sent[i].ackNo == Plus(p.isn, 1 + acks[i]) && acks[i] <= top)
    && (forall i, j :: 0 <= i < j < |acks| ==> acks[i] <= acks[j])
    && (acks != [] ==> acks[|acks| - 1] == top)
  }

  lemma AcksSnoc(p: Talker, sent: seq<Sent>, acks: seq<nat>, top: nat, s: Sent, a: nat)
    requires AcksOk(p, sent, acks, top) && top <= a && s.ackNo == Plus(p.isn, 1 + a)
    ensures AcksOk(p, sent + [s], acks + [a], a)
  {
  }

  lemma BufferedMore(p: Talker, base: nat, t: Conn, a: nat, payload: seq<byte>)
    requires Buffered(p, base, t, a) && a + |payload| <= |p.stream| && payload == p.stream[a..a + |payload|]
    ensures Buffered(p, base, t.(got := Filled(t, payload)), a + |payload|)
  {
    if t.installed {
      var m := Min(t.cap, a - base);
      var k := Min(|payload|, t.cap - |t.got|);
      if |t.got| < t.cap {
        SliceSlice(p.stream, a, a + |payload|, 0, k);
        assert p.stream[base..base + m] + p.stream[a..a + k] == p.stream[base..base + m + k];
      }
    }
  }

  /** An in-sequence piece of the stream starts at the first byte not yet acknowledged. */
  lemma InSequence(p: Talker, g: Segment, a: nat, off: nat)
    requires CarriesFrom(p, g, off) && a <= |p.stream|
    ensures g.seqNo == Plus(p.isn, 1 + a) <==> off == a
  {
    PositionOf(p, off);
    PositionOf(p, a);
  }

  /** A SYN is never taken for the first byte of something new. */
  lemma SynIsOld(p: Talker, t: Conn, g: Segment)
    requires t.state.Established? && g.Syn() && !g.Rst() && g.payload == [] && !g.Fin()
    ensures Receive(t, g) == t
  {
  }

  lemma ReceiveTracks(p: Talker, base: nat, t: Conn, a: nat, acks: seq<nat>, g: Segment)
    returns (a': nat, acks': seq<nat>)
    requires Tracks(p, base, t, a, acks) && (t.state.SynSent? || t.state.Established?) && CutFrom(p, g)
    ensures a <= a' && Tracks(p, base, Receive(t, g), a', acks')
    ensures acks <= acks'
  {
    a', acks' := a, acks;
    var r := Receive(t, g);
    if g.Rst() {
    } else if t.state.SynSent? {
      if r != t {
        acks' := [0];
        HandshakeTracks(p, base, t, g);
      }
    } else if r != t {
      if g.Syn() { SynIsOld(p, t, g); }
      var off: nat :| CarriesFrom(p, g, off);
      InSequence(p, g, a, off);
      a' := a + |g.payload|;
      acks' := acks + [if g.Fin() then a' + 1 else a'];
      AcceptTracks(p, base, t, a, acks, g);
    }
  }

  lemma HandshakeTracks(p: Talker, base: nat, t: Conn, g: Segment)
    requires Tracks(p, base, t, 0, []) && t.state.SynSent? && !g.Rst() && Receive(t, g) != t
    requires g.seqNo == p.isn
    ensures Tracks(p, base, Receive(t, g), 0, [0])
  {
  }

  lemma AcceptTracks(p: Talker, base: nat, t: Conn, a: nat, acks: seq<nat>, g: Segment)
    requires Tracks(p, base, t, a, acks) && t.state.Established? && !g.Rst() && CarriesFrom(p, g, a)
    requires g.payload != [] || g.Fin()
    ensures var a' := a + |g.payload|;
            Tracks(p, base, Receive(t, g), a', acks + [if g.Fin() then a' + 1 else a'])
  {
    var a' := a + |g.payload|;
    var top := if g.Fin() then a' + 1 else a';
    NextNumber(p.isn, 1 + a, |g.payload|, if g.Fin() then 1 else 0);
    BufferedMore(p, base, t, a, g.payload);
    AcksSnoc(p, t.sent, acks, a, Receive(t, g).sent[|t.sent|], top);
  }

  /** Bytes that arrive before there is a buffer are acknowledged and lost: what is then collected need not be a
      prefix of the stream. */
  lemma EarlyBytesLost(t: Conn, syn: Segment, one: Segment, two: Segment)
    requires t == Opening([10, 0, 0, 1], 80, 49152, 5)
    requires syn == Segment(80, 49152, 100, 6, SYN + ACK, [])
    requires one == Segment(80, 49152, 101, 6, ACK, [7]) && two == Segment(80, 49152, 102, 6, FIN + ACK, [9])
    ensures var p: Talker := Peer(100, [7, 9]);
            CutFrom(p, syn) && CutFrom(p, one) && CutFrom(p, two)
    ensures var r := Receive(Receive(t, syn), one);
            var done := Receive(r.(installed := true, cap := 10, got := []), two);
            done.state.Done? && done.got == [9] && !(done.got <= [7, 9])
  {
    var p: Talker := Peer(100, [7, 9]);
    assert CarriesFrom(p, one, 0);
    assert CarriesFrom(p, two, 1);
    var open := Receive(t, syn);
    assert open.state.Established? && open.remoteSeq == 101;
    var late := Receive(open, one).(installed := true, cap := 10, got := []);
    assert late.remoteSeq == 102 && Filled(late, two.payload) == [9];
    assert [9][0] != [7, 9][0];
  }

  /** Every run of the handler on segments of one peer, however lost, repeated or reordered, keeps `Tracks`. */
  lemma {:induction false} RunTracks(p: Talker, base: nat, t: Conn, a: nat, acks: seq<nat>, ds: seq<Datagram>)
    returns (a': nat, acks': seq<nat>)
    requires Tracks(p, base, t, a, acks) && AllFromPeer(p, t, ds)
    ensures a <= a' && Tracks(p, base, Run(t, ds), a', acks')
    ensures acks <= acks'
    decreases |ds|
  {
    a', acks' := a, acks;
    if ds != [] {
      var r := Handle(t, ds[0]);
      if r != t {
        a', acks' := ReceiveTracks(p, base, t, a, acks, Parse(ds[0].bytes).value);
      }
      assert AllFromPeer(p, r, ds[1..]) by {
        forall i | 0 <= i < |ds| - 1 ensures FromPeer(p, r, ds[1..][i]) { assert FromPeer(p, t, ds[i + 1]); }
      }
      a', acks' := RunTracks(p, base, r, a', acks', ds[1..]);
    }
  }

  // ---- Delivery ----

  /** Exactly the piece that starts at the first missing byte makes progress; everything else the peer sends is
      dropped, including a piece that overlaps it. */
  lemma AcceptedIff(p: Talker, base: nat, t: Conn, a: nat, acks: seq<nat>, g: Segment, off: nat)
    requires Tracks(p, base, t, a, acks) && t.state.Established?
    requires !g.Rst() && CarriesFrom(p, g, off) && (g.payload != [] || g.Fin())
    ensures Receive(t, g) != t <==> off == a
  {
    InSequence(p, g, a, off);
    if off == a {
      assert |Receive(t, g).sent| == |t.sent| + 1;
    }
  }

  /** A fixed segmentation: piece `j` is the stream between `cuts[j]` and `cuts[j + 1]`, the last one with the end
      mark. Only the last one may be empty: a bare end mark. */
  ghost predicate Segmentation(p: Talker, cuts: seq<nat>) {
    && |cuts| >= 2 && cuts[0] == 0 && cuts[|cuts| - 2] <= cuts[|cuts| - 1] == |p.stream|
    && forall i, j :: 0 <= i < j < |cuts| - 1 ==> cuts[i] < cuts[j]
  }

  ghost predicate IsPiece(p: Talker, cuts: seq<nat>, g: Segment, j: nat)
    requires Segmentation(p, cuts)
  {
    && j < |cuts| - 1 && !g.Rst() && CarriesFrom(p, g, cuts[j]) && |g.payload| == cuts[j + 1] - cuts[j]
    && (g.Fin() <==> j == |cuts| - 2)
  }

  /** Piece `idx[k]` arrives at step `k`. */
  ghost predicate Arrivals(p: Talker, cuts: seq<nat>, gs: seq<Segment>, idx: seq<nat>)
    requires Segmentation(p, cuts)
  {
    |gs| == |idx| && forall k :: 0 <= k < |gs| ==> IsPiece(p, cuts, gs[k], idx[k])
  }

  /** Feeding segments to an open connection. */
  function Feed(t: Conn, gs: seq<Segment>): (r: Conn)
    decreases |gs|
  {
    if gs == [] || t.state.Done? then t else Feed(Receive(t, gs[0]), gs[1..])
  }

  /** How far a reader gets who waits for piece `i`, then `i + 1`, and so on. */
  function Scan(idx: seq<nat>, i: nat): (r: nat)
    ensures r >= i
    decreases |idx|
  {
    if idx == [] then i else Scan(idx[1..], if idx[0] == i then i + 1 else i)
  }

  /** The receiver has taken the pieces below `i`, and it is finished, by the end mark, when that is all of them. */
  ghost predicate HasTaken(p: Talker, base: nat, cuts: seq<nat>, t: Conn, i: nat, acks: seq<nat>) {
    && i < |cuts| && Tracks(p, base, t, cuts[i], acks)
    && (if i == |cuts| - 1 then t.state.Done? && t.fin else t.state.Established?)
  }

  lemma TakesPiece(p: Talker, base: nat, cuts: seq<nat>, t: Conn, i: nat, acks: seq<nat>, g: Segment, j: nat)
    returns (acks': seq<nat>)
    requires Segmentation(p, cuts) && HasTaken(p, base, cuts, t, i, acks) && i < |cuts| - 1 && IsPiece(p, cuts, g, j)
    ensures HasTaken(p, base, cuts, Receive(t, g), if j == i then i + 1 else i, acks')
  {
    if j == i {
      AcceptTracks(p, base, t, cuts[i], acks, g);
      PositionSeq(p, t, g, cuts[i]);
      acks' := acks + [if g.Fin() then cuts[i + 1] + 1 else cuts[i + 1]];
    } else {
      assert cuts[j] != cuts[i];
      AcceptedIff(p, base, t, cuts[i], acks, g, cuts[j]);
      acks' := acks;
    }
  }

  lemma ArrivalsRest(p: Talker, cuts: seq<nat>, gs: seq<Segment>, idx: seq<nat>)
    requires Segmentation(p, cuts) && Arrivals(p, cuts, gs, idx) && gs != []
    ensures IsPiece(p, cuts, gs[0], idx[0]) && Arrivals(p, cuts, gs[1..], idx[1..])
  {
    forall k | 0 <= k < |gs| - 1 ensures IsPiece(p, cuts, gs[1..][k], idx[1..][k]) {
      assert IsPiece(p, cuts, gs[k + 1], idx[k + 1]);
    }
  }

  /** The receiver is exactly that reader: whatever the order and repetition of the arrivals, it has taken the pieces
      below `Scan`. */
  lemma {:induction false} FeedIsScan(p: Talker, base: nat, cuts: seq<nat>, t: Conn, i: nat, acks: seq<nat>,
                                      gs: seq<Segment>, idx: seq<nat>) returns (acks': seq<nat>)
    requires Segmentation(p, cuts) && Arrivals(p, cuts, gs, idx) && HasTaken(p, base, cuts, t, i, acks)
    ensures HasTaken(p, base, cuts, Feed(t, gs), Min(Scan(idx, i), |cuts| - 1), acks')
    decreases |gs|
  {
    acks' := acks;
    if gs != [] && i < |cuts| - 1 {
      ArrivalsRest(p, cuts, gs, idx);
      acks' := TakesPiece(p, base, cuts, t, i, acks, gs[0], idx[0]);
      acks' := FeedIsScan(p, base, cuts, Receive(t, gs[0]), if idx[0] == i then i + 1 else i, acks', gs[1..], idx[1..]);
    }
  }

  lemma PositionSeq(p: Talker, t: Conn, g: Segment, a: nat)
    requires t.state.Established? && t.remoteSeq == Plus(p.isn, 1 + a) && !g.Rst() && CarriesFrom(p, g, a)
    requires g.payload != [] || g.Fin()
    ensures if g.Fin() then Receive(t, g).state.Done? && Receive(t, g).fin else Receive(t, g).state.Established?
  {
  }

  /** The pieces from `i` on up to `m` occur in `idx` in this order. */
  ghost predicate InOrder(idx: seq<nat>, i: nat, m: nat)
    decreases |idx|
  {
    i >= m || exists k :: 0 <= k < |idx| && idx[k] == i && InOrder(idx[k + 1..], i + 1, m)
  }

  lemma {:induction false} InOrderLonger(idx: seq<nat>, n: nat, i: nat, m: nat)
    requires n <= |idx| && InOrder(idx[n..], i, m)
    ensures InOrder(idx, i, m)
  {
    if i < m {
      var k :| 0 <= k < |idx[n..]| && idx[n..][k] == i && InOrder(idx[n..][k + 1..], i + 1, m);
      assert idx[n..][k + 1..] == idx[n + k + 1..];
      assert idx[n + k] == i;
    }
  }

  /** If every piece arrives at least once in order, among any other arrivals, the reader gets them all. */
  lemma {:induction false} ScanComplete(idx: seq<nat>, i: nat, m: nat)
    requires InOrder(idx, i, m)
    ensures Scan(idx, i) >= m
    decreases |idx|
  {
    if i < m {
      var k :| 0 <= k < |idx| && idx[k] == i && InOrder(idx[k + 1..], i + 1, m);
      if idx[0] == i {
        assert idx[k + 1..] == idx[1..][k..];
        InOrderLonger(idx[1..], k, i + 1, m);
        ScanComplete(idx[1..], i + 1, m);
      } else {
        assert idx[1..][k - 1] == i && idx[1..][k..] == idx[k + 1..];
        assert InOrder(idx[1..], i, m) by { assert idx[1..][(k - 1) + 1..] == idx[k + 1..]; }
        ScanComplete(idx[1..], i, m);
      }
    }
  }

  /** The segments among the datagrams that belong to the connection. */
  function Ours(t: Conn, ds: seq<Datagram>): (gs: seq<Segment>)
    decreases |ds|
  {
    if ds == [] then []
    else
      var g := Parse(ds[0].bytes);
      if g.Some? && ForUs(t, ds[0].src, g.value) then [g.value] + Ours(t, ds[1..]) else Ours(t, ds[1..])
  }

  /** On an open connection the handler does to datagrams what `Feed` does to those segments. */
  lemma {:induction false} RunIsFeed(t: Conn, u: Conn, ds: seq<Datagram>)
    requires SameEnds(t, u) && (u.state.Established? || u.state.Done?)
    ensures Run(u, ds) == Feed(u, Ours(t, ds))
    decreases |ds|
  {
    if ds != [] {
      if u.state.Done? {
        FinishedIsFinal(u, ds);
      } else {
        var g := Parse(ds[0].bytes);
        var gs := Ours(t, ds);
        assert g.Some? && ForUs(t, ds[0].src, g.value) ==> gs[0] == g.value && gs[1..] == Ours(t, ds[1..]);
        RunIsFeed(t, Handle(u, ds[0]), ds[1..]);
      }
    }
  }

  /** Hence delivery: whatever else arrives at the handler, with a buffer big enough the whole stream arrives, an
      empty one too, and the connection is finished. */
  lemma DeliveredWhole(p: Talker, cuts: seq<nat>, t: Conn, acks: seq<nat>, ds: seq<Datagram>, idx: seq<nat>)
    requires Segmentation(p, cuts) && Arrivals(p, cuts, Ours(t, ds), idx) && InOrder(idx, 0, |cuts| - 1)
    requires Tracks(p, 0, t, 0, acks) && t.state.Established? && t.installed && t.cap >= |p.stream|
    ensures Run(t, ds).got == p.stream && Run(t, ds).state.Done? && Run(t, ds).fin
  {
    RunIsFeed(t, t, ds);
    ScanComplete(idx, 0, |cuts| - 1);
    var acks' := FeedIsScan(p, 0, cuts, t, 0, acks, Ours(t, ds), idx);
    FeedKeepsBuffer(t, Ours(t, ds));
    assert p.stream[0..|p.stream|] == p.stream;
  }

  lemma {:induction false} FeedKeepsBuffer(t: Conn, gs: seq<Segment>)
    ensures Feed(t, gs).installed == t.installed && Feed(t, gs).cap == t.cap
    decreases |gs|
  {
    if gs != [] && !t.state.Done? { FeedKeepsBuffer(Receive(t, gs[0]), gs[1..]); }
  }
}
