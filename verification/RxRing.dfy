/** The e1000 receive ring as a two-party step system: the network card fills descriptors, the driver's poll loop
    empties them. `kernel/net.c`, lines 1689-1723 and 1931-1967. */
module RxRing {

  const COUNT: nat := 16
  const BUF_SIZE: nat := 2048

  /** A received frame; only its length matters to the driver. */
  datatype Frame = Frame(id: nat, len: nat)

  datatype Desc = Desc(done: bool, frame: Frame)

  const EMPTY := Desc(false, Frame(0, 0))

  /** Where the driver is within one pass of the poll loop: a frame handed up, its descriptor cleared, the tail
      register written. */
  datatype Phase = Idle | Handed | Cleared | Tailed

  /** Descriptors and registers, plus the history: every frame the card stored, whether the wired route was active
      when the driver took each of them, and the frames handed up. */
  datatype Ring = Ring(desc: seq<Desc>, head: nat, tail: nat, cur: nat, phase: Phase, wired: bool,
                       arrived: seq<Frame>, taken: seq<bool>, handled: seq<Frame>)

  /** `e1000_init_rings`. */
  function Init(wired: bool): (r: Ring) {
    Ring(seq(COUNT, i => EMPTY), 0, COUNT - 1, 0, Idle, wired, [], [], [])
  }

  datatype Action = Deliver(f: Frame) | Driver | Route(wired: bool)

  predicate Acceptable(f: Frame) {
    0 < f.len <= BUF_SIZE
  }

  /** The card stores a frame only while its head has not reached the tail. */
  predicate CanDeliver(r: Ring) {
    r.head != r.tail
  }

  function StepDeliver(r: Ring, f: Frame): Ring
    requires |r.desc| == COUNT && r.head < COUNT
  {
    if !CanDeliver(r) then r
    else r.(desc := r.desc[r.head := Desc(true, f)], head := (r.head + 1) % COUNT, arrived := r.arrived + [f])
  }

  /** One statement group of the poll loop; nothing happens while the current descriptor is not done. */
  function StepDriver(r: Ring): Ring
    requires |r.desc| == COUNT && r.cur < COUNT
  {
    match r.phase
    case Idle =>
      if !r.desc[r.cur].done then r
      else
        var f := r.desc[r.cur].frame;
        r.(phase := Handed, taken := r.taken + [r.wired],
           handled := if r.wired && Acceptable(f) then r.handled + [f] else r.handled)
    case Handed => r.(phase := Cleared, desc := r.desc[r.cur := EMPTY])
    case Cleared => r.(phase := Tailed, tail := r.cur)
    case Tailed => r.(phase := Idle, cur := (r.cur + 1) % COUNT)
  }

  function Step(r: Ring, a: Action): Ring
    requires Sized(r)
  {
    match a
    case Deliver(f) => StepDeliver(r, f)
    case Driver => StepDriver(r)
    case Route(w) => r.(wired := w)
  }

  predicate Sized(r: Ring) {
    |r.desc| == COUNT && r.head < COUNT && r.tail < COUNT && r.cur < COUNT
  }

  // ---- The invariant ----

  /** Frames whose descriptors have been given back to the card. */
  function Returned(r: Ring): int {
    if r.phase.Idle? then |r.taken| else if r.phase.Tailed? then |r.taken| else |r.taken| - 1
  }

  /** Frames whose descriptors have been cleared. */
  function Cleaned(r: Ring): int {
    if r.phase.Handed? then |r.taken| - 1 else |r.taken|
  }

  /** The first frame number from `c` on that belongs in descriptor `i`. */
  function NextFor(c: int, i: int): (k: int)
    ensures c <= k < c + COUNT
    ensures 0 <= i < COUNT ==> k % COUNT == i
  {
    c + (i - c) % COUNT
  }

  lemma NextForIs(c: int, i: int, k: int)
    requires c <= k < c + COUNT && k % COUNT == i
    ensures NextFor(c, i) == k
  {
  }

  /** Descriptor `i` is done exactly when a frame that is not cleared yet belongs there, and then holds that frame. */
  ghost predicate Holds(r: Ring, i: nat)
    requires Sized(r) && i < COUNT && Cleaned(r) >= 0
  {
    var k := NextFor(Cleaned(r), i);
    if k < |r.arrived| then r.desc[i] == Desc(true, r.arrived[k]) else !r.desc[i].done
  }

  /** The frames handed up: those taken on the wired route, if their length is sound, in order of arrival. */
  function Wanted(arrived: seq<Frame>, taken: seq<bool>): (w: seq<Frame>)
    requires |taken| <= |arrived|
  {
    if taken == [] then []
    else
      var n := |taken| - 1;
      var rest := Wanted(arrived, taken[..n]);
      if taken[n] && 0 < arrived[n].len <= 2048 then rest + [arrived[n]] else rest
  }

  /** Registers and cursor are the frame counts modulo the ring size, and the ring never holds more than 15 frames. */
  ghost predicate Registers(r: Ring) {
    && Sized(r)
    && |r.taken| <= |r.arrived| && (r.phase.Idle? || |r.taken| > 0)
    && r.head == |r.arrived| % COUNT
    && r.cur == (if r.phase.Idle? then |r.taken| else |r.taken| - 1) % COUNT
    && r.tail == (Returned(r) + COUNT - 1) % COUNT
    && |r.arrived| - Returned(r) <= COUNT - 1
  }

  ghost predicate Contents(r: Ring)
    requires Sized(r) && Cleaned(r) >= 0
  {
    forall i :: 0 <= i < COUNT ==> Holds(r, i)
  }

  ghost predicate Inv(r: Ring) {
    Registers(r) && Contents(r) && r.handled == Wanted(r.arrived, r.taken)
  }

  lemma InitInv(wired: bool)
    ensures Inv(Init(wired))
  {
  }

  lemma {:induction false} WantedLonger(arrived: seq<Frame>, f: Frame, taken: seq<bool>)
    requires |taken| <= |arrived|
    ensures Wanted(arrived + [f], taken) == Wanted(arrived, taken)
  {
    if taken != [] { WantedLonger(arrived, f, taken[..|taken| - 1]); }
  }

  lemma NextMod(n: nat)
    ensures (n % COUNT + 1) % COUNT == (n + 1) % COUNT
  {
  }

  lemma DeliverInv(r: Ring, f: Frame)
    requires Inv(r)
    ensures Inv(StepDeliver(r, f))
  {
    if CanDeliver(r) {
      DeliverRegisters(r, f);
      WantedLonger(r.arrived, f, r.taken);
      forall i | 0 <= i < COUNT ensures Holds(StepDeliver(r, f), i) { DeliverHolds(r, f, i); }
    }
  }

  lemma DeliverRegisters(r: Ring, f: Frame)
    requires Registers(r) && CanDeliver(r)
    ensures Registers(StepDeliver(r, f))
  {
    NextMod(|r.arrived|);
  }

  lemma DeliverHolds(r: Ring, f: Frame, i: nat)
    requires Registers(r) && i < COUNT && Holds(r, i) && CanDeliver(r)
    ensures Holds(StepDeliver(r, f), i)
  {
    var c, n := Cleaned(r), |r.arrived|;
    assert n - c < COUNT;
    if i == r.head { NextForIs(c, i, n); }
  }

  lemma DriverInv(r: Ring)
    requires Inv(r)
    ensures Inv(StepDriver(r))
  {
    var s := StepDriver(r);
    DriverRegisters(r);
    if r.phase.Idle? && s != r {
      TakeNext(r);
      assert s.taken[..|r.taken|] == r.taken;
    }
    forall i | 0 <= i < COUNT ensures Holds(s, i) {
      assert Holds(r, i);
      if r.phase.Handed? { ClearHolds(r, i); }
    }
  }

  lemma DriverRegisters(r: Ring)
    requires Inv(r)
    ensures Registers(StepDriver(r))
  {
    if r.phase.Idle? {
      if r.desc[r.cur].done { TakeNext(r); }
    } else if r.phase.Cleared? {
      BackOne(|r.taken|);
    } else if r.phase.Tailed? {
      NextMod(|r.taken| - 1);
    }
  }

  lemma BackOne(n: nat)
    ensures (n + COUNT - 1) % COUNT == (n - 1) % COUNT
  {
  }

  /** The current descriptor, when done, holds the oldest frame not yet taken. */
  lemma TakeNext(r: Ring)
    requires Inv(r) && r.phase.Idle? && r.desc[r.cur].done
    ensures |r.taken| < |r.arrived| && r.desc[r.cur].frame == r.arrived[|r.taken|]
  {
    assert Holds(r, r.cur);
    NextForIs(|r.taken|, r.cur, |r.taken|);
  }

  lemma ClearHolds(r: Ring, i: nat)
    requires Registers(r) && r.phase.Handed? && i < COUNT && Holds(r, i)
    ensures Holds(StepDriver(r), i)
  {
    var c := Cleaned(r);
    if i == r.cur {
      NextForIs(c + 1, i, c + COUNT);
    } else {
      NextForIs(c + 1, i, NextFor(c, i));
    }
  }

  /** Every interleaving of card and driver keeps the invariant. */
  function Run(r: Ring, acts: seq<Action>): (s: Ring)
    requires Inv(r)
    ensures Inv(s)
    decreases |acts|
  {
    if acts == [] then r
    else
      StepInv(r, acts[0]);
      Run(Step(r, acts[0]), acts[1..])
  }

  lemma StepInv(r: Ring, a: Action)
    requires Inv(r)
    ensures Inv(Step(r, a))
  {
    match a
    case Deliver(f) => DeliverInv(r, f);
    case Driver => DriverInv(r);
    case Route(w) =>
      forall i | 0 <= i < COUNT ensures Holds(r.(wired := w), i) { assert Holds(r, i); }
  }

  // ---- What the invariant gives ----

  /** Between passes the tail is the descriptor behind the driver's, and the done descriptors are exactly those from
      the driver's position up to the card's. */
  lemma RingShape(r: Ring)
    requires Inv(r) && r.phase.Idle?
    ensures r.tail == (r.cur + 15) % 16
    ensures forall i :: 0 <= i < 16 ==> (r.desc[i].done <==> (i - r.cur) % 16 < (r.head - r.cur) % 16)
    ensures (r.head - r.cur) % 16 == |r.arrived| - |r.taken|
  {
    var c, n := |r.taken|, |r.arrived|;
    Distance(c, n);
    TailBehind(c);
    forall i | 0 <= i < COUNT ensures r.desc[i].done <==> (i - r.cur) % COUNT < (r.head - r.cur) % COUNT {
      DoneAt(r, i);
    }
  }

  lemma DoneAt(r: Ring, i: nat)
    requires Registers(r) && r.phase.Idle? && Contents(r) && i < COUNT
    ensures r.desc[i].done <==> (i - r.cur) % COUNT < |r.arrived| - |r.taken|
  {
    assert Holds(r, i);
    SameDistance(|r.taken|, i);
  }

  lemma TailBehind(c: nat)
    ensures (c + COUNT - 1) % COUNT == (c % COUNT + COUNT - 1) % COUNT
  {
  }

  lemma Distance(c: nat, n: nat)
    requires c <= n < c + COUNT
    ensures (n % COUNT - c % COUNT) % COUNT == n - c
  {
    var q, p := n / COUNT, c / COUNT;
    assert n % COUNT - c % COUNT == n - c - COUNT * (q - p);
    assert q == p || q == p + 1;
  }

  lemma SameDistance(c: nat, i: nat)
    ensures NextFor(c, i) == c + (i - c % COUNT) % COUNT
  {
    var q := c / COUNT;
    ModMultiple(i - c, q);
    assert i - c + COUNT * q == i - c % COUNT;
  }

  lemma {:induction false} ModMultiple(x: int, q: nat)
    ensures (x + COUNT * q) % COUNT == x % COUNT
  {
    if q > 0 {
      ModMultiple(x, q - 1);
      assert x + COUNT * q == (x + COUNT * (q - 1)) + COUNT;
    }
  }

  /** The card can store a frame exactly when fewer than 15 are waiting, so always after a full drain. */
  lemma RoomIff(r: Ring)
    requires Inv(r)
    ensures CanDeliver(r) <==> |r.arrived| - Returned(r) < 15
    ensures |r.taken| == |r.arrived| ==> CanDeliver(r)
  {
  }

  /** One whole pass of the poll loop. */
  function Pass(r: Ring): (s: Ring)
    requires Inv(r) && r.phase.Idle?
    ensures Inv(s) && s.phase.Idle? && s.arrived == r.arrived && s.wired == r.wired
    ensures |r.taken| < |r.arrived| ==> s.taken == r.taken + [r.wired]
    ensures |r.taken| == |r.arrived| ==> s == r
  {
    assert Holds(r, r.cur) && NextFor(Cleaned(r), r.cur) == |r.taken|;
    DriverInv(r);
    if StepDriver(r) == r then r
    else
      var a := StepDriver(r);
      DriverInv(a);
      var b := StepDriver(a);
      DriverInv(b);
      var c := StepDriver(b);
      DriverInv(c);
      StepDriver(c)
  }

  /** The net effect of a pass that finds a frame. */
  lemma PassIs(r: Ring)
    requires Inv(r) && r.phase.Idle? && r.desc[r.cur].done
    ensures var f := r.desc[r.cur].frame;
            Pass(r) == Ring(r.desc[r.cur := EMPTY], r.head, r.cur, (r.cur + 1) % COUNT, Idle, r.wired, r.arrived,
                            r.taken + [r.wired], if r.wired && Acceptable(f) then r.handled + [f] else r.handled)
  {
    assert StepDriver(r).taken != r.taken;
  }

  function Passes(r: Ring, n: nat): (s: Ring)
    requires Inv(r) && r.phase.Idle?
    ensures Inv(s) && s.phase.Idle? && s.arrived == r.arrived && s.wired == r.wired
    ensures |s.taken| == if |r.taken| + n <= |r.arrived| then |r.taken| + n else |r.arrived|
    decreases n
  {
    if n == 0 then r else Passes(Pass(r), n - 1)
  }

  /** A poll with nothing arriving meanwhile empties the ring: every frame stored so far has been handed up once, in
      order, and the card has room again. */
  lemma PollDrains(r: Ring)
    requires Inv(r) && r.phase.Idle?
    ensures var s := Passes(r, 16);
            && |s.taken| == |s.arrived| && CanDeliver(s)
            && s.handled == Wanted(r.arrived, s.taken)
            && forall i :: 0 <= i < 16 ==> !s.desc[i].done
  {
    var s := Passes(r, COUNT);
    RoomIff(s);
    RingShape(s);
  }

  /** While the wired route stays active, what is handed up is the sound frames in order of arrival. */
  lemma {:induction false} WiredGetsAll(arrived: seq<Frame>, taken: seq<bool>)
    requires |taken| <= |arrived| && forall i :: 0 <= i < |taken| ==> taken[i]
    ensures Wanted(arrived, taken) == Sound(arrived[..|taken|])
  {
    if taken != [] {
      var n := |taken| - 1;
      WiredGetsAll(arrived, taken[..n]);
      assert arrived[..n + 1][..n] == arrived[..n];
    }
  }

  function Sound(fs: seq<Frame>): seq<Frame> {
    if fs == [] then []
    else
      var n := |fs| - 1;
      if 0 < fs[n].len <= 2048 then Sound(fs[..n]) + [fs[n]] else Sound(fs[..n])
  }

  /** So from a freshly set up ring, whatever the card and the driver do in whatever order: never more than 15 frames
      are in the ring, a waiting frame is neither overwritten nor lost, and the frames taken are handed up once each
      and in order, all the sound ones if the wired route was active throughout. */
  lemma SafeFromStart(wired: bool, acts: seq<Action>)
    ensures Inv(Init(wired))
    ensures var r := Run(Init(wired), acts);
            && Inv(r) && |r.taken| <= |r.arrived| <= Returned(r) + 15
            && (forall k :: Cleaned(r) <= k < |r.arrived| ==> r.desc[k % 16] == Desc(true, r.arrived[k]))
            && ((forall i :: 0 <= i < |r.taken| ==> r.taken[i]) ==> r.handled == Sound(r.arrived[..|r.taken|]))
  {
    InitInv(wired);
    var r := Run(Init(wired), acts);
    forall k | Cleaned(r) <= k < |r.arrived| ensures r.desc[k % COUNT] == Desc(true, r.arrived[k]) {
      assert Holds(r, k % COUNT);
      NextForIs(Cleaned(r), k % COUNT, k);
    }
    if forall i :: 0 <= i < |r.taken| ==> r.taken[i] { WiredGetsAll(r.arrived, r.taken); }
  }

  // ---- Why the tail must be the descriptor just freed ----

  /** The ring is empty and the card believes it has no descriptor. */
  predicate Stuck(r: Ring) {
    Sized(r) && r.head == r.tail && r.phase.Idle? && !r.desc[r.cur].done
  }

  /** Such a ring never moves again, whatever the card and the driver do. */
  lemma {:induction false} StuckForever(r: Ring, acts: seq<Action>)
    requires Stuck(r)
    ensures Unmoved(r, acts)
    decreases |acts|
  {
    if acts != [] { StuckForever(Step(r, acts[0]), acts[1..]); }
  }

  /** No action of `acts` changes more than the route. */
  ghost predicate Unmoved(r: Ring, acts: seq<Action>)
    requires Sized(r)
    decreases |acts|
  {
    acts == [] || var s := Step(r, acts[0]);
                  s == r.(wired := s.wired) && Sized(s) && Unmoved(s, acts[1..])
  }

  /** Writing the cursor after advancing it, instead of the descriptor just freed, leaves the ring stuck after its
      very first frame. */
  lemma AdvancedTailSticks(f: Frame)
    ensures var s := StepDeliver(Init(true), f);
            var p := (s.cur + 1) % COUNT;
            Stuck(s.(desc := s.desc[s.cur := EMPTY], cur := p, tail := p))
  {
  }

  // ---- The driver's code ----

  /** The ring as the driver sees it: descriptors in memory shared with the card, registers, a cursor. */
  class Device {
    var desc: seq<Desc>
    var head: nat
    var tail: nat
    var cur: nat
    var wired: bool
    ghost var arrived: seq<Frame>
    ghost var taken: seq<bool>
    ghost var handled: seq<Frame>

    ghost function View(): Ring
      reads this
    {
      Ring(desc, head, tail, cur, Idle, wired, arrived, taken, handled)
    }

    constructor (wired: bool)
      ensures View() == Init(wired) && Inv(View())
    {
      desc, head, tail, cur := seq(COUNT, i => EMPTY), 0, COUNT - 1, 0;
      this.wired, arrived, taken, handled := wired, [], [], [];
      new;
      InitInv(wired);
      assert desc == seq(COUNT, i => EMPTY);
    }

    /** The loop of `net_poll`: at most one pass per descriptor, ending at the first one that is not done. */
    method Poll()
      requires Inv(View())
      modifies this
      ensures View() == Passes(old(View()), 16)
    {
      ghost var r := View();
      var budget := 0;
      while budget < COUNT
        invariant 0 <= budget <= COUNT && Reaches(View(), COUNT - budget, r)
      {
        if !desc[cur].done {
          PassesRest(View(), COUNT - budget);
          return;
        }
        ReachesNext(View(), COUNT - budget, r);
        OnePass();
        budget := budget + 1;
      }
    }

    method OnePass()
      requires Inv(View()) && desc[cur].done
      modifies this
      ensures View() == Pass(old(View()))
    {
      PassIs(View());
      var f := desc[cur].frame;
      taken := taken + [wired];
      if wired && 0 < f.len <= BUF_SIZE {
        handled := handled + [f];
      }
      desc := desc[cur := EMPTY];
      tail := cur;
      cur := (cur + 1) % COUNT;
    }
  }

  /** `n` more passes from `s` lead where a whole poll from `r` does. */
  ghost predicate Reaches(s: Ring, n: nat, r: Ring)
    requires Inv(r) && r.phase.Idle?
  {
    Inv(s) && s.phase.Idle? && Passes(s, n) == Passes(r, COUNT)
  }

  lemma ReachesNext(s: Ring, n: nat, r: Ring)
    requires Inv(r) && r.phase.Idle? && n > 0 && Reaches(s, n, r)
    ensures Reaches(Pass(s), n - 1, r)
  {
  }

  lemma {:induction false} PassesRest(r: Ring, n: nat)
    requires Inv(r) && r.phase.Idle? && !r.desc[r.cur].done
    ensures Passes(r, n) == r
    decreases n
  {
    if n > 0 { PassesRest(r, n - 1); }
  }
}
