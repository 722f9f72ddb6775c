/** The round-robin scheduler (`kernel/task.c`, lines 4-115), with the context switch itself abstracted to the change of
    the current task. */
module Task {
  import opened Bytes
  import opened Bitmap
  import opened Pmm

  const MAX_TASKS: nat := 64

  datatype State = Dead | Ready | Running

  datatype Slot = Slot(state: State, stack: nat)

  // ---- Whose turn it is ----

  predicate IsLive(ts: seq<Slot>, i: nat) {
    i < |ts| && ts[i].state != Dead
  }

  /** The number after `i`, going round. */
  function Succ(i: nat, count: nat): (n: nat)
    requires i < count
    ensures n < count
  {
    if i + 1 == count then 0 else i + 1
  }

  lemma SuccIsModulo(i: nat, count: nat)
    requires i < count
    ensures Succ(i, count) == (i + 1) % count
  {
  }

  /** The search loop: the first live task among the next `attempts` from `i` on, going round. */
  function Search(ts: seq<Slot>, i: nat, attempts: nat): (n: nat)
    requires i < |ts|
    ensures n < |ts|
    decreases attempts
  {
    if attempts == 0 || ts[i].state != Dead then i else Search(ts, Succ(i, |ts|), attempts - 1)
  }

  function NextLive(ts: seq<Slot>, c: nat): (n: nat)
    requires c < |ts|
    ensures n < |ts|
  {
    Search(ts, Succ(c, |ts|), |ts|)
  }

  /** Live tasks with numbers in `[lo, hi)`, in order. */
  function LiveIn(ts: seq<Slot>, lo: nat, hi: nat): (r: seq<nat>)
    requires hi <= |ts|
    decreases hi - lo
  {
    if lo >= hi then [] else if ts[lo].state != Dead then [lo] + LiveIn(ts, lo + 1, hi) else LiveIn(ts, lo + 1, hi)
  }

  /** All live tasks in the order in which they will run when `c` is current. */
  function Turns(ts: seq<Slot>, c: nat): seq<nat>
    requires c < |ts|
  {
    LiveIn(ts, c + 1, |ts|) + LiveIn(ts, 0, c + 1)
  }

  lemma {:induction false} LiveInIs(ts: seq<Slot>, lo: nat, hi: nat, i: nat)
    requires hi <= |ts|
    ensures i in LiveIn(ts, lo, hi) <==> lo <= i < hi && ts[i].state != Dead
    decreases hi - lo
  {
    if lo < hi { LiveInIs(ts, lo + 1, hi, i); }
  }

  lemma {:induction false} LiveInSplit(ts: seq<Slot>, lo: nat, mid: nat, hi: nat)
    requires lo <= mid <= hi <= |ts|
    ensures LiveIn(ts, lo, hi) == LiveIn(ts, lo, mid) + LiveIn(ts, mid, hi)
    decreases mid - lo
  {
    if lo < mid { LiveInSplit(ts, lo + 1, mid, hi); }
  }

  lemma {:induction false} LiveInOnce(ts: seq<Slot>, lo: nat, hi: nat)
    requires hi <= |ts|
    ensures forall a, b :: 0 <= a < b < |LiveIn(ts, lo, hi)| ==> LiveIn(ts, lo, hi)[a] != LiveIn(ts, lo, hi)[b]
    decreases hi - lo
  {
    if lo < hi {
      LiveInOnce(ts, lo + 1, hi);
      LiveInIs(ts, lo + 1, hi, lo);
    }
  }

  /** Every live task has exactly one turn. */
  lemma TurnsAreLive(ts: seq<Slot>, c: nat)
    requires c < |ts|
    ensures forall i :: i in Turns(ts, c) <==> IsLive(ts, i)
    ensures forall a, b :: 0 <= a < b < |Turns(ts, c)| ==> Turns(ts, c)[a] != Turns(ts, c)[b]
  {
    var x, y := LiveIn(ts, c + 1, |ts|), LiveIn(ts, 0, c + 1);
    forall i: nat
      ensures (i in x <==> c < i < |ts| && ts[i].state != Dead) && (i in y <==> i <= c && ts[i].state != Dead)
    {
      LiveInIs(ts, c + 1, |ts|, i);
      LiveInIs(ts, 0, c + 1, i);
    }
    LiveInOnce(ts, c + 1, |ts|);
    LiveInOnce(ts, 0, c + 1);
    forall a, b | 0 <= a < b < |x + y|
      ensures (x + y)[a] != (x + y)[b]
    {
      if a < |x| <= b {
        assert x[a] in x && y[b - |x|] in y;
      }
    }
  }

  /** Dead tasks in between are passed over. */
  lemma {:induction false} SearchPasses(ts: seq<Slot>, i: nat, j: nat, attempts: nat)
    requires i <= j < |ts| && j - i <= attempts && forall k :: i <= k < j ==> ts[k].state == Dead
    ensures Search(ts, i, attempts) == Search(ts, j, attempts - (j - i))
    decreases j - i
  {
    if i < j {
      SearchPasses(ts, i + 1, j, attempts - 1);
    }
  }

  lemma SearchWraps(ts: seq<Slot>, i: nat, attempts: nat)
    requires i < |ts| && |ts| - i <= attempts && forall k :: i <= k < |ts| ==> ts[k].state == Dead
    ensures Search(ts, i, attempts) == Search(ts, 0, attempts - (|ts| - i))
  {
    SearchPasses(ts, i, |ts| - 1, attempts);
  }

  lemma {:induction false} FirstIn(ts: seq<Slot>, lo: nat, hi: nat)
    requires hi <= |ts| && LiveIn(ts, lo, hi) != []
    ensures var n := LiveIn(ts, lo, hi)[0];
            lo <= n < hi && ts[n].state != Dead && (forall k :: lo <= k < n ==> ts[k].state == Dead)
            && LiveIn(ts, lo, hi) == [n] + LiveIn(ts, n + 1, hi)
    decreases hi - lo
  {
    if ts[lo].state == Dead { FirstIn(ts, lo + 1, hi); }
  }

  lemma {:induction false} NoneIn(ts: seq<Slot>, lo: nat, hi: nat, k: nat)
    requires hi <= |ts| && LiveIn(ts, lo, hi) == [] && lo <= k < hi
    ensures ts[k].state == Dead
    decreases hi - lo
  {
    if lo < k { NoneIn(ts, lo + 1, hi, k); }
  }

  lemma NoneAll(ts: seq<Slot>, lo: nat, hi: nat)
    requires hi <= |ts| && LiveIn(ts, lo, hi) == []
    ensures forall k :: lo <= k < hi ==> ts[k].state == Dead
  {
    forall k | lo <= k < hi
      ensures ts[k].state == Dead
    {
      NoneIn(ts, lo, hi, k);
    }
  }

  lemma NextAbove(ts: seq<Slot>, c: nat, n: nat)
    requires c < |ts| && LiveIn(ts, c + 1, |ts|) != [] && n == LiveIn(ts, c + 1, |ts|)[0]
    ensures NextLive(ts, c) == n && c < n < |ts| && ts[n].state != Dead
  {
    FirstIn(ts, c + 1, |ts|);
    SearchPasses(ts, c + 1, n, |ts|);
  }

  lemma TurnsAbove(ts: seq<Slot>, c: nat, n: nat)
    requires c < |ts| && LiveIn(ts, c + 1, |ts|) != [] && n == LiveIn(ts, c + 1, |ts|)[0]
    ensures n < |ts| && Turns(ts, n) == Turns(ts, c)[1..] + [n]
  {
    FirstIn(ts, c + 1, |ts|);
    LiveInSplit(ts, 0, c + 1, n + 1);
    OnlyLast(ts, c + 1, n);
    Rotate(LiveIn(ts, n + 1, |ts|), LiveIn(ts, 0, c + 1), n);
  }

  lemma Rotate(x: seq<nat>, y: seq<nat>, n: nat)
    ensures x + (y + [n]) == ([n] + x + y)[1..] + [n]
  {
  }

  lemma {:induction false} OnlyLast(ts: seq<Slot>, lo: nat, n: nat)
    requires lo <= n < |ts| && ts[n].state != Dead && forall k :: lo <= k < n ==> ts[k].state == Dead
    ensures LiveIn(ts, lo, n + 1) == [n]
    decreases n - lo
  {
    if lo < n { OnlyLast(ts, lo + 1, n); }
  }

  lemma NextBelow(ts: seq<Slot>, c: nat, n: nat)
    requires c < |ts| && n <= c && ts[n].state != Dead && (forall k :: 0 <= k < n ==> ts[k].state == Dead)
    requires forall k :: c < k < |ts| ==> ts[k].state == Dead
    ensures NextLive(ts, c) == n
  {
    if c + 1 < |ts| {
      SearchWraps(ts, c + 1, |ts|);
      SearchPasses(ts, 0, n, c + 1);
    } else {
      SearchPasses(ts, 0, n, |ts|);
    }
  }

  lemma TurnsBelow(ts: seq<Slot>, c: nat, n: nat, x: seq<nat>)
    requires n <= c < |ts| && ts[n].state != Dead && (forall k :: 0 <= k < n ==> ts[k].state == Dead)
    requires LiveIn(ts, c + 1, |ts|) == [] && LiveIn(ts, n + 1, c + 1) == x
    ensures LiveIn(ts, n + 1, |ts|) == x && LiveIn(ts, 0, n + 1) == [n]
  {
    LiveInSplit(ts, n + 1, c + 1, |ts|);
    OnlyLast(ts, 0, n);
  }

  /** A switch goes to the first in turn, who then is last in turn. */
  lemma NextTurn(ts: seq<Slot>, c: nat)
    requires IsLive(ts, c)
    ensures Turns(ts, c) != [] && NextLive(ts, c) == Turns(ts, c)[0]
    ensures Turns(ts, NextLive(ts, c)) == Turns(ts, c)[1..] + [Turns(ts, c)[0]]
  {
    LiveInIs(ts, 0, c + 1, c);
    if LiveIn(ts, c + 1, |ts|) != [] {
      NextAbove(ts, c, LiveIn(ts, c + 1, |ts|)[0]);
      TurnsAbove(ts, c, LiveIn(ts, c + 1, |ts|)[0]);
    } else {
      var n := LiveIn(ts, 0, c + 1)[0];
      FirstIn(ts, 0, c + 1);
      NoneAll(ts, c + 1, |ts|);
      NextBelow(ts, c, n);
      TurnsBelow(ts, c, n, LiveIn(ts, n + 1, c + 1));
    }
  }

  // ---- Switching ----

  /** `task_switch` on the table: the current task becomes ready, the next one running. */
  function Switched(ts: seq<Slot>, c: nat): (r: seq<Slot>)
    requires c < |ts|
    ensures |r| == |ts|
  {
    var n := NextLive(ts, c);
    var u := ts[c := ts[c].(state := Ready)];
    u[n := u[n].(state := Running)]
  }

  /** Exactly the current task runs. */
  ghost predicate OneRunning(ts: seq<Slot>, c: nat) {
    c < |ts| && forall i :: 0 <= i < |ts| ==> (ts[i].state == Running <==> i == c)
  }

  lemma SwitchedLive(ts: seq<Slot>, c: nat)
    requires OneRunning(ts, c)
    ensures OneRunning(Switched(ts, c), NextLive(ts, c))
    ensures forall i :: IsLive(Switched(ts, c), i) <==> IsLive(ts, i)
  {
    NextTurn(ts, c);
    TurnsAreLive(ts, c);
    assert Turns(ts, c)[0] in Turns(ts, c);
  }

  lemma {:induction false} SameLive(ts: seq<Slot>, us: seq<Slot>, lo: nat, hi: nat)
    requires |ts| == |us| && hi <= |ts| && forall i :: IsLive(us, i) <==> IsLive(ts, i)
    ensures LiveIn(us, lo, hi) == LiveIn(ts, lo, hi)
    decreases hi - lo
  {
    if lo < hi {
      assert IsLive(us, lo) <==> IsLive(ts, lo);
      SameLive(ts, us, lo + 1, hi);
    }
  }

  /** The tasks run by `k` switches in a row. */
  function Visits(ts: seq<Slot>, c: nat, k: nat): (v: seq<nat>)
    requires c < |ts|
    decreases k
  {
    if k == 0 then [] else [NextLive(ts, c)] + Visits(Switched(ts, c), NextLive(ts, c), k - 1)
  }

  lemma {:induction false} VisitsTurns(ts: seq<Slot>, c: nat, k: nat)
    requires OneRunning(ts, c) && k <= |Turns(ts, c)|
    ensures Visits(ts, c, k) == Turns(ts, c)[..k]
    decreases k
  {
    if k > 0 {
      var n, us := NextLive(ts, c), Switched(ts, c);
      NextTurn(ts, c);
      SwitchedLive(ts, c);
      SameTurns(ts, us, n);
      VisitsTurns(us, n, k - 1);
      assert (Turns(ts, c)[1..] + [n])[..k - 1] == Turns(ts, c)[1..k];
    }
  }

  lemma SameTurns(ts: seq<Slot>, us: seq<Slot>, n: nat)
    requires |ts| == |us| && n < |ts| && forall i :: IsLive(us, i) <==> IsLive(ts, i)
    ensures Turns(us, n) == Turns(ts, n)
  {
    SameLive(ts, us, n + 1, |ts|);
    SameLive(ts, us, 0, n + 1);
  }

  /** With `k` live tasks, any `k` switches in a row run each of them exactly once. */
  lemma RoundRobin(ts: seq<Slot>, c: nat)
    requires OneRunning(ts, c)
    ensures var v := Visits(ts, c, |Turns(ts, c)|);
            && (forall i :: i in v <==> IsLive(ts, i))
            && (forall a, b :: 0 <= a < b < |v| ==> v[a] != v[b])
  {
    VisitsTurns(ts, c, |Turns(ts, c)|);
    TurnsAreLive(ts, c);
  }

  // ---- Creating and killing ----

  /** A created task that lives has a stack page of its own: a marked page no other task has. */
  ghost predicate Owned(ts: seq<Slot>, bits: seq<Word>, max: nat) {
    && (forall i :: 0 <= i < |ts| ==> HasStack(ts, bits, max, i))
    && (forall i, j :: 1 <= i < j < |ts| && ts[i].state != Dead && ts[j].state != Dead ==> ts[i].stack != ts[j].stack)
  }

  predicate HasStack(ts: seq<Slot>, bits: seq<Word>, max: nat, i: nat)
    requires i < |ts|
  {
    if i == 0 || ts[i].state == Dead then ts[i].stack == 0
    else ts[i].stack > 0 && ts[i].stack % 4096 == 0 && ts[i].stack / 4096 < max && Taken(bits, ts[i].stack / 4096)
  }

  /** The slot for a new task: the first dead one above slot 0, or one past the end. */
  function FreeSlot(ts: seq<Slot>, i: nat): (s: nat)
    requires 1 <= i <= |ts|
    ensures i <= s <= |ts| && (s < |ts| ==> ts[s].state == Dead)
    decreases |ts| - i
  {
    if i == |ts| || ts[i].state == Dead then i else FreeSlot(ts, i + 1)
  }

  /** No dead slot above slot 0 lies before it. */
  lemma {:induction false} FreeSlotIs(ts: seq<Slot>, i: nat)
    requires 1 <= i <= |ts|
    ensures forall k :: i <= k < FreeSlot(ts, i) ==> ts[k].state != Dead
    decreases |ts| - i
  {
    if i < |ts| && ts[i].state != Dead { FreeSlotIs(ts, i + 1); }
  }

  function Grown(ts: seq<Slot>, s: nat): (r: seq<Slot>)
    requires s <= |ts|
    ensures s < |r|
  {
    if s < |ts| then ts else ts + [Slot(Dead, 0)]
  }

  lemma GrownOk(ts: seq<Slot>, bits: seq<Word>, max: nat, c: nat, s: nat)
    requires OneRunning(ts, c) && Owned(ts, bits, max) && s <= |ts|
    ensures OneRunning(Grown(ts, s), c) && Owned(Grown(ts, s), bits, max)
  {
    forall i | 0 <= i < |Grown(ts, s)|
      ensures HasStack(Grown(ts, s), bits, max, i)
    {
      if i < |ts| { assert HasStack(ts, bits, max, i); }
    }
  }

  /** Handing a page that was free to a dead slot. */
  lemma CreatedOk(ts: seq<Slot>, bits: seq<Word>, max: nat, c: nat, s: nat, b: nat)
    requires OneRunning(ts, c) && Owned(ts, bits, max) && 1 <= s < |ts| && ts[s].state == Dead
    requires 0 < b < max && b / 32 < |bits| && !Taken(bits, b)
    ensures var us := ts[s := Slot(Ready, b * 4096)]; OneRunning(us, c) && Owned(us, Take(bits, b), max)
  {
    var us := ts[s := Slot(Ready, b * 4096)];
    forall i | 0 <= i < |us|
      ensures HasStack(us, Take(bits, b), max, i)
      ensures (i != s && i > 0 && us[i].state != Dead ==> us[i].stack != b * 4096)
    {
      assert HasStack(ts, bits, max, i);
      TakeIs(bits, b, us[i].stack / 4096);
    }
  }

  /** The bitmap after a stack page has gone back, if there is one. */
  function Returned(bits: seq<Word>, stack: nat): (r: seq<Word>) {
    if stack != 0 && stack / 4096 / 32 < |bits| then Give(bits, stack / 4096) else bits
  }

  function Killed(ts: seq<Slot>, c: nat): (r: seq<Slot>)
    requires c < |ts|
    ensures |r| == |ts|
  {
    var n := NextLive(ts, c);
    var u := ts[c := Slot(Dead, 0)];
    u[n := u[n].(state := Running)]
  }

  /** If another task lives, the next one is another. */
  lemma NextIsOther(ts: seq<Slot>, c: nat, other: nat)
    requires IsLive(ts, c) && IsLive(ts, other) && other != c
    ensures NextLive(ts, c) != c && IsLive(ts, NextLive(ts, c))
  {
    NextTurn(ts, c);
    TurnsAreLive(ts, c);
    assert Turns(ts, c)[0] in Turns(ts, c);
    assert other in Turns(ts, c);
    LiveInSplit(ts, 0, c, c + 1);
    OnlyLast(ts, c, c);
    assert Turns(ts, c)[|Turns(ts, c)| - 1] == c;
  }

  /** Some other task lives. */
  ghost predicate Accompanied(ts: seq<Slot>, c: nat) {
    exists i :: IsLive(ts, i) && i != c
  }

  /** The search always ends at a live task, at the current one if there is no other. */
  lemma NextIsLive(ts: seq<Slot>, c: nat)
    requires IsLive(ts, c)
    ensures IsLive(ts, NextLive(ts, c)) && (NextLive(ts, c) == c <==> !Accompanied(ts, c))
  {
    NextTurn(ts, c);
    TurnsAreLive(ts, c);
    assert Turns(ts, c)[0] in Turns(ts, c);
    if Accompanied(ts, c) {
      var other :| IsLive(ts, other) && other != c;
      NextIsOther(ts, c, other);
    }
  }

  /** What a kill leaves is in order exactly if somebody else lived or the task had no page. */
  lemma KilledOutcome(ts: seq<Slot>, bits: seq<Word>, max: nat, c: nat, bits': seq<Word>)
    requires OneRunning(ts, c) && Owned(ts, bits, max) && |bits| == (max + 31) / 32
    requires bits' == Returned(bits, ts[c].stack)
    ensures OneRunning(Killed(ts, c), NextLive(ts, c)) && Owned(Killed(ts, c), bits', max) <==>
      Accompanied(ts, c) || c == 0
  {
    NextIsLive(ts, c);
    if Accompanied(ts, c) {
      var other :| IsLive(ts, other) && other != c;
      KilledRuns(ts, c, other);
      KilledOwned(ts, bits, max, c, NextLive(ts, c), bits');
    } else if c == 0 {
      assert HasStack(ts, bits, max, 0);
      assert Killed(ts, 0) == ts;
    } else {
      assert !HasStack(Killed(ts, c), bits', max, c);
    }
  }

  lemma KilledRuns(ts: seq<Slot>, c: nat, other: nat)
    requires OneRunning(ts, c) && IsLive(ts, other) && other != c
    ensures OneRunning(Killed(ts, c), NextLive(ts, c))
  {
    NextIsOther(ts, c, other);
  }

  /** The page of a killed task goes back; everybody else keeps theirs. */
  lemma KilledOwned(ts: seq<Slot>, bits: seq<Word>, max: nat, c: nat, n: nat, bits': seq<Word>)
    requires c < |ts| && ts[c].state != Dead && Owned(ts, bits, max) && |bits| == (max + 31) / 32 && IsLive(ts, n)
    requires n != c && n == NextLive(ts, c)
    requires bits' == Returned(bits, ts[c].stack)
    ensures Owned(Killed(ts, c), bits', max)
  {
    var us := Killed(ts, c);
    assert HasStack(ts, bits, max, c);
    forall i | 0 <= i < |us|
      ensures HasStack(us, bits', max, i)
    {
      assert HasStack(ts, bits, max, i);
      if ts[c].stack != 0 && i != c {
        GiveIs(bits, ts[c].stack / 4096, ts[i].stack / 4096);
        if i > 0 && ts[i].state != Dead { assert ts[i].stack != ts[c].stack; }
      }
    }
  }

  lemma SwitchedOwned(ts: seq<Slot>, bits: seq<Word>, max: nat, c: nat)
    requires OneRunning(ts, c) && Owned(ts, bits, max)
    ensures Owned(Switched(ts, c), bits, max)
  {
    var us := Switched(ts, c);
    SwitchedLive(ts, c);
    forall i | 0 <= i < |us|
      ensures HasStack(us, bits, max, i) && (us[i].state != Dead <==> ts[i].state != Dead)
    {
      assert HasStack(ts, bits, max, i);
      assert IsLive(us, i) <==> IsLive(ts, i);
    }
  }

  class Scheduler {
    /** The slots in use so far; `task_count` is their number. */
    var tasks: seq<Slot>
    var current: nat
    const pages: Allocator

    ghost predicate Valid()
      reads this, pages
    {
      pages.Valid() && |tasks| <= MAX_TASKS && OneRunning(tasks, current) && Owned(tasks, pages.bits, pages.max)
    }

    /** `task_init`: the kernel itself is task 0. */
    constructor (p: Allocator)
      requires p.Valid()
      ensures Valid() && pages == p && tasks == [Slot(Running, 0)] && current == 0
    {
      tasks, current, pages := [Slot(Running, 0)], 0, p;
    }

    method FindSlot() returns (s: nat)
      requires |tasks| > 0
      ensures s == FreeSlot(tasks, 1)
    {
      s := 1;
      while s < |tasks|
        invariant 1 <= s <= |tasks| && FreeSlot(tasks, 1) == FreeSlot(tasks, s)
      {
        if tasks[s].state == Dead { return; }
        s := s + 1;
      }
    }

    /** `task_create`: the lowest dead slot gets a fresh page. Without a page the slot stays dead. */
    method Create()
      requires Valid()
      modifies `tasks, pages
      ensures Valid() && current == old(current) && pages.max == old(pages.max)
      ensures var s, b := FreeSlot(old(tasks), 1), FirstClear(old(pages.bits), 0, pages.max);
              if s == 64 then tasks == old(tasks) && pages.bits == old(pages.bits)
              else if b == pages.max then tasks == Grown(old(tasks), s) && pages.bits == old(pages.bits)
              else if b == 0 then tasks == Grown(old(tasks), s) && pages.bits == Take(old(pages.bits), b)
              else tasks == Grown(old(tasks), s)[s := Slot(Ready, b * 4096)] && pages.bits == Take(old(pages.bits), b)
    {
      var s := FindSlot();
      if s == MAX_TASKS { return; }
      GrownOk(tasks, pages.bits, pages.max, current, s);
      if s == |tasks| { tasks := tasks + [Slot(Dead, 0)]; }
      ghost var bits, b := pages.bits, FirstClear(pages.bits, 0, pages.max);
      var stack := pages.AllocBlock();
      if stack == 0 {
        if b == 0 && b < pages.max { MarkedOwned(tasks, bits, pages.max, b); }
        return;
      }
      CreatedOk(tasks, bits, pages.max, current, s, b);
      tasks := tasks[s := Slot(Ready, stack)];
    }

    method NextTask() returns (n: nat)
      requires current < |tasks|
      ensures n == NextLive(tasks, current)
    {
      SuccIsModulo(current, |tasks|);
      n := (current + 1) % |tasks|;
      var attempts := 0;
      while tasks[n].state == Dead && attempts < |tasks|
        invariant n < |tasks| && attempts <= |tasks| && NextLive(tasks, current) == Search(tasks, n, |tasks| - attempts)
        decreases |tasks| - attempts
      {
        SuccIsModulo(n, |tasks|);
        n := (n + 1) % |tasks|;
        attempts := attempts + 1;
      }
    }

    /** `task_switch`. */
    method Switch()
      requires Valid()
      modifies `tasks, `current
      ensures Valid() && current == NextLive(old(tasks), old(current)) && tasks == Switched(old(tasks), old(current))
    {
      SwitchedLive(tasks, current);
      SwitchedOwned(tasks, pages.bits, pages.max, current);
      if |tasks| <= 1 {
        AloneStays(tasks, current);
        return;
      }
      var prev := current;
      var next := NextTask();
      current := next;
      tasks := tasks[prev := tasks[prev].(state := Ready)];
      tasks := tasks[next := tasks[next].(state := Running)];
    }

    /** `task_kill_current`: its page is freed and the next live task runs. With a single slot the machine halts. If
        there are more but no other task lives, the search comes back to the task being killed, which goes on running;
        that is harmless only for task 0, which has no page. */
    method Kill() returns (halted: bool)
      requires Valid()
      modifies `tasks, `current, pages
      ensures pages.Valid() && pages.max == old(pages.max) && (halted <==> |old(tasks)| == 1)
      ensures halted ==> Valid() && tasks == old(tasks) && current == old(current) && pages.bits == old(pages.bits)
      ensures !halted ==> current == NextLive(old(tasks), old(current)) && tasks == Killed(old(tasks), old(current))
                          && pages.bits == Returned(old(pages.bits), old(tasks)[old(current)].stack)
      ensures !halted ==> (Valid() <==> old(Accompanied(tasks, current)) || old(current) == 0)
    {
      if |tasks| <= 1 { return true; }
      assert HasStack(tasks, pages.bits, pages.max, current);
      NextIsLive(tasks, current);
      ghost var ts, bits := tasks, pages.bits;
      var dead := current;
      var stack := tasks[dead].stack;
      var next := NextTask();
      if tasks[next].state == Dead { assert false; }
      if stack != 0 { pages.FreeBlock(stack); }
      current := next;
      tasks := tasks[dead := Slot(Dead, 0)];
      tasks := tasks[next := tasks[next].(state := Running)];
      KilledOutcome(ts, bits, pages.max, dead, pages.bits);
      halted := false;
    }
  }

  /** A run in which that is not so: the kernel creates a task and is killed, then the task is killed. The task goes on
      running, and its stack page is free. */
  method LastTaskKilled(p: Allocator) returns (s: Scheduler)
    requires p.Valid() && 0 < FirstClear(p.bits, 0, p.max) < p.max
    modifies p
    ensures s.pages == p && s.current == 1 && s.tasks == [Slot(Dead, 0), Slot(Running, 0)]
    ensures !Taken(p.bits, old(FirstClear(p.bits, 0, p.max))) && !s.Valid()
  {
    ghost var bits, b := p.bits, FirstClear(p.bits, 0, p.max);
    s := new Scheduler(p);
    s.Create();
    assert s.tasks == [Slot(Running, 0), Slot(Ready, b * 4096)];
    var halted := s.Kill();
    assert s.tasks == [Slot(Dead, 0), Slot(Running, b * 4096)];
    halted := s.Kill();
    GiveIs(Take(bits, b), b, b);
  }

  lemma AloneStays(ts: seq<Slot>, c: nat)
    requires OneRunning(ts, c) && |ts| == 1
    ensures NextLive(ts, c) == c && Switched(ts, c) == ts
  {
  }

  lemma MarkedOwned(ts: seq<Slot>, bits: seq<Word>, max: nat, b: nat)
    requires Owned(ts, bits, max) && b / 32 < |bits|
    ensures Owned(ts, Take(bits, b), max)
  {
    forall i | 0 <= i < |ts|
      ensures HasStack(ts, Take(bits, b), max, i)
    {
      assert HasStack(ts, bits, max, i);
      TakeIs(bits, b, ts[i].stack / 4096);
    }
  }
}
