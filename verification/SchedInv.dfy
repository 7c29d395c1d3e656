/** Every step keeps every process in its one place and every parent's count; no wake-up is lost. */
module SchedInv {
  import opened SchedSpec
  import opened Seqs

  /** The invariant but for who waits for whom. */
  ghost predicate Core(s: Sys) {
    && (s.running != NONE ==> s.running in s.procs && s.procs[s.running].state == Runnable)
    && NONE < s.nextPid
    && (forall n :: QueueOk(s, n))
    && (forall p :: p in s.procs ==> ProcOk(s, p))
  }

  // ----- queues

  lemma PushDistinct(xs: seq<int>, p: int)
    requires Distinct(xs) && p !in xs
    ensures Distinct([p] + xs) && forall x :: x in [p] + xs <==> x == p || x in xs
  {
  }

  lemma GetSet(qs: Queues, n: QName, m: QName, xs: seq<int>)
    requires n != NoQ
    ensures qs.Set(n, xs).Get(m) == if m == n then xs else qs.Get(m)
  {
  }

  /** A process stands in no queue but its own. */
  lemma OnePlace(s: Sys, p: int, n: QName)
    requires Core(s) && p in s.procs
    ensures p in s.qs.Get(n) <==> n == Place(s, p) && n != NoQ
  {
    assert ProcOk(s, p) && QueueOk(s, n);
  }

  lemma KidsSame(a: map<int, Proc>, b: map<int, Proc>, p: int)
    requires a.Keys == b.Keys && forall c :: c in a ==> a[c].parent == b[c].parent
    ensures Kids(a, p) == Kids(b, p)
  {
    forall c ensures c in a <==> c in b {
      assert c in a.Keys <==> c in b.Keys;
    }
    forall c ensures c in Kids(a, p) <==> c in Kids(b, p) {
    }
  }

  // ----- the steps keep the core

  lemma CoreStopped(s: Sys, n: QName, st: PState)
    requires Core(s) && s.running != NONE
    requires (st == Exited && n == ExitQ) || (st == Blocked && n == TicksQ && !s.procs[s.running].inWait)
      || (st == Blocked && n == WaitQ && s.procs[s.running].inWait)
    ensures Core(Stopped(s, n, st))
  {
    hide Kids, Distinct;
    var p, t := s.running, Stopped(s, n, st);
    forall m ensures QueueOk(t, m) {
      assert QueueOk(s, m);
      OnePlace(s, p, m);
      GetSet(s.qs, n, m, [p] + s.qs.Get(n));
      if m == n { PushDistinct(s.qs.Get(n), p); }
    }
    forall q | q in t.procs ensures ProcOk(t, q) {
      assert ProcOk(s, q);
      KidsSame(s.procs, t.procs, q);
      GetSet(s.qs, n, Place(t, q), [p] + s.qs.Get(n));
    }
  }

  lemma CoreWoken(s: Sys, n: QName, p: int)
    requires Core(s) && Fits(s, p, n) && (n == TicksQ || n == WaitQ)
    ensures Core(Woken(s, n, p))
  {
    hide Kids, Distinct;
    var t := Woken(s, n, p);
    OnePlace(s, p, RunQ);
    assert QueueOk(s, n) && QueueOk(s, RunQ) && ProcOk(s, p);
    MinusDistinct(s.qs.Get(n), p);
    PushDistinct(s.qs.run, p);
    forall m ensures QueueOk(t, m) {
      assert QueueOk(s, m);
      OnePlace(s, p, m);
    }
    forall q | q in t.procs ensures ProcOk(t, q) {
      assert ProcOk(s, q);
      KidsSame(s.procs, t.procs, q);
    }
  }

  lemma KidsWithout(a: map<int, Proc>, p: int, z: int)
    requires z in a
    ensures Kids(a - {z}, p) == Kids(a, p) - {z}
    ensures |Kids(a - {z}, p)| == if a[z].parent == p then |Kids(a, p)| - 1 else |Kids(a, p)|
  {
    if a[z].parent != p { assert Kids(a, p) - {z} == Kids(a, p); }
  }

  lemma CoreReaped(s: Sys, z: int)
    requires Core(s) && s.running != NONE && Zombie(s, s.running, z)
    ensures Core(Reaped(s, z))
  {
    hide Kids, Distinct;
    var p, t := s.running, Reaped(s, z);
    var mid := s.procs[p := s.procs[p].(children := s.procs[p].children - 1, inWait := false)];
    assert t.procs == mid - {z};
    OnePlace(s, z, ExitQ);
    assert QueueOk(s, ExitQ);
    MinusDistinct(s.qs.exit, z);
    forall m ensures QueueOk(t, m) {
      assert QueueOk(s, m);
      OnePlace(s, z, m);
    }
    forall q | q in t.procs ensures ProcOk(t, q) {
      assert ProcOk(s, q);
      KidsSame(s.procs, mid, q);
      KidsWithout(mid, q, z);
    }
  }

  lemma KidsAdd(a: map<int, Proc>, c: int, v: Proc, p: int)
    requires c !in a
    ensures |Kids(a[c := v], p)| == |Kids(a, p)| + if v.parent == p then 1 else 0
  {
    if v.parent == p {
      assert Kids(a[c := v], p) == Kids(a, p) + {c};
    } else {
      assert Kids(a[c := v], p) == Kids(a, p);
    }
  }

  lemma NoKids(s: Sys, c: int)
    requires Core(s) && c >= s.nextPid
    ensures Kids(s.procs, c) == {} && c !in s.procs
  {
    forall q | q in s.procs ensures q != c && s.procs[q].parent != c { assert ProcOk(s, q); }
  }

  lemma CoreFork(s: Sys)
    requires Core(s) && Enabled(s, Fork(Made))
    ensures Core(Next(s, Fork(Made)))
  {
    hide Kids, Distinct;
    var p, c, t := s.running, s.nextPid, Next(s, Fork(Made));
    NoKids(s, c);
    var mid := s.procs[p := s.procs[p].(children := s.procs[p].children + 1)];
    assert ProcOk(s, p);
    forall m ensures QueueOk(t, m) {
      assert QueueOk(s, m);
      if m == RunQ { PushDistinct(s.qs.run, c); }
    }
    forall q | q in t.procs ensures ProcOk(t, q) {
      if q != c { assert ProcOk(s, q); }
      KidsSame(s.procs, mid, q);
      KidsAdd(mid, c, t.procs[c], q);
    }
  }

  lemma LastOut(xs: seq<int>)
    requires xs != [] && Distinct(xs)
    ensures var n := |xs| - 1;
      Distinct(xs[..n]) && forall x :: x in xs[..n] <==> x in xs && x != xs[n]
  {
    var n := |xs| - 1;
    assert xs == xs[..n] + [xs[n]];
  }

  lemma CorePick(s: Sys)
    requires Core(s) && Enabled(s, Pick)
    ensures Core(Next(s, Pick))
  {
    hide Kids;
    var t := Next(s, Pick);
    hide Distinct;
    var xs, n := s.qs.run, |s.qs.run| - 1;
    assert QueueOk(s, RunQ) && Fits(s, xs[n], RunQ);
    LastOut(xs);
    forall m ensures QueueOk(t, m) {
      assert QueueOk(s, m);
      OnePlace(s, xs[n], m);
    }
    forall q | q in t.procs ensures ProcOk(t, q) {
      assert ProcOk(s, q);
    }
  }

  lemma {:induction false} BackwardIn(xs: seq<int>)
    requires Distinct(xs)
    ensures Distinct(Backward(xs)) && |Backward(xs)| == |xs|
    ensures forall x :: x in Backward(xs) <==> x in xs
  {
    if xs != [] {
      BackwardIn(xs[1..]);
      assert xs == [xs[0]] + xs[1..];
      assert xs[0] !in xs[1..];
    }
  }

  lemma {:induction false} BackwardAt(xs: seq<int>, k: nat)
    requires k < |xs|
    ensures |Backward(xs)| == |xs| && Backward(xs)[k] == xs[|xs| - 1 - k]
  {
    if |xs| > 1 { BackwardAt(xs[1..], if k < |xs| - 1 then k else 0); }
  }

  lemma AppendDistinct(xs: seq<int>, ys: seq<int>)
    requires Distinct(xs) && Distinct(ys) && forall x :: x in xs ==> x !in ys
    ensures Distinct(xs + ys)
  {
    var zs := xs + ys;
    forall i, j | 0 <= i < j < |zs| ensures zs[i] != zs[j] {
      if i < |xs| { assert zs[i] in xs; }
      if j >= |xs| { assert zs[j] in ys; }
    }
  }

  lemma CoreAwake(s: Sys)
    requires Core(s)
    ensures Core(s.(procs := AllWoken(s.procs, s.qs.ticks), qs := s.qs.(ticks := [], run := Backward(s.qs.ticks) + s.qs.run)))
  {
    hide Kids, Distinct;
    var t := s.(procs := AllWoken(s.procs, s.qs.ticks), qs := s.qs.(ticks := [], run := Backward(s.qs.ticks) + s.qs.run));
    assert QueueOk(s, RunQ) && QueueOk(s, TicksQ);
    BackwardIn(s.qs.ticks);
    AppendDistinct(Backward(s.qs.ticks), s.qs.run);
    assert Distinct<int>([]) by { DistinctNil(); }
    forall m ensures QueueOk(t, m) {
      assert QueueOk(s, m);
    }
    forall q | q in t.procs ensures ProcOk(t, q) {
      assert ProcOk(s, q);
      KidsSame(s.procs, t.procs, q);
      OnePlace(s, q, TicksQ);
    }
  }

  lemma DistinctNil()
    ensures Distinct<int>([])
  {
  }

  lemma CoreYield(s: Sys)
    requires Core(s) && s.running != NONE
    ensures Core(s.(qs := Pushed(s.qs, RunQ, s.running), running := NONE))
  {
    hide Kids, Distinct;
    var p, t := s.running, s.(qs := Pushed(s.qs, RunQ, s.running), running := NONE);
    forall m ensures QueueOk(t, m) {
      assert QueueOk(s, m);
      OnePlace(s, p, m);
      if m == RunQ { PushDistinct(s.qs.run, p); }
    }
    forall q | q in t.procs ensures ProcOk(t, q) {
      assert ProcOk(s, q);
    }
  }

  lemma CoreFailed(s: Sys)
    requires Core(s)
    ensures Core(s.(nextPid := s.nextPid + 1))
  {
    hide Kids, Distinct;
    var t := s.(nextPid := s.nextPid + 1);
    forall m ensures QueueOk(t, m) {
      assert QueueOk(s, m);
    }
    forall q | q in t.procs ensures ProcOk(t, q) {
      assert ProcOk(s, q);
    }
  }

  lemma CoreInWait(s: Sys)
    requires Core(s) && s.running != NONE
    ensures Core(s.(procs := s.procs[s.running := s.procs[s.running].(inWait := true)]))
  {
    hide Kids, Distinct;
    var t := s.(procs := s.procs[s.running := s.procs[s.running].(inWait := true)]);
    forall m ensures QueueOk(t, m) {
      assert QueueOk(s, m);
    }
    forall q | q in t.procs ensures ProcOk(t, q) {
      assert ProcOk(s, q);
      KidsSame(s.procs, t.procs, q);
    }
  }

  lemma PidsPositive(s: Sys)
    requires Core(s)
    ensures forall p :: p in s.procs ==> p >= 0
  {
    forall p | p in s.procs ensures p >= 0 { assert ProcOk(s, p); }
  }

  // ----- finding a zombie

  lemma {:induction false} ZombieFound(s: Sys, xs: seq<int>, p: int)
    requires forall x :: x in xs ==> x in s.procs
    ensures FirstZombie(s, xs, p) == NONE || (FirstZombie(s, xs, p) in xs && s.procs[FirstZombie(s, xs, p)].parent == p)
    ensures FirstZombie(s, xs, p) == NONE && NONE !in s.procs ==> forall x :: x in xs ==> s.procs[x].parent != p
  {
    if xs != [] {
      assert xs == [xs[0]] + xs[1..];
      ZombieFound(s, xs[1..], p);
    }
  }

  /** The search of the exit queue finds an exited child exactly when there is one. */
  lemma SearchFinds(s: Sys, p: int)
    requires Core(s)
    ensures FirstZombie(s, s.qs.exit, p) != NONE <==> exists z :: Zombie(s, p, z)
    ensures FirstZombie(s, s.qs.exit, p) != NONE ==> Zombie(s, p, FirstZombie(s, s.qs.exit, p))
  {
    var z := FirstZombie(s, s.qs.exit, p);
    assert QueueOk(s, ExitQ);
    PidsPositive(s);
    ZombieFound(s, s.qs.exit, p);
    if z != NONE {
      assert Fits(s, z, ExitQ);
      assert Zombie(s, p, z);
    } else {
      forall y ensures !Zombie(s, p, y) {
        if y in s.procs { OnePlace(s, y, ExitQ); }
      }
    }
  }

  // ----- the whole invariant

  /** Only a state other than exited, of a process that is not waiting, may differ. */
  predicate SameWaits(a: Proc, b: Proc) {
    && a.parent == b.parent && a.inWait == b.inWait && a.children == b.children
    && (a.state == b.state || (a.state != Exited && b.state != Exited && !a.inWait))
  }

  lemma WakeSleepers(s: Sys, t: Sys)
    requires Inv(s) && t.procs.Keys == s.procs.Keys
    requires forall p :: p in s.procs ==> SameWaits(s.procs[p], t.procs[p])
    ensures forall p :: p in t.procs ==> WakeOk(t, p)
  {
    forall p | p in t.procs ensures WakeOk(t, p) {
      assert p in t.procs.Keys;
      assert WakeOk(s, p);
      forall z ensures Zombie(s, p, z) <==> Zombie(t, p, z) {
        assert z in s.procs.Keys <==> z in t.procs.Keys;
      }
    }
  }

  lemma InvPick(s: Sys)
    requires Inv(s) && Enabled(s, Pick)
    ensures Inv(Next(s, Pick))
  {
    hide ProcOk, QueueOk, WakeOk;
    CorePick(s);
    WakeSleepers(s, Next(s, Pick));
  }

  lemma InvTimer(s: Sys)
    requires Inv(s) && Enabled(s, Timer)
    ensures Inv(Next(s, Timer))
  {
    hide QueueOk, WakeOk;
    CoreAwake(s);
    var t := s.(procs := AllWoken(s.procs, s.qs.ticks), qs := s.qs.(ticks := [], run := Backward(s.qs.ticks) + s.qs.run));
    if s.running != NONE { CoreYield(t); }
    forall p | p in s.procs ensures SameWaits(s.procs[p], t.procs[p]) {
      assert ProcOk(s, p);
      OnePlace(s, p, TicksQ);
    }
    assert t.procs.Keys == s.procs.Keys;
    WakeSleepers(s, Next(s, Timer));
  }

  lemma InvSleep(s: Sys)
    requires Inv(s) && Enabled(s, Sleep)
    ensures Inv(Next(s, Sleep))
  {
    hide ProcOk, QueueOk, WakeOk;
    PidsPositive(s);
    CoreStopped(s, TicksQ, Blocked);
    WakeSleepers(s, Next(s, Sleep));
  }

  lemma InvFork(s: Sys, end: ForkEnd)
    requires Inv(s) && Enabled(s, Fork(end))
    ensures Inv(Next(s, Fork(end)))
  {
    hide ProcOk, QueueOk;
    var t := Next(s, Fork(end));
    if end == Made { CoreFork(s); NoKids(s, s.nextPid); } else if end == Dropped { CoreFailed(s); }
    forall p | p in t.procs ensures WakeOk(t, p) {
      if p in s.procs {
        assert WakeOk(s, p);
        forall z ensures Zombie(s, p, z) <==> Zombie(t, p, z) {}
      }
    }
  }

  lemma InvWait(s: Sys)
    requires Inv(s) && Enabled(s, Wait)
    ensures Inv(Next(s, Wait))
  {
    hide QueueOk, Kids;
    var p := s.running;
    assert WakeOk(s, p);
    if s.procs[p].inWait || s.procs[p].children != 0 {
      SearchFinds(s, p);
      var z := FirstZombie(s, s.qs.exit, p);
      var t := Next(s, Wait);
      if z != NONE {
        CoreReaped(s, z);
        forall q | q in t.procs ensures WakeOk(t, q) {
          assert WakeOk(s, q);
          forall y ensures q != p ==> (Zombie(s, q, y) <==> Zombie(t, q, y)) {}
        }
      } else {
        CoreInWait(s);
        CoreStopped(s.(procs := s.procs[p := s.procs[p].(inWait := true)]), WaitQ, Blocked);
        forall q | q in t.procs ensures WakeOk(t, q) {
          assert WakeOk(s, q);
          forall y ensures Zombie(s, q, y) <==> Zombie(t, q, y) {}
        }
      }
    }
  }

  lemma InvExit(s: Sys)
    requires Inv(s) && Enabled(s, Exit)
    ensures Inv(Next(s, Exit))
  {
    hide QueueOk, Kids;
    var p := s.running;
    var parent := s.procs[p].parent;
    assert ProcOk(s, p);
    var m := if Waiting(s, parent) then Woken(s, WaitQ, parent) else s;
    if Waiting(s, parent) {
      CoreWoken(s, WaitQ, parent);
    }
    CoreStopped(m, ExitQ, Exited);
    var t := Next(s, Exit);
    assert Zombie(t, parent, p);
    forall q | q in t.procs ensures WakeOk(t, q) {
      assert WakeOk(s, q) && ProcOk(s, q);
      forall y ensures q != parent ==> (Zombie(s, q, y) <==> Zombie(t, q, y)) {}
      forall y ensures Zombie(s, q, y) ==> Zombie(t, q, y) {}
    }
  }

  /** Every step keeps the invariant. */
  lemma InvStep(s: Sys, step: Step)
    requires Inv(s) && Enabled(s, step)
    ensures Inv(Next(s, step))
  {
    hide Inv, Next, Enabled;
    match step
    case Pick => InvPick(s);
    case Fork(end) => InvFork(s, end);
    case Wait => InvWait(s);
    case Exit => InvExit(s);
    case Sleep => InvSleep(s);
    case Timer => InvTimer(s);
  }

  // ----- runs

  ghost predicate Allowed(s: Sys, steps: seq<Step>)
    decreases |steps|
  {
    steps == [] || (Enabled(s, steps[0]) && Allowed(Next(s, steps[0]), steps[1..]))
  }

  ghost function After(s: Sys, steps: seq<Step>): Sys
    requires Allowed(s, steps)
    decreases |steps|
  {
    if steps == [] then s else After(Next(s, steps[0]), steps[1..])
  }

  /** The first process, waiting to be picked. */
  function Boot(): Sys {
    Sys(map[0 := Proc(NONE, 0, Runnable, NoQ, false)], Queues([0], [], [], []), NONE, 1)
  }

  lemma BootInv()
    ensures Inv(Boot())
  {
    var s := Boot();
    assert forall n :: QueueOk(s, n) by {
      forall n ensures QueueOk(s, n) { assert s.qs.Get(n) == [] || s.qs.Get(n) == [0]; }
    }
    assert Kids(s.procs, 0) == {};
  }

  lemma {:induction false} InvRun(s: Sys, steps: seq<Step>)
    requires Inv(s) && Allowed(s, steps)
    ensures Inv(After(s, steps))
    decreases |steps|
  {
    if steps != [] {
      InvStep(s, steps[0]);
      InvRun(Next(s, steps[0]), steps[1..]);
    }
  }

  /** In every reachable state each process that was not reaped runs, or stands in exactly one
      queue, the one that matches its state; its count is that of its unreaped children. */
  lemma ReachablePlaces(steps: seq<Step>, p: int, n: QName)
    requires Allowed(Boot(), steps) && p in After(Boot(), steps).procs
    ensures var s := After(Boot(), steps);
      && (p in s.qs.Get(n) <==> n == Place(s, p) && n != NoQ)
      && (Place(s, p) == NoQ <==> p == s.running)
      && Distinct(s.qs.Get(n))
      && s.procs[p].children == |Kids(s.procs, p)|
  {
    BootInv();
    InvRun(Boot(), steps);
    var s := After(Boot(), steps);
    OnePlace(s, p, n);
    assert ProcOk(s, p) && QueueOk(s, n);
  }

  /** Whoever waits has a child that has not exited, and none that has. */
  lemma NoLostWakeup(s: Sys, p: int)
    requires Inv(s) && p in s.qs.wait
    ensures forall z :: !Zombie(s, p, z)
    ensures exists c :: c in s.procs && s.procs[c].parent == p && s.procs[c].state != Exited
  {
    assert QueueOk(s, WaitQ) && p in s.qs.Get(WaitQ);
    assert Fits(s, p, WaitQ);
    assert ProcOk(s, p) && WakeOk(s, p);
    var kids := Kids(s.procs, p);
    assert kids != {};
    var c := AnElement(kids);
    assert !Zombie(s, p, c);
  }

  /** A process blocks in `sys_wait` at most once: once it was woken the search succeeds. */
  lemma WokenWaitReaps(s: Sys)
    requires Inv(s) && Enabled(s, Wait) && s.procs[s.running].inWait
    ensures var t := Next(s, Wait);
      && t.running == s.running && !t.procs[t.running].inWait
      && t.procs[t.running].children == s.procs[s.running].children - 1
      && exists z :: Zombie(s, s.running, z) && t.procs.Keys == s.procs.Keys - {z}
  {
    assert WakeOk(s, s.running);
    SearchFinds(s, s.running);
    var z := FirstZombie(s, s.qs.exit, s.running);
    assert Zombie(s, s.running, z);
    assert Next(s, Wait).procs.Keys == s.procs.Keys - {z};
  }

  // ----- fairness

  function Picks(steps: seq<Step>): nat {
    if steps == [] then 0 else (if steps[0] == Pick then 1 else 0) + Picks(steps[1..])
  }

  /** How many picks away a process in the run queue is. */
  ghost predicate Ahead(s: Sys, p: int, d: nat) {
    0 < d <= |s.qs.run| && s.qs.run[|s.qs.run| - d] == p
  }

  /** Steps other than picks add to the front of the run queue only. */
  lemma RunGrows(s: Sys, step: Step)
    requires Inv(s) && Enabled(s, step) && step != Pick
    ensures |s.qs.run| <= |Next(s, step).qs.run|
    ensures Next(s, step).qs.run[|Next(s, step).qs.run| - |s.qs.run|..] == s.qs.run
  {
    hide Inv, FirstZombie, Backward, AllWoken;
    var front := NewRun(s, step);
    assert Next(s, step).qs.run == front + s.qs.run;
    Suffix(front, s.qs.run);
  }

  lemma Suffix(a: seq<int>, b: seq<int>)
    ensures (a + b)[|a + b| - |b|..] == b
  {
  }

  /** What a step puts in front of the run queue. */
  ghost function NewRun(s: Sys, step: Step): seq<int> {
    match step
    case Pick => []
    case Fork(end) => if end == Made then [s.nextPid] else []
    case Wait => []
    case Exit => if s.running in s.procs && Waiting(s, s.procs[s.running].parent) then [s.procs[s.running].parent] else []
    case Sleep => []
    case Timer => (if s.running != NONE then [s.running] else []) + Backward(s.qs.ticks)
  }

  lemma AheadStep(s: Sys, step: Step, p: int, d: nat)
    requires Inv(s) && Enabled(s, step) && Ahead(s, p, d)
    ensures step != Pick ==> Ahead(Next(s, step), p, d)
    ensures step == Pick && d > 1 ==> Ahead(Next(s, step), p, d - 1)
    ensures step == Pick && d == 1 ==> Next(s, step).running == p
  {
    if step != Pick {
      RunGrows(s, step);
      var a, b := s.qs.run, Next(s, step).qs.run;
      assert b[|b| - |a|..][|a| - d] == b[|b| - d];
    }
  }

  /** A process in the run queue, `d` places from the back, is the `d`-th to be picked. */
  lemma {:induction false} PickedInTurn(s: Sys, steps: seq<Step>, p: int, d: nat) returns (k: nat)
    requires Inv(s) && Allowed(s, steps) && Ahead(s, p, d) && Picks(steps) >= d
    ensures 0 < k <= |steps| && Picks(steps[..k]) == d && Allowed(s, steps[..k])
    ensures steps[k - 1] == Pick && After(s, steps[..k]).running == p
    decreases |steps|
  {
    var t := Next(s, steps[0]);
    InvStep(s, steps[0]);
    AheadStep(s, steps[0], p, d);
    if steps[0] == Pick && d == 1 {
      k := 1;
      assert steps[..1][1..] == [];
    } else {
      var j := PickedInTurn(t, steps[1..], p, if steps[0] == Pick then d - 1 else d);
      k := j + 1;
      assert steps[..k][1..] == steps[1..][..j];
    }
  }

  // ----- preemption

  /** A timer takes the core away: the process that ran is picked after all others that can run,
      every sleeper among them, and the scheduler has somebody to pick. */
  lemma TimerYields(s: Sys)
    requires Inv(s) && Enabled(s, Timer)
    ensures var t := Next(s, Timer);
      && t.running == NONE && t.procs.Keys == s.procs.Keys
      && (forall p :: p in s.procs && s.procs[p].state == Runnable ==> p in t.qs.run)
      && (forall p :: p in s.qs.ticks ==> p in t.qs.run && p in t.procs && t.procs[p].state == Runnable)
      && (s.running != NONE ==> Ahead(t, s.running, |t.qs.run|) && Enabled(t, Pick))
  {
    var t := Next(s, Timer);
    InvTimer(s);
    forall p | p in s.procs && s.procs[p].state == Runnable ensures p in t.qs.run {
      assert ProcOk(s, p) && p in t.procs.Keys;
    }
    assert QueueOk(s, TicksQ);
    BackwardIn(s.qs.ticks);
    forall p | p in s.qs.ticks ensures p in t.qs.run && p in t.procs && t.procs[p].state == Runnable {
      assert p in s.qs.Get(TicksQ);
      assert Fits(s, p, TicksQ);
    }
  }

  function Timers(steps: seq<Step>): nat {
    if steps == [] then 0 else (if steps[0] == Timer then 1 else 0) + Timers(steps[1..])
  }

  /** The scheduler picks right after each timer. */
  ghost predicate Prompt(steps: seq<Step>) {
    forall i :: 0 <= i < |steps| && steps[i] == Timer ==> i + 1 < |steps| && steps[i + 1] == Pick
  }

  lemma {:induction false} TimersPick(steps: seq<Step>)
    requires Prompt(steps)
    ensures Timers(steps) <= Picks(steps)
  {
    if steps != [] {
      var rest := steps[1..];
      forall i | 0 <= i < |rest| && rest[i] == Timer ensures i + 1 < |rest| && rest[i + 1] == Pick {
        assert steps[i + 1] == Timer;
      }
      if steps[0] == Timer {
        assert rest[0] == Pick;
        var last := rest[1..];
        forall i | 0 <= i < |last| && last[i] == Timer ensures i + 1 < |last| && last[i + 1] == Pick {
          assert steps[i + 2] == Timer;
        }
        TimersPick(last);
      } else {
        TimersPick(rest);
      }
    }
  }

  lemma {:induction false} PicksTail(steps: seq<Step>, k: nat)
    requires k <= |steps|
    ensures Picks(steps) == Picks(steps[..k]) + Picks(steps[k..])
  {
    if k > 0 {
      PicksTail(steps[1..], k - 1);
      assert steps[..k][1..] == steps[1..][..k - 1] && steps[k..] == steps[1..][k - 1..];
    } else {
      assert steps[0..] == steps;
    }
  }

  /** Whatever the processes do, one that is ready with `d` to go has had the core by the `d`-th
      timer: at the first moment it has, no more than `d` timers have gone by. */
  lemma RunsByTimer(s: Sys, steps: seq<Step>, p: int, d: nat) returns (k: nat)
    requires Inv(s) && Allowed(s, steps) && Ahead(s, p, d) && Prompt(steps) && Timers(steps) >= d
    ensures 0 < k <= |steps| && Allowed(s, steps[..k]) && After(s, steps[..k]).running == p && Timers(steps[..k]) <= d
  {
    TimersPick(steps);
    k := PickedInTurn(s, steps, p, d);
    var pre := steps[..k];
    assert pre[k - 1] == Pick;
    forall i | 0 <= i < |pre| && pre[i] == Timer ensures i + 1 < |pre| && pre[i + 1] == Pick {
      assert steps[i] == Timer;
    }
    TimersPick(pre);
  }

  // ----- who does not run

  /** A sleeper has given up the core and does not get it back before a timer. */
  lemma SleepBlocks(s: Sys)
    requires Inv(s) && Enabled(s, Sleep)
    ensures Next(s, Sleep).running == NONE && s.running in Next(s, Sleep).qs.ticks
  {
  }

  lemma {:induction false} AsleepTillTimer(s: Sys, steps: seq<Step>, p: int)
    requires Inv(s) && Allowed(s, steps) && p in s.qs.ticks && Timer !in steps
    ensures p in After(s, steps).qs.ticks && After(s, steps).running != p
    decreases |steps|
  {
    NotRunning(s, p, TicksQ);
    if steps != [] {
      hide Inv, FirstZombie, Minus;
      InvStep(s, steps[0]);
      assert steps[0] != Timer;
      AsleepTillTimer(Next(s, steps[0]), steps[1..], p);
    }
  }

  lemma NotRunning(s: Sys, p: int, n: QName)
    requires Inv(s) && p in s.qs.Get(n)
    ensures p != s.running && p in s.procs && n == Place(s, p) && n != NoQ
  {
    assert QueueOk(s, n) && Fits(s, p, n);
    PidsPositive(s);
  }

  /** Exiting gives up the core for good: the process stays in the exit queue until it is reaped. */
  lemma ExitStops(s: Sys)
    requires Inv(s) && Enabled(s, Exit)
    ensures Next(s, Exit).running == NONE && s.running in Next(s, Exit).qs.exit
  {
  }

  lemma {:induction false} ExitedForGood(s: Sys, steps: seq<Step>, p: int)
    requires Inv(s) && Allowed(s, steps) && p < s.nextPid && (p in s.qs.exit || p !in s.procs)
    ensures var t := After(s, steps);
      p < t.nextPid && (p in t.qs.exit || p !in t.procs) && (t.running != NONE ==> t.running != p)
    decreases |steps|
  {
    if p in s.qs.exit { NotRunning(s, p, ExitQ); }
    if steps != [] {
      InvStep(s, steps[0]);
      ExitedStep(s, steps[0], p);
      ExitedForGood(Next(s, steps[0]), steps[1..], p);
    }
  }

  lemma ExitedStep(s: Sys, step: Step, p: int)
    requires Inv(s) && Enabled(s, step) && p < s.nextPid && (p in s.qs.exit || p !in s.procs)
    ensures var t := Next(s, step); p < t.nextPid && (p in t.qs.exit || p !in t.procs)
  {
    assert QueueOk(s, ExitQ);
    hide Inv, FirstZombie, QueueOk;
    if step == Wait {
      var z := FirstZombie(s, s.qs.exit, s.running);
      MinusDistinct(s.qs.exit, z) by { assert Distinct(s.qs.Get(ExitQ)); }
    }
  }

  /** A forked child is runnable, behind all others that are, and its parent keeps the core. */
  lemma ForkedIsLast(s: Sys)
    requires Inv(s) && Enabled(s, Fork(Made))
    ensures var t, c := Next(s, Fork(Made)), s.nextPid;
      && c !in s.procs && c in t.procs && t.procs[c].parent == s.running && t.procs[c].state == Runnable
      && t.running == s.running && Ahead(t, c, |t.qs.run|) && |t.qs.run| == |s.qs.run| + 1
  {
    NewChild(s);
  }

  lemma NewChild(s: Sys)
    requires Inv(s)
    ensures s.nextPid !in s.procs
  {
    NoKids(s, s.nextPid);
  }

  /** Some step of the run is an exit of a child of `p`. */
  ghost predicate ChildExits(s: Sys, steps: seq<Step>, p: int)
    requires Allowed(s, steps)
    decreases |steps|
  {
    steps != [] &&
    ((steps[0] == Exit && s.procs[s.running].parent == p) || ChildExits(Next(s, steps[0]), steps[1..], p))
  }

  /** Whoever waits for a child does not run before one exits. */
  lemma {:induction false} WaitsForChild(s: Sys, steps: seq<Step>, p: int)
    requires Inv(s) && Allowed(s, steps) && p in s.qs.wait && !ChildExits(s, steps, p)
    ensures p in After(s, steps).qs.wait && After(s, steps).running != p
    decreases |steps|
  {
    NotRunning(s, p, WaitQ);
    if steps != [] {
      InvStep(s, steps[0]);
      WaitStep(s, steps[0], p);
      WaitsForChild(Next(s, steps[0]), steps[1..], p);
    }
  }

  lemma WaitStep(s: Sys, step: Step, p: int)
    requires Inv(s) && Enabled(s, step) && p in s.qs.wait
    requires !(step == Exit && s.procs[s.running].parent == p)
    ensures p in Next(s, step).qs.wait
  {
    assert QueueOk(s, WaitQ);
    hide Inv, FirstZombie, QueueOk;
    if step == Exit {
      var parent := s.procs[s.running].parent;
      MinusDistinct(s.qs.wait, parent) by { assert Distinct(s.qs.Get(WaitQ)); }
    }
  }

  /** The child that is found stands before all others in the queue. */
  lemma {:induction false} FirstInQueue(s: Sys, xs: seq<int>, p: int)
    requires forall i :: 0 <= i < |xs| ==> xs[i] in s.procs && xs[i] != NONE
    ensures var z := FirstZombie(s, xs, p);
      if z == NONE then forall i :: 0 <= i < |xs| ==> s.procs[xs[i]].parent != p
      else exists i :: 0 <= i < |xs| && xs[i] == z && s.procs[z].parent == p && NoneBefore(s, xs, i, p)
  {
    if xs != [] && s.procs[xs[0]].parent != p {
      FirstInQueue(s, xs[1..], p);
      var z := FirstZombie(s, xs[1..], p);
      if z == NONE {
        forall i | 0 <= i < |xs| ensures s.procs[xs[i]].parent != p {
          if i > 0 { assert xs[i] == xs[1..][i - 1]; }
        }
      } else {
        var i :| 0 <= i < |xs[1..]| && xs[1..][i] == z && s.procs[z].parent == p && NoneBefore(s, xs[1..], i, p);
        assert xs[i + 1] == z && NoneBefore(s, xs, i + 1, p) by {
          forall j | 0 <= j < i + 1 ensures xs[j] in s.procs && s.procs[xs[j]].parent != p {
            if j > 0 { assert xs[j] == xs[1..][j - 1]; }
          }
        }
      }
    } else if xs != [] {
      assert NoneBefore(s, xs, 0, p);
    }
  }

  ghost predicate NoneBefore(s: Sys, xs: seq<int>, i: int, p: int)
    requires 0 <= i <= |xs|
  {
    forall j :: 0 <= j < i ==> xs[j] in s.procs && s.procs[xs[j]].parent != p
  }
}
