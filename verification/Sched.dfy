/** The kernel's queues as doubly linked lists threaded through the processes, and the calls
    that move processes between them. */
module Sched {
  import opened SchedInv
  import opened SchedSpec
  import opened Seqs

  datatype Queue = Queue(front: int, back: int, size: int)

  datatype Links = Links(next: map<int, int>, prev: map<int, int>)

  ghost predicate NodeOk(l: Links, xs: seq<int>, i: nat)
    requires i < |xs|
  {
    && xs[i] != NONE && xs[i] in l.next && xs[i] in l.prev
    && l.next[xs[i]] == (if i + 1 < |xs| then xs[i + 1] else NONE)
    && l.prev[xs[i]] == (if i > 0 then xs[i - 1] else NONE)
  }

  /** Queue `q` links exactly the processes `xs`, front first. */
  ghost predicate DList(l: Links, q: Queue, xs: seq<int>) {
    && Distinct(xs) && q.size == |xs|
    && q.front == (if xs == [] then NONE else xs[0])
    && q.back == (if xs == [] then NONE else xs[|xs| - 1])
    && forall i :: 0 <= i < |xs| ==> NodeOk(l, xs, i)
  }

  // ----- inserting

  ghost function PushLinks(l: Links, q: Queue, p: int): Links {
    Links(l.next[p := q.front],
          if q.front != NONE then l.prev[p := NONE][q.front := p] else l.prev[p := NONE])
  }

  ghost function PushQueue(q: Queue, p: int): Queue {
    Queue(p, if q.front == NONE then p else q.back, q.size + 1)
  }

  lemma PushLinked(l: Links, q: Queue, xs: seq<int>, p: int)
    requires DList(l, q, xs) && p !in xs && p != NONE
    ensures DList(PushLinks(l, q, p), PushQueue(q, p), [p] + xs)
  {
    var ys, m := [p] + xs, PushLinks(l, q, p);
    PushDistinct(xs, p);
    if xs != [] { assert NodeOk(l, xs, 0); }
    hide Distinct;
    forall i | 0 <= i < |ys| ensures NodeOk(m, ys, i) {
      if i > 0 {
        assert NodeOk(l, xs, i - 1) && xs[i - 1] in xs;
        if i > 1 { Apart(xs, i - 1, 0); }
      }
    }
  }

  lemma Apart(xs: seq<int>, i: nat, j: nat)
    requires Distinct(xs) && i < |xs| && j < |xs| && i != j
    ensures xs[i] != xs[j]
  {
  }

  /** Lists that hold none of the nodes written stay as they were. */
  lemma OtherList(l: Links, m: Links, q: Queue, xs: seq<int>)
    requires DList(l, q, xs)
    requires forall x :: x in xs && x in l.next && x in l.prev ==> x in m.next && m.next[x] == l.next[x] && x in m.prev && m.prev[x] == l.prev[x]
    ensures DList(m, q, xs)
  {
    forall i | 0 <= i < |xs| ensures NodeOk(m, xs, i) {
      assert NodeOk(l, xs, i) && xs[i] in xs;
    }
  }

  // ----- removing

  ghost function RemoveLinks(l: Links, p: int): Links
    requires p in l.next && p in l.prev
  {
    var a, b := l.prev[p], l.next[p];
    Links(if a != NONE then l.next[a := b] else l.next, if b != NONE then l.prev[b := a] else l.prev)
  }

  ghost function RemoveQueue(l: Links, q: Queue, p: int): Queue
    requires p in l.next && p in l.prev
  {
    var a, b := l.prev[p], l.next[p];
    Queue(if a != NONE then q.front else b, if b != NONE then q.back else a, q.size - 1)
  }

  lemma RemoveNode(l: Links, xs: seq<int>, k: nat, i: nat)
    requires Distinct(xs) && k < |xs| && i < |xs| - 1 && NodeOk(l, xs, k)
    requires forall i :: 0 <= i < |xs| ==> NodeOk(l, xs, i)
    ensures NodeOk(RemoveLinks(l, xs[k]), xs[..k] + xs[k + 1..], i)
  {
    hide Distinct;
    var o := if i < k then i else i + 1;
    assert NodeOk(l, xs, o);
    if k > 0 && o != k - 1 { Apart(xs, o, k - 1); }
    if k + 1 < |xs| && o != k + 1 { Apart(xs, o, k + 1); }
    if k > 0 { assert NodeOk(l, xs, k - 1); }
    if k + 1 < |xs| { assert NodeOk(l, xs, k + 1); }
  }

  lemma RemoveEnds(l: Links, q: Queue, xs: seq<int>, k: nat)
    requires DList(l, q, xs) && k < |xs|
    ensures xs[k] in l.next && xs[k] in l.prev && Distinct(xs)
    ensures var ys, r := xs[..k] + xs[k + 1..], RemoveQueue(l, q, xs[k]);
      && r.size == |ys|
      && r.front == (if ys == [] then NONE else ys[0])
      && r.back == (if ys == [] then NONE else ys[|ys| - 1])
  {
    assert NodeOk(l, xs, k);
    hide Distinct;
    if k > 0 { assert NodeOk(l, xs, k - 1); }
    if k + 1 < |xs| { assert NodeOk(l, xs, k + 1); }
  }

  lemma Nodes(l: Links, q: Queue, xs: seq<int>, k: nat)
    requires DList(l, q, xs) && k < |xs|
    ensures NodeOk(l, xs, k) && forall i :: 0 <= i < |xs| ==> NodeOk(l, xs, i)
  {
  }

  lemma DListFrom(l: Links, q: Queue, xs: seq<int>)
    requires Distinct(xs) && q.size == |xs|
    requires q.front == (if xs == [] then NONE else xs[0])
    requires q.back == (if xs == [] then NONE else xs[|xs| - 1])
    requires forall i :: 0 <= i < |xs| ==> NodeOk(l, xs, i)
    ensures DList(l, q, xs)
  {
  }

  lemma RemoveLinked(l: Links, q: Queue, xs: seq<int>, k: nat)
    requires DList(l, q, xs) && k < |xs|
    ensures xs[k] in l.next && xs[k] in l.prev
    ensures DList(RemoveLinks(l, xs[k]), RemoveQueue(l, q, xs[k]), Minus(xs, xs[k]))
  {
    hide DList, Distinct, RemoveLinks, RemoveQueue, Minus, NodeOk;
    RemoveEnds(l, q, xs, k);
    MinusAt(xs, k);
    MinusDistinct(xs, xs[k]);
    Nodes(l, q, xs, k);
    var ys := xs[..k] + xs[k + 1..];
    forall i | 0 <= i < |ys| ensures NodeOk(RemoveLinks(l, xs[k]), ys, i) {
      RemoveNode(l, xs, k, i);
    }
    DListFrom(RemoveLinks(l, xs[k]), RemoveQueue(l, q, xs[k]), ys);
  }

  lemma Position(xs: seq<int>, p: int) returns (k: nat)
    requires p in xs
    ensures k < |xs| && xs[k] == p
  {
    k :| 0 <= k < |xs| && xs[k] == p;
  }

  // ----- all four queues

  ghost predicate Lists(l: Links, queues: map<QName, Queue>, qs: Queues) {
    && (forall n :: n != NoQ ==> n in queues && DList(l, queues[n], qs.Get(n)))
    && (forall m, n, x :: m != n && x in qs.Get(m) ==> x !in qs.Get(n))
  }

  ghost predicate Nowhere(qs: Queues, p: int) {
    forall n :: p !in qs.Get(n)
  }

  lemma PushLists(l: Links, queues: map<QName, Queue>, qs: Queues, n: QName, p: int)
    requires Lists(l, queues, qs) && n != NoQ && p != NONE && Nowhere(qs, p)
    ensures n in queues
    ensures Lists(PushLinks(l, queues[n], p), queues[n := PushQueue(queues[n], p)], Pushed(qs, n, p))
  {
    hide DList;
    var l', qs' := PushLinks(l, queues[n], p), Pushed(qs, n, p);
    PushLinked(l, queues[n], qs.Get(n), p);
    FrontIn(l, queues[n], qs.Get(n));
    forall m | m != NoQ ensures DList(l', queues[n := PushQueue(queues[n], p)][m], qs'.Get(m)) {
      GetSet(qs, n, m, [p] + qs.Get(n));
      if m != n { OtherList(l, l', queues[m], qs.Get(m)); }
    }
    forall m, k, x | m != k && x in qs'.Get(m) ensures x !in qs'.Get(k) {
      GetSet(qs, n, m, [p] + qs.Get(n));
      GetSet(qs, n, k, [p] + qs.Get(n));
    }
  }

  lemma FrontIn(l: Links, q: Queue, xs: seq<int>)
    requires DList(l, q, xs)
    ensures q.front != NONE ==> xs != [] && q.front == xs[0] && q.front in xs
    ensures q.front == NONE ==> xs == []
    ensures q.back != NONE ==> xs != [] && q.back == xs[|xs| - 1] && q.back in xs
    ensures q.back == NONE ==> xs == []
  {
    if xs != [] { assert NodeOk(l, xs, 0) && NodeOk(l, xs, |xs| - 1); }
  }

  lemma RemoveLists(l: Links, queues: map<QName, Queue>, qs: Queues, n: QName, p: int)
    requires Lists(l, queues, qs) && n != NoQ && p in qs.Get(n)
    ensures n in queues && p in l.next && p in l.prev
    ensures Lists(RemoveLinks(l, p), queues[n := RemoveQueue(l, queues[n], p)], qs.Set(n, Minus(qs.Get(n), p)))
    ensures Nowhere(qs.Set(n, Minus(qs.Get(n), p)), p)
  {
    hide DList, Minus;
    var k := Position(qs.Get(n), p);
    RemoveLinked(l, queues[n], qs.Get(n), k);
    NeighboursIn(l, queues[n], qs.Get(n), k);
    var l', qs' := RemoveLinks(l, p), qs.Set(n, Minus(qs.Get(n), p));
    MinusDistinct(qs.Get(n), p);
    forall m | m != NoQ ensures DList(l', queues[n := RemoveQueue(l, queues[n], p)][m], qs'.Get(m)) {
      GetSet(qs, n, m, Minus(qs.Get(n), p));
      if m != n { OtherList(l, l', queues[m], qs.Get(m)); }
    }
    forall m ensures p !in qs'.Get(m) {
      GetSet(qs, n, m, Minus(qs.Get(n), p));
    }
    forall m, k, x | m != k && x in qs'.Get(m) ensures x !in qs'.Get(k) {
      GetSet(qs, n, m, Minus(qs.Get(n), p));
      GetSet(qs, n, k, Minus(qs.Get(n), p));
    }
  }

  lemma NeighboursIn(l: Links, q: Queue, xs: seq<int>, k: nat)
    requires DList(l, q, xs) && k < |xs|
    ensures xs[k] in l.next && xs[k] in l.prev && Distinct(xs)
    ensures l.next[xs[k]] != NONE ==> l.next[xs[k]] in xs
    ensures l.prev[xs[k]] != NONE ==> l.prev[xs[k]] in xs
  {
    assert NodeOk(l, xs, k);
  }

  class Kernel {
    var procs: map<int, Proc>
    var next: map<int, int>
    var prev: map<int, int>
    var queues: map<QName, Queue>
    var running: int
    var nextPid: int
    ghost var qs: Queues

    ghost function State(): Sys
      reads this
    {
      Sys(procs, qs, running, nextPid)
    }

    ghost predicate Valid()
      reads this
    {
      Lists(Links(next, prev), queues, qs) && Inv(State())
    }

    constructor ()
      ensures State() == Boot() && Valid()
    {
      procs := map[0 := Proc(NONE, 0, Runnable, NoQ, false)];
      next, prev := map[0 := NONE], map[0 := NONE];
      queues := map[RunQ := Queue(0, 0, 1), ExitQ := Queue(NONE, NONE, 0), TicksQ := Queue(NONE, NONE, 0),
                    WaitQ := Queue(NONE, NONE, 0)];
      running, nextPid := NONE, 1;
      qs := Queues([0], [], [], []);
      new;
      BootInv();
      assert NodeOk(Links(next, prev), [0], 0);
    }

    method PushFront(n: QName, p: int)
      requires Lists(Links(next, prev), queues, qs) && n != NoQ && p != NONE && Nowhere(qs, p)
      modifies this`next, this`prev, this`queues, this`qs
      ensures qs == Pushed(old(qs), n, p) && Lists(Links(next, prev), queues, qs)
    {
      hide Lists, Nowhere;
      PushLists(Links(next, prev), queues, qs, n, p);
      ghost var l := Links(next, prev);
      var q := queues[n];
      next := next[p := q.front];
      prev := prev[p := NONE];
      var back := q.back;
      if q.front != NONE {
        prev := prev[q.front := p];
      } else {
        back := p;
      }
      queues := queues[n := Queue(p, back, q.size + 1)];
      qs := Pushed(qs, n, p);
      assert Links(next, prev) == PushLinks(l, q, p) && queues[n] == PushQueue(q, p);
    }

    method Remove(n: QName, p: int)
      requires Lists(Links(next, prev), queues, qs) && n != NoQ && p in qs.Get(n)
      modifies this`next, this`prev, this`queues, this`qs
      ensures qs == old(qs).Set(n, Minus(old(qs).Get(n), p)) && Lists(Links(next, prev), queues, qs)
      ensures Nowhere(qs, p)
    {
      hide Lists, Nowhere, Minus;
      RemoveLists(Links(next, prev), queues, qs, n, p);
      ghost var l := Links(next, prev);
      var q := queues[n];
      var a, b := prev[p], next[p];
      var front, back := q.front, q.back;
      if b != NONE {
        prev := prev[b := a];
      } else {
        back := a;
      }
      if a != NONE {
        next := next[a := b];
      } else {
        front := b;
      }
      queues := queues[n := Queue(front, back, q.size - 1)];
      qs := qs.Set(n, Minus(qs.Get(n), p));
      assert Links(next, prev) == RemoveLinks(l, p) && queues[n] == RemoveQueue(l, q, p);
    }

    method PopBack(n: QName) returns (p: int)
      requires Lists(Links(next, prev), queues, qs) && n != NoQ
      modifies this`next, this`prev, this`queues, this`qs
      ensures Lists(Links(next, prev), queues, qs)
      ensures old(qs).Get(n) == [] ==> p == NONE && qs == old(qs)
      ensures old(qs).Get(n) != [] ==> p == old(qs).Get(n)[|old(qs).Get(n)| - 1] && p != NONE
      ensures old(qs).Get(n) != [] ==> qs == old(qs).Set(n, old(qs).Get(n)[..|old(qs).Get(n)| - 1])
    {
      hide Lists, Minus, Distinct;
      QueueAt(Links(next, prev), queues, qs, n);
      if queues[n].back == NONE {
        return NONE;
      }
      p := queues[n].back;
      LastWithout(qs.Get(n));
      Remove(n, p);
    }

    method Wake(n: QName, p: int)
      requires Lists(Links(next, prev), queues, qs) && (n == TicksQ || n == WaitQ) && p in qs.Get(n)
      requires p in procs && procs[p].state == Blocked && p != NONE
      modifies this`next, this`prev, this`queues, this`qs, this`procs
      ensures Lists(Links(next, prev), queues, qs)
      ensures State() == Woken(old(State()), n, p)
    {
      hide Lists, Minus;
      Remove(n, p);
      procs := procs[p := procs[p].(state := Runnable)];
      PushFront(RunQ, p);
    }

    /** Wakes the sleepers, from the front. */
    method WakeAll()
      requires Valid()
      modifies this`next, this`prev, this`queues, this`qs, this`procs
      ensures Lists(Links(next, prev), queues, qs)
      ensures procs == AllWoken(old(procs), old(qs).ticks)
      ensures qs == old(qs).(ticks := [], run := Backward(old(qs).ticks) + old(qs).run)
      // before all that were runnable, the front sleeper next to them
      ensures |qs.run| == |old(qs).ticks| + |old(qs).run| && qs.run[|old(qs).ticks|..] == old(qs).run
      ensures forall k :: 0 <= k < |old(qs).ticks| ==> qs.run[k] == old(qs).ticks[|old(qs).ticks| - 1 - k]
    {
      hide Lists, Minus, Inv, AllWoken, Distinct;
      ghost var ts, i := qs.ticks, 0;
      Sleepers(State());
      QueueAt(Links(next, prev), queues, qs, TicksQ);
      NoneWoken(procs, ts);
      assert [] + qs.run == qs.run;
      while queues[TicksQ].front != NONE
        invariant Lists(Links(next, prev), queues, qs) && TicksQ in queues
        invariant 0 <= i <= |ts| && procs == AllWoken(old(procs), ts[..i])
        invariant qs == old(qs).(ticks := ts[i..], run := Backward(ts[..i]) + old(qs).run)
        invariant queues[TicksQ].front == if i < |ts| then ts[i] else NONE
        invariant forall k :: i <= k < |ts| ==> ts[k] in procs && procs[ts[k]].state == Blocked && ts[k] != NONE
        invariant Distinct(ts)
        decreases |ts| - i
      {
        FrontWithout(ts, i);
        OneMore(old(procs), ts, i);
        Wake(TicksQ, queues[TicksQ].front);
        BackwardNext(ts, i, old(qs).run);
        i := i + 1;
        QueueAt(Links(next, prev), queues, qs, TicksQ);
      }
      assert ts[..i] == ts && ts[i..] == [];
      WokenOrder(ts, old(qs).run);
    }

    /** The running process goes to a queue and gives up the core. */
    method Stop(n: QName, st: PState)
      requires Lists(Links(next, prev), queues, qs) && n != NoQ
      requires running != NONE && running in procs && Nowhere(qs, running)
      modifies this
      ensures Lists(Links(next, prev), queues, qs)
      ensures State() == Stopped(old(State()), n, st)
    {
      hide Lists, Nowhere;
      procs := procs[running := procs[running].(state := st, wq := n)];
      PushFront(n, running);
      running := NONE;
    }

    /** The scheduler takes the process at the back of the run queue, if there is one. */
    method Schedule() returns (picked: bool)
      requires Valid() && running == NONE
      modifies this
      ensures Valid() && picked == (old(qs).run != [])
      ensures State() == if picked then Next(old(State()), Pick) else old(State())
    {
      hide Lists, Inv;
      if qs.run != [] { InvStep(State(), Pick); }
      var p := PopBack(RunQ);
      picked := p != NONE;
      if picked { running := p; }
    }

    /** `ok` tells whether memory for the child could be had. */
    method SysFork(end: ForkEnd) returns (pid: int)
      requires Valid() && Enabled(State(), Fork(end))
      modifies this
      ensures Valid() && State() == Next(old(State()), Fork(end))
      ensures pid == if end == Made then old(nextPid) else -12
    {
      hide Lists, Inv, Nowhere;
      InvStep(State(), Fork(end));
      NewNowhere(State());
      if end == NotMade { return -12; }
      var c := nextPid;
      nextPid := nextPid + 1;
      if end == Dropped { return -12; }
      procs := procs[running := procs[running].(children := procs[running].children + 1)];
      procs := procs[c := Proc(running, 0, Runnable, NoQ, false)];
      PushFront(RunQ, c);
      return c;
    }

    /** Walks the exit queue for a child of `p`. */
    method FindChild(p: int) returns (z: int)
      requires Valid()
      ensures z == FirstZombie(State(), qs.exit, p)
      // a child of `p` with none before it in the queue, or none at all
      ensures z == NONE ==> NoneBefore(State(), qs.exit, |qs.exit|, p)
      ensures z != NONE ==> exists i :: 0 <= i < |qs.exit| && qs.exit[i] == z && NoneBefore(State(), qs.exit, i, p)
      ensures z != NONE ==> z in procs && procs[z].parent == p
    {
      hide Lists, Inv, NoneBefore;
      FirstExited(State(), p);
      QueueAt(Links(next, prev), queues, qs, ExitQ);
      ExitProcs(State());
      z := queues[ExitQ].front;
      ghost var xs, i := qs.exit, 0;
      assert xs[0..] == xs;
      while z != NONE
        invariant 0 <= i <= |xs| && z == if i < |xs| then xs[i] else NONE
        invariant FirstZombie(State(), xs[i..], p) == FirstZombie(State(), xs, p)
        decreases |xs| - i
      {
        if procs[z].parent == p {
          return z;
        }
        NextOf(Links(next, prev), queues, qs, ExitQ, i);
        assert xs[i..][1..] == xs[i + 1..] && xs[i..][0] == xs[i];
        z := next[z];
        i := i + 1;
      }
    }

    /** One round of `sys_wait`: -10 without children, the pid of an exited child, or, blocked,
        nothing yet (-1). */
    method SysWait() returns (pid: int)
      requires Valid() && Enabled(State(), Wait)
      modifies this
      ensures Valid() && State() == Next(old(State()), Wait)
      ensures pid == if !old(procs[running].inWait) && old(procs[running].children) == 0 then -10
                     else FirstZombie(old(State()), old(qs).exit, old(running))
      // a child that has exited is reaped, or the caller waits, having children but none that has
      ensures pid >= 0 ==> Zombie(old(State()), old(running), pid) && procs.Keys == old(procs).Keys - {pid}
      ensures pid >= 0 || pid == -10 ==> running == old(running)
      ensures pid == -1 ==> running == NONE && old(running) in qs.wait
      ensures pid == -1 ==> forall z :: !Zombie(old(State()), old(running), z)
    {
      hide Lists, Inv, Nowhere, Minus, FirstZombie;
      SearchFinds(State(), running) by { InvCore(State()); }
      InvStep(State(), Wait);
      RunningNowhere(State());
      var p := running;
      if !procs[p].inWait && procs[p].children == 0 {
        return -10;
      }
      var z := FindChild(p);
      if z != NONE {
        Remove(ExitQ, z);
        ReapOrder(procs, p, z, procs[p].(children := procs[p].children - 1, inWait := false));
        procs := procs - {z};
        procs := procs[p := procs[p].(children := procs[p].children - 1, inWait := false)];
        return z;
      }
      procs := procs[p := procs[p].(inWait := true)];
      Stop(WaitQ, Blocked);
      return z;
    }

    method SysExit()
      requires Valid() && Enabled(State(), Exit)
      modifies this
      ensures Valid() && State() == Next(old(State()), Exit)
      ensures running == NONE && old(running) in qs.exit
    {
      hide Lists, Inv, Nowhere, Minus;
      InvStep(State(), Exit);
      RunningNowhere(State());
      var parent := procs[running].parent;
      if parent in procs && procs[parent].state == Blocked && procs[parent].wq == WaitQ {
        WaiterQueued(State(), parent);
        Wake(WaitQ, parent);
        StillNowhere(old(State()), parent, running);
      }
      Stop(ExitQ, Exited);
    }

    /** One turn of the loop, `since` microseconds after the call: done, or one more sleep. */
    method SysUsleep(since: nat, us: nat) returns (done: bool)
      requires Valid() && Enabled(State(), Sleep)
      modifies this
      ensures Valid() && done == (since >= us)
      ensures State() == if done then old(State()) else Next(old(State()), Sleep)
      ensures !done ==> running == NONE && old(running) in qs.ticks
    {
      hide Lists, Inv, Nowhere;
      InvStep(State(), Sleep);
      RunningNowhere(State());
      done := since >= us;
      if done { return; }
      Stop(TicksQ, Blocked);
    }

    /** A timer interrupt, in the idle scheduler or in a process, which then yields. */
    method IrqTimer()
      requires Valid() && Enabled(State(), Timer)
      modifies this
      ensures Valid() && State() == Next(old(State()), Timer)
      ensures running == NONE && (old(running) != NONE ==> Ahead(State(), old(running), |qs.run|))
    {
      hide Lists, Inv, Nowhere, AllWoken;
      InvStep(State(), Timer);
      RunningNowhere(State());
      TickNowhere(State());
      WakeAll();
      if running != NONE {
        PushFront(RunQ, running);
        running := NONE;
      }
    }
  }

  lemma RunningNowhere(s: Sys)
    requires Inv(s)
    ensures s.running in s.procs <==> s.running != NONE
    ensures s.running in s.procs ==> Nowhere(s.qs, s.running)
  {
    forall n | s.running in s.procs ensures s.running !in s.qs.Get(n) {
      OnePlace(s, s.running, n);
    }
  }

  lemma NewNowhere(s: Sys)
    requires Inv(s)
    ensures s.nextPid !in s.procs && s.nextPid != NONE && Nowhere(s.qs, s.nextPid)
  {
    NoKids(s, s.nextPid);
    forall n ensures s.nextPid !in s.qs.Get(n) {
      assert QueueOk(s, n);
    }
  }

  lemma ExitProcs(s: Sys)
    requires Inv(s)
    ensures forall i :: 0 <= i < |s.qs.exit| ==> s.qs.exit[i] in s.procs
  {
    assert QueueOk(s, ExitQ);
    forall i | 0 <= i < |s.qs.exit| ensures s.qs.exit[i] in s.procs {
      assert s.qs.exit[i] in s.qs.Get(ExitQ);
      assert Fits(s, s.qs.exit[i], ExitQ);
    }
  }

  lemma InvCore(s: Sys)
    requires Inv(s)
    ensures Core(s)
  {
  }

  lemma FirstExited(s: Sys, p: int)
    requires Inv(s)
    ensures var z := FirstZombie(s, s.qs.exit, p);
      if z == NONE then NoneBefore(s, s.qs.exit, |s.qs.exit|, p)
      else z in s.procs && s.procs[z].parent == p
           && exists i :: 0 <= i < |s.qs.exit| && s.qs.exit[i] == z && NoneBefore(s, s.qs.exit, i, p)
  {
    PidsPositive(s);
    ExitProcs(s);
    hide Inv;
    FirstInQueue(s, s.qs.exit, p);
  }

  lemma ReapOrder(procs: map<int, Proc>, p: int, z: int, v: Proc)
    requires p != z
    ensures (procs - {z})[p := v] == procs[p := v] - {z}
  {
  }

  lemma NextOf(l: Links, queues: map<QName, Queue>, qs: Queues, n: QName, i: nat)
    requires Lists(l, queues, qs) && n != NoQ && i < |qs.Get(n)|
    ensures qs.Get(n)[i] in l.next
    ensures l.next[qs.Get(n)[i]] == if i + 1 < |qs.Get(n)| then qs.Get(n)[i + 1] else NONE
  {
    Nodes(l, queues[n], qs.Get(n), i);
  }

  lemma WaiterQueued(s: Sys, p: int)
    requires Inv(s) && Waiting(s, p)
    ensures p in s.qs.wait && p != NONE
  {
    OnePlace(s, p, WaitQ);
    assert p in s.qs.Get(WaitQ);
  }

  lemma StillNowhere(s: Sys, q: int, p: int)
    requires Inv(s) && Waiting(s, q) && p == s.running && p in s.procs
    ensures p != q && Nowhere(Woken(s, WaitQ, q).qs, p)
  {
    RunningNowhere(s);
    assert QueueOk(s, WaitQ);
    MinusDistinct(s.qs.wait, q);
    var t := Woken(s, WaitQ, q);
    forall n ensures p !in t.qs.Get(n) {
      assert p !in s.qs.Get(n) && p !in s.qs.Get(WaitQ);
    }
  }

  lemma TickNowhere(s: Sys)
    requires Inv(s)
    ensures s.running in s.procs ==> Nowhere(s.qs.(ticks := [], run := Backward(s.qs.ticks) + s.qs.run), s.running)
  {
    RunningNowhere(s);
    assert QueueOk(s, TicksQ);
    BackwardIn(s.qs.ticks);
    if s.running in s.procs {
      assert s.running !in s.qs.Get(TicksQ) && s.running !in s.qs.Get(RunQ);
      forall n ensures s.running !in s.qs.(ticks := [], run := Backward(s.qs.ticks) + s.qs.run).Get(n) {
        assert s.running !in s.qs.Get(n);
      }
    }
  }

  lemma QueueAt(l: Links, queues: map<QName, Queue>, qs: Queues, n: QName)
    requires Lists(l, queues, qs) && n != NoQ
    ensures n in queues && Distinct(qs.Get(n))
    ensures queues[n].back == (if qs.Get(n) == [] then NONE else qs.Get(n)[|qs.Get(n)| - 1])
    ensures queues[n].front == (if qs.Get(n) == [] then NONE else qs.Get(n)[0])
    ensures NONE !in qs.Get(n)
  {
    forall i | 0 <= i < |qs.Get(n)| ensures qs.Get(n)[i] != NONE {
      Nodes(l, queues[n], qs.Get(n), i);
    }
  }

  lemma LastWithout(xs: seq<int>)
    requires xs != [] && Distinct(xs)
    ensures Minus(xs, xs[|xs| - 1]) == xs[..|xs| - 1]
  {
    MinusAt(xs, |xs| - 1);
    assert xs[|xs|..] == [];
  }

  lemma FrontWithout(ts: seq<int>, i: nat)
    requires i < |ts| && Distinct(ts)
    ensures Minus(ts[i..], ts[i]) == ts[i + 1..] && ts[i] in ts[i..]
  {
    assert ts[i..][1..] == ts[i + 1..];
    assert ts[i..][0] == ts[i];
  }

  lemma WokenOrder(ts: seq<int>, run: seq<int>)
    ensures var r := Backward(ts) + run;
      |r| == |ts| + |run| && r[|ts|..] == run && forall k :: 0 <= k < |ts| ==> r[k] == ts[|ts| - 1 - k]
  {
    if ts != [] { BackwardAt(ts, 0); }
    forall k | 0 <= k < |ts| ensures (Backward(ts) + run)[k] == ts[|ts| - 1 - k] { BackwardAt(ts, k); }
  }

  lemma NoneWoken(procs: map<int, Proc>, ts: seq<int>)
    ensures AllWoken(procs, ts[..0]) == procs
  {
  }

  /** Sleepers are blocked processes. */
  lemma Sleepers(s: Sys)
    requires Inv(s)
    ensures forall k :: 0 <= k < |s.qs.ticks| ==> s.qs.ticks[k] in s.procs && s.procs[s.qs.ticks[k]].state == Blocked
    ensures forall k :: 0 <= k < |s.qs.ticks| ==> s.qs.ticks[k] != NONE
  {
    PidsPositive(s);
    assert QueueOk(s, TicksQ);
    forall k | 0 <= k < |s.qs.ticks| ensures s.qs.ticks[k] in s.procs && s.procs[s.qs.ticks[k]].state == Blocked {
      assert s.qs.ticks[k] in s.qs.Get(TicksQ);
      assert Fits(s, s.qs.ticks[k], TicksQ);
    }
  }

  lemma OneMore(procs: map<int, Proc>, ts: seq<int>, i: nat)
    requires i < |ts| && Distinct(ts) && ts[i] in AllWoken(procs, ts[..i])
    ensures var m := AllWoken(procs, ts[..i]);
      AllWoken(procs, ts[..i + 1]) == m[ts[i] := m[ts[i]].(state := Runnable)]
    ensures var m := AllWoken(procs, ts[..i + 1]);
      forall k :: i < k < |ts| && ts[k] in procs ==> ts[k] in m && m[ts[k]] == AllWoken(procs, ts[..i])[ts[k]]
  {
    assert ts[..i + 1] == ts[..i] + [ts[i]];
    forall k | i < k < |ts| && ts[k] in procs ensures ts[k] !in ts[..i + 1] {}
  }

  lemma {:induction false} BackwardSnoc(xs: seq<int>, y: int)
    ensures Backward(xs + [y]) == [y] + Backward(xs)
  {
    if xs != [] {
      assert (xs + [y])[1..] == xs[1..] + [y];
      BackwardSnoc(xs[1..], y);
      assert ([y] + Backward(xs[1..])) + [xs[0]] == [y] + Backward(xs);
    } else {
      assert [y][1..] == [];
    }
  }

  lemma BackwardNext(ts: seq<int>, i: nat, run: seq<int>)
    requires i < |ts|
    ensures [ts[i]] + (Backward(ts[..i]) + run) == Backward(ts[..i + 1]) + run
  {
    assert ts[..i + 1] == ts[..i] + [ts[i]];
    BackwardSnoc(ts[..i], ts[i]);
  }
}
