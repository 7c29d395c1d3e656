/** The kernel's handling of shared pages: fork, the page-fault handler, user stores and
    process teardown, as methods that update page tables, counts and memory in place. */
module Cow {
  import opened CowSpec

  /** `order` is what the page-table iterator yields: every entry once. */
  ghost predicate Enumerates(order: seq<Va>, t: Table) {
    && (forall i, j :: 0 <= i < j < |order| ==> order[i] != order[j])
    && (forall va :: va in order <==> va in t)
  }

  ghost function Seen(order: seq<Va>, i: nat): set<Va>
    requires i <= |order|
  {
    set j | 0 <= j < i :: order[j]
  }

  lemma {:induction false} SeenNext(order: seq<Va>, t: Table, i: nat)
    requires Enumerates(order, t) && i < |order|
    ensures Seen(order, i + 1) == Seen(order, i) + {order[i]}
    ensures order[i] in t && order[i] !in Seen(order, i)
  {
    assert order[i] in order;
  }

  lemma {:induction false} SeenAll(order: seq<Va>, t: Table)
    requires Enumerates(order, t)
    ensures Seen(order, |order|) == t.Keys
  {
    forall va | va in t.Keys ensures va in Seen(order, |order|) {
      assert va in order;
    }
    forall va | va in Seen(order, |order|) ensures va in t.Keys {
      assert va in order;
    }
  }

  lemma Untouched(t: Table, done: set<Va>, va: Va)
    requires va in t && va !in done
    ensures va in ParentTable(t, done) && ParentTable(t, done)[va] == t[va]
  {
  }

  lemma {:induction false} RecountStep(refcnt: map<int, nat>, t: Table, done: set<Va>, va: Va)
    requires va in t && va !in done && t[va].perm.u && t[va].page in refcnt
    ensures var r := Recount(refcnt, t, done);
      r[t[va].page := r[t[va].page] + 1] == Recount(refcnt, t, done + {va})
  {
    hide Hits;
    forall g | g in refcnt
      ensures |Hits(t, done + {va}, g)| == |Hits(t, done, g)| + if g == t[va].page then 1 else 0
    {
      HitsStep(t, done, va, g);
    }
  }

  lemma HitsStep(t: Table, done: set<Va>, va: Va, g: int)
    requires va in t && va !in done && t[va].perm.u
    ensures va !in Hits(t, done, g)
    ensures Hits(t, done + {va}, g) == if g == t[va].page then Hits(t, done, g) + {va} else Hits(t, done, g)
  {
  }

  /** One more user entry shared: one table entry on each side and one more count. */
  lemma {:induction false} ShareStep(refcnt: map<int, nat>, t: Table, done: set<Va>, va: Va)
    requires va in t && va !in done && t[va].perm.u && t[va].page in refcnt
    ensures ParentTable(t, done)[va := Share(t[va])] == ParentTable(t, done + {va})
    ensures ChildTable(t, done)[va := Pte(t[va].page, URX_COW)] == ChildTable(t, done + {va})
    ensures var r := Recount(refcnt, t, done);
      r[t[va].page := r[t[va].page] + 1] == Recount(refcnt, t, done + {va})
  {
    RecountStep(refcnt, t, done, va);
  }

  lemma {:induction false} SkipStep(refcnt: map<int, nat>, t: Table, done: set<Va>, va: Va)
    requires va in t && va !in done && !t[va].perm.u
    ensures ParentTable(t, done) == ParentTable(t, done + {va})
    ensures ChildTable(t, done) == ChildTable(t, done + {va})
    ensures Recount(refcnt, t, done) == Recount(refcnt, t, done + {va})
  {
    forall g ensures Hits(t, done + {va}, g) == Hits(t, done, g) {}
  }

  lemma {:induction false} NothingShared(refcnt: map<int, nat>, t: Table)
    ensures ParentTable(t, {}) == t && ChildTable(t, {}) == map[] && Recount(refcnt, t, {}) == refcnt
  {
    assert forall g :: Hits(t, {}, g) == {};
  }

  lemma UserPagesCounted(s: Machine, p: Pid)
    requires Inv(s) && p in s.procs
    ensures forall va :: va in s.procs[p] ==> s.procs[p][va].page in s.refcnt
    ensures forall done :: Recount(s.refcnt, s.procs[p], done).Keys == s.refcnt.Keys
    ensures forall done :: ParentTable(s.procs[p], done).Keys == s.procs[p].Keys
  {
    assert forall va :: va in s.procs[p] ==> Mapped(s, p, va);
  }

  lemma Overwrite(procs: map<Pid, Table>, p: Pid, a: Table, b: Table)
    ensures procs[p := a][p := b] == procs[p := b]
  {
  }

  class Kernel {
    var procs: map<Pid, Table>
    var refcnt: map<int, nat>
    var mem: map<int, Frame>

    ghost function State(): Machine
      reads this
    {
      Machine(procs, refcnt, mem)
    }

    /** No processes yet; every frame of memory has a count. */
    constructor (frames: map<int, Frame>)
      requires forall g :: g in frames ==> |frames[g]| == PAGE_SIZE
      ensures Inv(State()) && AllForUser(State()) && Abs(State()) == map[]
    {
      procs := map[];
      mem := frames;
      refcnt := map g | g in frames :: 0;
      new;
      assert forall g :: Refs(State(), g) == {};
    }

    /** Enters `va` into the table `t` and counts the page; entering may fail for lack of memory. */
    method Mappg(t: Table, va: Va, page: int, perm: Perm) returns (ok: bool, t': Table)
      requires page in refcnt
      modifies this`refcnt
      ensures ok ==> t' == t[va := Pte(page, perm)] && refcnt == old(refcnt)[page := old(refcnt)[page] + 1]
      ensures !ok ==> t' == t && refcnt == old(refcnt)
    {
      if * {
        return false, t;
      }
      t' := t[va := Pte(page, perm)];
      refcnt := refcnt[page := refcnt[page] + 1];
      ok := true;
    }

    /** Repairs a write to a copy-on-write page or reports that the process is to be killed.
        `page` is what the allocator hands out should a copy be needed. */
    method PageFault(p: Pid, addr: Va, fault: Access, page: int) returns (killed: bool)
      requires Inv(State()) && p in procs && Fresh(State(), page)
      modifies this
      ensures Inv(State()) && Abs(State()) == Abs(old(State()))
      ensures var va := addr - addr % PAGE_SIZE;
        && (killed <==> !Repairable(old(State()), p, va, fault))
        && State() == if killed then old(State()) else Repair(old(State()), p, va, page)
      ensures !killed ==> Writable(State(), p, addr - addr % PAGE_SIZE)
      ensures forall q, vb :: Executable(State(), q, vb) <==> Executable(old(State()), q, vb)
    {
      hide Abs, Counted, Exclusive, Refs, Executable;
      var pgaddr := addr - addr % PAGE_SIZE;
      if pgaddr !in procs[p] || !procs[p][pgaddr].perm.u {
        return true;
      }
      var map_ := procs[p][pgaddr];
      if fault == Write && map_.perm.cow && map_.perm.r {
        RepairKeeps(State(), p, pgaddr, page);
        RepairExecs(State(), p, pgaddr, page);
        MappedIsCounted(State(), p, pgaddr);
        if refcnt[map_.page] == 1 {
          map_ := map_.(perm := map_.perm.(cow := false).(w := true));
          procs := procs[p := procs[p][pgaddr := map_]];
          return false;
        }
        refcnt := refcnt[map_.page := refcnt[map_.page] - 1];
        mem := mem[page := mem[map_.page]];
        map_ := map_.(perm := map_.perm.(cow := false).(w := true));
        map_ := map_.(page := page);
        procs := procs[p := procs[p][pgaddr := map_]];
        refcnt := refcnt[map_.page := refcnt[map_.page] + 1];
        return false;
      }
      return true;
    }

    /** Forks `p` into `c`, sharing every user page; a failed fork leaves no child. */
    method MakeFromParent(p: Pid, c: Pid, order: seq<Va>) returns (ok: bool)
      requires Inv(State()) && p in procs && c !in procs && Enumerates(order, procs[p])
      modifies this
      ensures Inv(State())
      ensures ok ==> State() == Fork(old(State()), p, c) && Abs(State()) == Abs(old(State()))[c := Abs(old(State()))[p]]
      ensures !ok ==> Abs(State()) == Abs(old(State())) && procs.Keys == old(procs).Keys
      ensures !ok ==> exists changed, mapped :: State() == FailedFork(old(State()), p, changed, mapped)
    {
      hide Abs, Inv, ParentTable, ChildTable, Recount, Enumerates;
      ghost var s, t := State(), procs[p];
      NothingShared(refcnt, t);
      assert s.procs == s.procs[p := t] && Seen(order, 0) == {};
      UserPagesCounted(s, p);
      var child: Table := map[];
      for i := 0 to |order|
        invariant mem == s.mem && procs == s.procs[p := ParentTable(t, Seen(order, i))]
        invariant refcnt == Recount(s.refcnt, t, Seen(order, i))
        invariant child == ChildTable(t, Seen(order, i))
      {
        var va := order[i];
        ghost var done := Seen(order, i);
        SeenNext(order, t, i);
        Untouched(t, done, va);
        var e := procs[p][va];
        if !e.perm.u {
          SkipStep(s.refcnt, t, done, va);
        } else {
          ShareStep(s.refcnt, t, done, va);
          Overwrite(s.procs, p, ParentTable(t, done), ParentTable(t, done + {va}));
          procs := procs[p := procs[p][va := e.(perm := e.perm.(w := false).(cow := true))]];
          var mapped;
          mapped, child := Mappg(child, va, e.page, Perm(true, false, true, true, true));
          if !mapped {
            FailedForkInv(s, p, done + {va}, done);
            assert State() == FailedFork(s, p, done + {va}, done);
            return false;
          }
        }
      }
      SeenAll(order, t);
      procs := procs[c := child];
      ForkCopies(s, p, c);
      return true;
    }

    /** A store instruction: it goes through, or faults and is retried after the handler. */
    method UserStore(p: Pid, va: Va, off: nat, b: bv8, page: int) returns (killed: bool)
      requires Inv(State()) && p in procs && va % PAGE_SIZE == 0 && off < PAGE_SIZE && Fresh(State(), page)
      modifies this
      ensures Inv(State()) && State() == Attempt(old(State()), p, va, off, b, page)
      ensures killed <==> !Storable(old(State()), p, va)
      ensures killed ==> State() == old(State())
      ensures !killed ==>
                var a := Abs(old(State()));
                p in a && va in a[p] && |a[p][va]| == PAGE_SIZE && Writable(State(), p, va) && Storable(State(), p, va)
                && Abs(State()) == a[p := a[p][va := a[p][va][off := b]]]
    {
      hide Abs, Counted, Exclusive, Refs, Fresh, Repair;
      AttemptIsolated(State(), p, va, off, b, page);
      if !(va in procs[p] && procs[p][va].perm.u && procs[p][va].perm.w) {
        assert (va + off) - (va + off) % PAGE_SIZE == va;
        killed := PageFault(p, va + off, Write, page);
        if killed {
          return;
        }
      }
      assert Mapped(State(), p, va);
      var g := procs[p][va].page;
      mem := mem[g := mem[g][off := b]];
      return false;
    }

    /** Teardown walks the table for pages to free; none has count zero, so it frees nothing. */
    method Destroy(p: Pid, order: seq<Va>) returns (freed: set<int>)
      requires Inv(State()) && p in procs && Enumerates(order, procs[p])
      modifies this
      ensures freed == {}
      ensures State() == Drop(old(State()), p)
      ensures Inv(State()) && Abs(State()) == Abs(old(State())) - {p}
    {
      freed := {};
      for i := 0 to |order|
        invariant freed == {} && unchanged(this)
      {
        assert order[i] in order;
        var e := procs[p][order[i]];
        MappedIsCounted(State(), p, order[i]);
        if refcnt[e.page] == 0 {
          freed := freed + {e.page};
        }
      }
      DropKeeps(State(), p);
      procs := procs - {p};
    }
  }

  // ----- whole runs

  /** `Stored`, `Fetched` and `Executed` are what instructions of process `p` do, whatever comes of
      it: a store that may fault first, with `n` the page to copy into, a load, and the fetch of the
      instruction itself, which may fault too. */
  datatype Event =
    | Forked(p: Pid, c: Pid)
    | ForkFailed(p: Pid, changed: set<Va>, mapped: set<Va>)
    | Faulted(p: Pid, va: Va, a: Access, n: int)
    | Stored(p: Pid, va: Va, off: nat, b: bv8, n: int)
    | Fetched(p: Pid, va: Va, off: nat)
    | Executed(p: Pid, va: Va, n: int)
    | Spawned(p: Pid)
    | Loaded(p: Pid, va: Va, n: int, perm: Perm, data: Frame)
    | Destroyed(p: Pid)

  ghost predicate Enabled(s: Machine, e: Event) {
    Backed(s) &&
    match e
    case Forked(p, c) => p in s.procs && c !in s.procs
    case ForkFailed(p, changed, mapped) => p in s.procs
    case Faulted(p, va, a, n) => p in s.procs && Fresh(s, n)
    case Stored(p, va, off, b, n) => p in s.procs && off < PAGE_SIZE && Fresh(s, n)
    case Fetched(p, va, off) => p in s.procs && off < PAGE_SIZE
    case Executed(p, va, n) => p in s.procs && Fresh(s, n)
    case Spawned(p) => p !in s.procs
    case Loaded(p, va, n, perm, data) =>
      p in s.procs && va !in s.procs[p] && Fresh(s, n) && |data| == PAGE_SIZE && (perm.u ==> perm.r && perm.w)
    case Destroyed(p) => p in s.procs
  }

  /** The handler repairs the entry or kills, which leaves it as it was. */
  ghost function Handled(s: Machine, p: Pid, va: Va, a: Access, n: int): Machine
    requires Backed(s) && Fresh(s, n)
  {
    if Repairable(s, p, va, a) then Repair(s, p, va, n) else s
  }

  ghost function Next(s: Machine, e: Event): Machine
    requires Enabled(s, e)
  {
    match e
    case Forked(p, c) => Fork(s, p, c)
    case ForkFailed(p, changed, mapped) => FailedFork(s, p, changed, mapped)
    case Faulted(p, va, a, n) => Handled(s, p, va, a, n)
    case Stored(p, va, off, b, n) => Attempt(s, p, va, off, b, n)
    case Fetched(p, va, off) => s
    case Executed(p, va, n) => if Executable(s, p, va) then s else Handled(s, p, va, Exec, n)
    case Spawned(p) => s.(procs := s.procs[p := map[]])
    case Loaded(p, va, n, perm, data) => MapFresh(s, p, va, n, perm, data)
    case Destroyed(p) => Drop(s, p)
  }

  /** Every process's private memory, and which of its pages it can execute. */
  datatype Machines = Machines(mem: Private, exec: map<Pid, set<Va>>)

  ghost function Apart(s: Machine): Machines
    requires Backed(s)
  {
    Machines(Abs(s), Execs(s))
  }

  /** The same event when every process owns its memory outright and fork copies all of it. */
  ghost function PrivateNext(a: Private, e: Event): Private {
    match e
    case Forked(p, c) => if p in a then a[c := a[p]] else a
    case Stored(p, va, off, b, n) =>
      if p in a && va in a[p] && off < |a[p][va]| then a[p := a[p][va := a[p][va][off := b]]] else a
    case Spawned(p) => a[p := map[]]
    case Loaded(p, va, n, perm, data) => if p in a && perm.u then a[p := a[p][va := data]] else a
    case Destroyed(p) => a - {p}
    case _ => a
  }

  /** What can be executed changes by fork, which makes it all that the child has, by mapping a
      page, by spawning and by teardown, and by nothing else. */
  ghost function ExecNext(m: Machines, e: Event): map<Pid, set<Va>> {
    match e
    case Forked(p, c) => if p in m.mem then m.exec[c := m.mem[p].Keys] else m.exec
    case Spawned(p) => m.exec[p := {}]
    case Loaded(p, va, n, perm, data) =>
      if p in m.exec then m.exec[p := m.exec[p] + if perm.u && perm.x then {va} else {}] else m.exec
    case Destroyed(p) => m.exec - {p}
    case _ => m.exec
  }

  ghost function MachinesNext(m: Machines, e: Event): Machines {
    Machines(PrivateNext(m.mem, e), ExecNext(m, e))
  }

  /** What the process sees of its instruction. */
  datatype Outcome = Nothing | Done | Got(b: bv8) | Killed

  ghost function Sees(s: Machine, e: Event): Outcome
    requires Enabled(s, e)
  {
    match e
    case Stored(p, va, off, b, n) => if Storable(s, p, va) then Done else Killed
    case Fetched(p, va, off) => if Readable(s, p, va) then Got(s.mem[s.procs[p][va].page][off]) else Killed
    case Executed(p, va, n) => if Executable(s, p, va) || Repairable(s, p, va, Exec) then Done else Killed
    case _ => Nothing
  }

  ghost function MachinesSee(m: Machines, e: Event): Outcome {
    match e
    case Stored(p, va, off, b, n) => if p in m.mem && va in m.mem[p] then Done else Killed
    case Fetched(p, va, off) =>
      if p in m.mem && va in m.mem[p] && off < |m.mem[p][va]| then Got(m.mem[p][va][off]) else Killed
    case Executed(p, va, n) => if p in m.exec && va in m.exec[p] then Done else Killed
    case _ => Nothing
  }

  /** A run of events and what the processes saw. */
  ghost predicate Run(s: Machine, es: seq<Event>, seen: seq<Outcome>, s': Machine)
    decreases |es|
  {
    if es == [] then seen == [] && s' == s
    else
      && Enabled(s, es[0]) && seen != [] && seen[0] == Sees(s, es[0])
      && Run(Next(s, es[0]), es[1..], seen[1..], s')
  }

  ghost predicate MachinesRun(m: Machines, es: seq<Event>, seen: seq<Outcome>, m': Machines)
    decreases |es|
  {
    if es == [] then seen == [] && m' == m
    else
      && seen != [] && seen[0] == MachinesSee(m, es[0])
      && MachinesRun(MachinesNext(m, es[0]), es[1..], seen[1..], m')
  }

  lemma {:induction false} StepSimulates(s: Machine, e: Event)
    requires Inv(s) && Enabled(s, e) && AllForUser(s)
    ensures Inv(Next(s, e)) && AllForUser(Next(s, e))
    ensures Apart(Next(s, e)) == MachinesNext(Apart(s), e) && Sees(s, e) == MachinesSee(Apart(s), e)
  {
    StepMemory(s, e);
    StepExecs(s, e);
    hide Abs, Execs, Next, PrivateNext, ExecNext, Counted, Exclusive, Backed, AllForUser;
  }

  lemma {:induction false} StepMemory(s: Machine, e: Event)
    requires Inv(s) && Enabled(s, e) && AllForUser(s)
    ensures Inv(Next(s, e)) && AllForUser(Next(s, e))
    ensures Abs(Next(s, e)) == PrivateNext(Abs(s), e) && Sees(s, e) == MachinesSee(Apart(s), e)
  {
    hide Abs, Execs, Counted, Exclusive, Refs, Fork, FailedFork, Repair, Attempt, AllForUser, Storable, Readable, Fresh,
      Executable;
    match e
    case Forked(p, c) =>
      ForkCopies(s, p, c);
      ForkForUser(s, p, c);
      AbsView(s, p);
    case ForkFailed(p, changed, mapped) =>
      FailedForkInv(s, p, changed, mapped);
      FailedForkForUser(s, p, changed, mapped);
    case Faulted(p, va, a, n) =>
      if Repairable(s, p, va, a) {
        RepairKeeps(s, p, va, n);
        RepairForUser(s, p, va, n) by { FreshIn(s, n); }
      }
    case Stored(p, va, off, b, n) =>
      KillsIff(s, p, va);
      AttemptIsolated(s, p, va, off, b, n);
      AttemptForUser(s, p, va, off, b, n);
    case Fetched(p, va, off) => KillsIff(s, p, va);
    case Executed(p, va, n) => ExecsHas(s, p, va);
    case Spawned(p) =>
      SpawnInv(s, p);
      ProcsForUser(s, Next(s, e));
    case Loaded(p, va, n, perm, data) =>
      MapFreshInv(s, p, va, n, perm, data);
      AbsView(s, p);
      ProcsForUser(s, Next(s, e));
    case Destroyed(p) =>
      DropKeeps(s, p);
      ProcsForUser(s, Next(s, e));
  }

  lemma ExecsHas(s: Machine, p: Pid, va: Va)
    ensures Executable(s, p, va) <==> p in Execs(s) && va in Execs(s)[p]
  {
  }

  lemma StepExecs(s: Machine, e: Event)
    requires Inv(s) && Enabled(s, e)
    ensures Execs(Next(s, e)) == ExecNext(Apart(s), e)
  {
    hide Abs, Execs, Counted, Exclusive, Refs, Fork, FailedFork, Repair, Attempt, Executable;
    match e
    case Forked(p, c) => ForkExecs(s, p, c);
    case ForkFailed(p, changed, mapped) => FailedForkExecs(s, p, changed, mapped);
    case Faulted(p, va, a, n) => if Repairable(s, p, va, a) { RepairExecs(s, p, va, n); }
    case Stored(p, va, off, b, n) =>
      AttemptExecutes(s, p, va, off, b, n);
      SameExecs(s, Next(s, e));
    case Fetched(p, va, off) =>
    case Executed(p, va, n) =>
    case Spawned(p) => SpawnExecs(s, p);
    case Loaded(p, va, n, perm, data) =>
      MapExecs(s, p, va, n, perm, data);
      ExecsKeys(s);
    case Destroyed(p) => DropExecs(s, p);
  }

  lemma ExecsKeys(s: Machine)
    ensures Execs(s).Keys == s.procs.Keys
  {
  }

  /** Over any interleaving, sharing pages copy-on-write cannot be told from copying everything at
      every fork: each process has the memory it would have then, reads its bytes, and is killed by
      the same instructions, whether for what they access or for where they stand. */
  lemma {:induction false} RunSimulates(s: Machine, es: seq<Event>, seen: seq<Outcome>, s': Machine)
    requires Inv(s) && AllForUser(s) && Run(s, es, seen, s')
    ensures Inv(s') && AllForUser(s') && MachinesRun(Apart(s), es, seen, Apart(s'))
    decreases |es|
  {
    hide Abs, Apart, Counted, Exclusive, Backed, AllForUser, Enabled, Next, MachinesNext, Sees, MachinesSee;
    if es != [] {
      StepSimulates(s, es[0]);
      RunSimulates(Next(s, es[0]), es[1..], seen[1..], s');
    }
  }

  /** What a process can execute is the same from its creation to its teardown, but for pages mapped
      for it: no store, repair, fork or failed fork takes the permission away. */
  lemma {:induction false} RunExecutes(s: Machine, es: seq<Event>, seen: seq<Outcome>, s': Machine, q: Pid, va: Va)
    requires Inv(s) && AllForUser(s) && Run(s, es, seen, s') && q in s.procs
    requires forall i :: 0 <= i < |es| ==> !Maps(es[i], q)
    ensures q in s'.procs && (Executable(s', q, va) <==> Executable(s, q, va))
    decreases |es|
  {
    hide Executable, Next, Sees, AllForUser, Counted, Exclusive, Backed;
    if es != [] {
      StepMemory(s, es[0]);
      assert !Maps(es[0], q);
      StepExecutes(s, es[0], q, va);
      RunExecutes(Next(s, es[0]), es[1..], seen[1..], s', q, va);
    }
  }

  lemma StepExecutes(s: Machine, e: Event, q: Pid, va: Va)
    requires Inv(s) && Enabled(s, e) && q in s.procs && !Maps(e, q)
    ensures q in Next(s, e).procs && (Executable(Next(s, e), q, va) <==> Executable(s, q, va))
  {
    hide Abs, Executable, Next, Execs, Counted, Exclusive;
    StepExecs(s, e);
    ExecsHas(s, q, va);
    ExecsHas(Next(s, e), q, va);
    ExecsKeys(s);
    ExecsKeys(Next(s, e));
  }

  /** Creates `q`, maps a page for it or takes it down. */
  ghost predicate Maps(e: Event, q: Pid) {
    match e
    case Forked(p, c) => c == q
    case Spawned(p) => p == q
    case Loaded(p, va, n, perm, data) => p == q
    case Destroyed(p) => p == q
    case _ => false
  }

  ghost predicate By(e: Event, q: Pid) {
    match e
    case Forked(p, c) => c == q
    case Stored(p, va, off, b, n) => p == q
    case Spawned(p) => p == q
    case Loaded(p, va, n, perm, data) => p == q
    case Destroyed(p) => p == q
    case _ => false
  }

  lemma PrivateOthers(a: Private, e: Event, q: Pid)
    requires q in a && !By(e, q)
    ensures q in PrivateNext(a, e) && PrivateNext(a, e)[q] == a[q]
  {
  }

  lemma AbsView(s: Machine, q: Pid)
    requires Backed(s)
    ensures q in Abs(s) <==> q in s.procs
    ensures q in s.procs ==> Abs(s)[q] == View(s, q)
  {
  }

  /** Whatever other processes do, a process sees its own memory unchanged. */
  lemma {:induction false} RunIsolates(s: Machine, es: seq<Event>, seen: seq<Outcome>, s': Machine, q: Pid)
    requires Inv(s) && AllForUser(s) && Run(s, es, seen, s') && q in s.procs
    requires forall i :: 0 <= i < |es| ==> !By(es[i], q)
    ensures q in s'.procs && Inv(s') && AllForUser(s') && View(s', q) == View(s, q)
    decreases |es|
  {
    hide Abs, View, PrivateNext, By, Next, Counted, Exclusive, AllForUser;
    if es != [] {
      var m := Next(s, es[0]);
      StepMemory(s, es[0]);
      AbsView(s, q);
      AbsView(m, q);
      PrivateOthers(Abs(s), es[0], q);
      RunIsolates(m, es[1..], seen[1..], s', q);
    }
  }
}
