/** Copy-on-write memory as a machine of address spaces, page counts and frames, and the
    proof that each of its steps keeps private what each process can store and read. */
module CowSpec {
  import opened Seqs

  const PAGE_SIZE: nat := 4096

  type Pid = int
  type Va = int
  type Frame = seq<bv8>

  datatype Perm = Perm(r: bool, w: bool, x: bool, u: bool, cow: bool)
  datatype Pte = Pte(page: int, perm: Perm)
  type Table = map<Va, Pte>

  const URX_COW: Perm := Perm(true, false, true, true, true)

  /** The 4K entries of every address space, the count kept per physical page, and memory. */
  datatype Machine = Machine(procs: map<Pid, Table>, refcnt: map<int, nat>, mem: map<int, Frame>)

  ghost function Refs(s: Machine, g: int): set<(Pid, Va)> {
    set p, va | p in s.procs && va in s.procs[p] && s.procs[p][va].page == g :: (p, va)
  }

  ghost predicate Mapped(s: Machine, p: Pid, va: Va) {
    p in s.procs && va in s.procs[p]
  }

  ghost predicate Writable(s: Machine, p: Pid, va: Va) {
    Mapped(s, p, va) && s.procs[p][va].perm.w
  }

  /** Every mapped page is memory with a whole frame. */
  ghost predicate Backed(s: Machine) {
    && s.refcnt.Keys == s.mem.Keys
    && (forall p, va :: Mapped(s, p, va) ==> s.procs[p][va].page in s.mem)
    && (forall g :: g in s.mem ==> |s.mem[g]| == PAGE_SIZE)
  }

  /** A page is counted at least once for each entry that maps it. */
  ghost predicate Counted(s: Machine) {
    forall g :: g in s.refcnt ==> |Refs(s, g)| <= s.refcnt[g]
  }

  /** An entry that may be written is the only entry for its page. */
  ghost predicate Exclusive(s: Machine) {
    forall p, va, q, vb :: Writable(s, p, va) && Mapped(s, q, vb) && s.procs[q][vb].page == s.procs[p][va].page
      ==> p == q && va == vb
  }

  ghost predicate Inv(s: Machine) {
    Backed(s) && Counted(s) && Exclusive(s)
  }

  // ----- the abstract machine: every process has its own private memory

  type Memory = map<Va, Frame>
  type Private = map<Pid, Memory>

  /** The pages a process can name from user mode, with their contents. */
  ghost function View(s: Machine, p: Pid): Memory
    requires Backed(s) && p in s.procs
  {
    map va | va in s.procs[p] && s.procs[p][va].perm.u :: View1(s, p, va)
  }

  ghost function View1(s: Machine, p: Pid, va: Va): Frame
    requires Backed(s) && Mapped(s, p, va)
  {
    s.mem[s.procs[p][va].page]
  }

  ghost function Abs(s: Machine): Private
    requires Backed(s)
  {
    map p | p in s.procs :: View(s, p)
  }

  /** Removing write permission or whole entries keeps writable entries exclusive. */
  lemma {:induction false} ExclusiveFrom(s: Machine, s': Machine)
    requires Exclusive(s)
    requires forall p, va :: Mapped(s', p, va) ==>
               && Mapped(s, p, va) && s'.procs[p][va].page == s.procs[p][va].page
               && (Writable(s', p, va) ==> Writable(s, p, va))
    ensures Exclusive(s')
  {
    forall p, va, q, vb | Writable(s', p, va) && Mapped(s', q, vb) && s'.procs[q][vb].page == s'.procs[p][va].page
      ensures p == q && va == vb
    {
      assert Writable(s, p, va) && Mapped(s, q, vb);
    }
  }

  lemma {:induction false} SameRefs(s: Machine, s': Machine)
    requires Counted(s) && s'.refcnt.Keys == s.refcnt.Keys
    requires forall g :: g in s.refcnt ==> s.refcnt[g] <= s'.refcnt[g] && Refs(s', g) <= Refs(s, g)
    ensures Counted(s')
  {
    forall g | g in s'.refcnt ensures |Refs(s', g)| <= s'.refcnt[g] {
      SubsetSize(Refs(s', g), Refs(s, g));
    }
  }

  // ----- fork

  function Share(e: Pte): Pte {
    e.(perm := e.perm.(w := false, cow := true))
  }

  /** The parent's table once the entries in `done` have been made copy-on-write. */
  function ParentTable(t: Table, done: set<Va>): Table {
    map va | va in t :: if va in done && t[va].perm.u then Share(t[va]) else t[va]
  }

  function ChildTable(t: Table, done: set<Va>): Table {
    map va | va in t && va in done && t[va].perm.u :: Pte(t[va].page, URX_COW)
  }

  ghost function Hits(t: Table, done: set<Va>, g: int): set<Va> {
    set va | va in done && va in t && t[va].perm.u && t[va].page == g
  }

  ghost function Recount(refcnt: map<int, nat>, t: Table, done: set<Va>): map<int, nat> {
    map g | g in refcnt :: refcnt[g] + |Hits(t, done, g)|
  }

  /** Fork with every user entry shared. */
  ghost function Fork(s: Machine, p: Pid, c: Pid): Machine
    requires p in s.procs && c !in s.procs
  {
    var t := s.procs[p];
    Machine(s.procs[p := ParentTable(t, t.Keys)][c := ChildTable(t, t.Keys)], Recount(s.refcnt, t, t.Keys), s.mem)
  }

  /** Fork that ran out of memory: entries in `changed` were shared, those in `mapped` counted. */
  ghost function FailedFork(s: Machine, p: Pid, changed: set<Va>, mapped: set<Va>): Machine
    requires p in s.procs
  {
    var t := s.procs[p];
    Machine(s.procs[p := ParentTable(t, changed)], Recount(s.refcnt, t, mapped), s.mem)
  }

  lemma RefsOfParent(s: Machine, p: Pid, done: set<Va>, refcnt: map<int, nat>, g: int)
    requires p in s.procs
    ensures Refs(Machine(s.procs[p := ParentTable(s.procs[p], done)], refcnt, s.mem), g) == Refs(s, g)
  {
  }

  ghost function Pairs(c: Pid, vas: set<Va>): set<(Pid, Va)> {
    set va | va in vas :: (c, va)
  }

  lemma {:induction false} PairsSize(c: Pid, vas: set<Va>)
    ensures |Pairs(c, vas)| == |vas|
  {
    if vas != {} {
      var va := AnElement(vas);
      PairsSize(c, vas - {va});
      assert Pairs(c, vas) == Pairs(c, vas - {va}) + {(c, va)};
    }
  }

  lemma RefsOfFork(s: Machine, p: Pid, c: Pid, g: int)
    requires p in s.procs && c !in s.procs
    ensures Refs(Fork(s, p, c), g) == Refs(s, g) + Pairs(c, Hits(s.procs[p], s.procs[p].Keys, g))
    ensures Refs(s, g) !! Pairs(c, Hits(s.procs[p], s.procs[p].Keys, g))
  {
  }

  lemma {:induction false} ForkInv(s: Machine, p: Pid, c: Pid)
    requires Inv(s) && p in s.procs && c !in s.procs
    ensures Inv(Fork(s, p, c))
  {
    var s' := Fork(s, p, c);
    var t := s.procs[p];
    forall g | g in s'.refcnt ensures |Refs(s', g)| <= s'.refcnt[g] {
      RefsOfFork(s, p, c, g);
      PairsSize(c, Hits(t, t.Keys, g));
    }
    forall q, va, r, vb | Writable(s', q, va) && Mapped(s', r, vb) && s'.procs[r][vb].page == s'.procs[q][va].page
      ensures q == r && va == vb
    {
      assert Writable(s, q, va);
      if r == c {
        assert Mapped(s, p, vb);
      } else {
        assert Mapped(s, r, vb);
      }
    }
  }

  lemma {:induction false} FailedForkInv(s: Machine, p: Pid, changed: set<Va>, mapped: set<Va>)
    requires Inv(s) && p in s.procs
    ensures Inv(FailedFork(s, p, changed, mapped))
    ensures Abs(FailedFork(s, p, changed, mapped)) == Abs(s)
  {
    var s' := FailedFork(s, p, changed, mapped);
    forall g ensures Refs(s', g) == Refs(s, g) {
      RefsOfParent(s, p, changed, s'.refcnt, g);
    }
    SameRefs(s, s');
    ExclusiveFrom(s, s');
    FailedForkViews(s, p, changed, mapped);
  }

  lemma {:induction false} FailedForkViews(s: Machine, p: Pid, changed: set<Va>, mapped: set<Va>)
    requires Backed(s) && p in s.procs
    ensures Backed(FailedFork(s, p, changed, mapped))
    ensures Abs(FailedFork(s, p, changed, mapped)) == Abs(s)
  {
    var s' := FailedFork(s, p, changed, mapped);
    assert forall q, va :: Mapped(s', q, va) ==> Mapped(s, q, va) && s'.procs[q][va].page == s.procs[q][va].page;
    forall q | q in s.procs ensures View(s', q) == View(s, q) {}
  }

  /** When the views of all processes but `p` are unchanged, so is the abstract machine but for `p`. */
  lemma AbsAt(s: Machine, s': Machine, p: Pid)
    requires Backed(s) && Backed(s') && s'.procs.Keys == s.procs.Keys + {p}
    requires forall q :: q in s.procs && q != p ==> View(s', q) == View(s, q)
    ensures Abs(s') == Abs(s)[p := View(s', p)]
  {
    hide View, Backed;
    assert Abs(s').Keys == Abs(s).Keys + {p};
  }

  lemma {:induction false} ForkViews(s: Machine, p: Pid, c: Pid)
    requires Backed(s) && p in s.procs && c !in s.procs
    ensures Backed(Fork(s, p, c)) && Abs(Fork(s, p, c)) == Abs(s)[c := Abs(s)[p]]
  {
    var s' := Fork(s, p, c);
    forall q, va | Mapped(s', q, va)
      ensures var o := if q == c then p else q;
        Mapped(s, o, va) && s'.procs[q][va].page == s.procs[o][va].page
    {}
    assert View(s', c) == View(s, p);
    forall q | q in s.procs ensures View(s', q) == View(s, q) {}
    AbsAt(s, s', c);
  }

  /** A forked child starts with the parent's bytes, and no other view changes. */
  lemma {:induction false} ForkCopies(s: Machine, p: Pid, c: Pid)
    requires Inv(s) && p in s.procs && c !in s.procs
    ensures Inv(Fork(s, p, c))
    ensures Abs(Fork(s, p, c)) == Abs(s)[c := Abs(s)[p]]
  {
    ForkInv(s, p, c);
    ForkViews(s, p, c);
  }

  // ----- the write fault

  datatype Access = Read | Write | Exec

  /** The handler repairs a write to a readable copy-on-write user page; it kills otherwise. */
  ghost predicate Repairable(s: Machine, p: Pid, va: Va, a: Access) {
    && Mapped(s, p, va) && s.procs[p][va].perm.u
    && a == Write && s.procs[p][va].perm.cow && s.procs[p][va].perm.r
  }

  function Unshare(e: Pte): Pte {
    e.(perm := e.perm.(w := true, cow := false))
  }

  /** Sole owner: take the page over.  Otherwise move to the fresh page `n`. */
  ghost function Repair(s: Machine, p: Pid, va: Va, n: int): Machine
    requires Backed(s) && Mapped(s, p, va) && n in s.mem
  {
    var e := s.procs[p][va];
    if s.refcnt[e.page] == 1 then
      s.(procs := s.procs[p := s.procs[p][va := Unshare(e)]])
    else
      var down := s.refcnt[e.page := Minus1(s.refcnt[e.page])];
      Machine(s.procs[p := s.procs[p][va := Unshare(e.(page := n))]],
              down[n := down[n] + 1],
              s.mem[n := s.mem[e.page]])
  }

  function Minus1(n: nat): nat {
    if n == 0 then 0 else n - 1
  }

  /** No entry maps `n`. */
  ghost predicate Fresh(s: Machine, n: int) {
    n in s.mem && forall p, va :: Mapped(s, p, va) ==> s.procs[p][va].page != n
  }

  lemma {:induction false} OneRef(s: Machine, p: Pid, va: Va, q: Pid, vb: Va)
    requires Mapped(s, p, va) && Mapped(s, q, vb) && s.procs[p][va].page == s.procs[q][vb].page
    requires |Refs(s, s.procs[p][va].page)| <= 1
    ensures p == q && va == vb
  {
    var g := s.procs[p][va].page;
    var r := Refs(s, g);
    assert (p, va) in r && (q, vb) in r;
    assert r == {(p, va)} + (r - {(p, va)});
    assert |r - {(p, va)}| == 0;
  }

  lemma {:induction false} TakeOverExclusive(s: Machine, p: Pid, va: Va, n: int)
    requires Inv(s) && Mapped(s, p, va) && n in s.mem && s.refcnt[s.procs[p][va].page] == 1
    ensures Exclusive(Repair(s, p, va, n))
  {
    var s' := Repair(s, p, va, n);
    forall q, vb | Mapped(s', q, vb)
      ensures Mapped(s, q, vb) && s'.procs[q][vb].page == s.procs[q][vb].page
      ensures Writable(s', q, vb) ==> Writable(s, q, vb) || (q == p && vb == va)
    {}
    forall q, vb, r, vc | Writable(s', q, vb) && Mapped(s', r, vc) && s'.procs[r][vc].page == s'.procs[q][vb].page
      ensures q == r && vb == vc
    {
      if q == p && vb == va {
        OneRef(s, p, va, r, vc);
      } else {
        assert Writable(s, q, vb) && Mapped(s, r, vc);
      }
    }
  }

  lemma {:induction false} TakeOverViews(s: Machine, p: Pid, va: Va, n: int)
    requires Backed(s) && Mapped(s, p, va) && n in s.mem && s.refcnt[s.procs[p][va].page] == 1
    ensures Backed(Repair(s, p, va, n)) && Abs(Repair(s, p, va, n)) == Abs(s)
    ensures forall g :: Refs(Repair(s, p, va, n), g) == Refs(s, g)
  {
    var s' := Repair(s, p, va, n);
    assert s'.procs == s.procs[p := s.procs[p][va := Unshare(s.procs[p][va])]] && s'.mem == s.mem && s'.refcnt == s.refcnt;
    hide Repair;
    forall q, vb ensures Mapped(s', q, vb) <==> Mapped(s, q, vb) {}
    forall q, vb | Mapped(s, q, vb)
      ensures s'.procs[q][vb].page == s.procs[q][vb].page && s'.procs[q][vb].perm.u == s.procs[q][vb].perm.u
    {}
    forall q | q in s.procs ensures View(s', q) == View(s, q) {
      assert s'.procs[q].Keys == s.procs[q].Keys;
    }
  }

  lemma {:induction false} TakeOver(s: Machine, p: Pid, va: Va, n: int)
    requires Inv(s) && Mapped(s, p, va) && n in s.mem && s.refcnt[s.procs[p][va].page] == 1
    ensures Inv(Repair(s, p, va, n)) && Abs(Repair(s, p, va, n)) == Abs(s)
  {
    TakeOverExclusive(s, p, va, n);
    TakeOverViews(s, p, va, n);
    hide Exclusive, Backed, Refs, Abs;
    SameRefs(s, Repair(s, p, va, n));
  }

  lemma RefsAfterCopy(s: Machine, p: Pid, va: Va, n: int, g: int)
    requires Backed(s) && Mapped(s, p, va) && Fresh(s, n) && s.refcnt[s.procs[p][va].page] != 1
    ensures Refs(Repair(s, p, va, n), g) ==
              if g == n then {(p, va)}
              else if g == s.procs[p][va].page then Refs(s, g) - {(p, va)}
              else Refs(s, g)
    ensures (p, va) in Refs(s, s.procs[p][va].page)
  {
  }

  lemma {:induction false} CopyCounted(s: Machine, p: Pid, va: Va, n: int)
    requires Inv(s) && Mapped(s, p, va) && Fresh(s, n) && s.refcnt[s.procs[p][va].page] != 1
    ensures Counted(Repair(s, p, va, n))
  {
    var s' := Repair(s, p, va, n);
    forall g | g in s'.refcnt ensures |Refs(s', g)| <= s'.refcnt[g] {
      RefsAfterCopy(s, p, va, n, g);
    }
  }

  lemma {:induction false} CopyExclusive(s: Machine, p: Pid, va: Va, n: int)
    requires Inv(s) && Mapped(s, p, va) && Fresh(s, n) && s.refcnt[s.procs[p][va].page] != 1
    ensures Exclusive(Repair(s, p, va, n))
  {
    var s' := Repair(s, p, va, n);
    forall q, vb | Mapped(s', q, vb)
      ensures Mapped(s, q, vb) && s'.procs[q][vb].page == if q == p && vb == va then n else s.procs[q][vb].page
    {}
    forall q, vb, r, vc | Writable(s', q, vb) && Mapped(s', r, vc) && s'.procs[r][vc].page == s'.procs[q][vb].page
      ensures q == r && vb == vc
    {
      if !(q == p && vb == va) {
        assert Writable(s, q, vb) && Mapped(s, r, vc);
      }
    }
  }

  lemma {:induction false} CopyViews(s: Machine, p: Pid, va: Va, n: int)
    requires Backed(s) && Mapped(s, p, va) && Fresh(s, n) && s.refcnt[s.procs[p][va].page] != 1
    ensures Backed(Repair(s, p, va, n)) && Abs(Repair(s, p, va, n)) == Abs(s)
  {
    var s' := Repair(s, p, va, n);
    forall q, vb | Mapped(s', q, vb)
      ensures Mapped(s, q, vb) && s'.procs[q][vb].page in s'.mem && View1(s', q, vb) == View1(s, q, vb)
      ensures s'.procs[q][vb].perm.u == s.procs[q][vb].perm.u
    {
      assert (q == p && vb == va) || Mapped(s, q, vb);
    }
    forall q | q in s.procs ensures View(s', q) == View(s, q) {
      assert s'.procs[q].Keys == s.procs[q].Keys;
    }
  }

  lemma {:induction false} Copy(s: Machine, p: Pid, va: Va, n: int)
    requires Inv(s) && Mapped(s, p, va) && Fresh(s, n) && s.refcnt[s.procs[p][va].page] != 1
    ensures Inv(Repair(s, p, va, n)) && Abs(Repair(s, p, va, n)) == Abs(s)
  {
    CopyViews(s, p, va, n);
    CopyCounted(s, p, va, n);
    CopyExclusive(s, p, va, n);
  }

  /** Repairing a fault makes the entry writable and changes nobody's view. */
  lemma {:induction false} RepairKeeps(s: Machine, p: Pid, va: Va, n: int)
    requires Inv(s) && Mapped(s, p, va) && Fresh(s, n)
    ensures Inv(Repair(s, p, va, n)) && Abs(Repair(s, p, va, n)) == Abs(s)
    ensures Writable(Repair(s, p, va, n), p, va)
  {
    if s.refcnt[s.procs[p][va].page] == 1 {
      TakeOver(s, p, va, n);
    } else {
      Copy(s, p, va, n);
    }
  }

  // ----- user stores

  ghost function Store(s: Machine, p: Pid, va: Va, off: nat, b: bv8): Machine
    requires Backed(s) && Mapped(s, p, va) && off < PAGE_SIZE
  {
    var g := s.procs[p][va].page;
    s.(mem := s.mem[g := s.mem[g][off := b]])
  }

  /** A store through a writable user entry changes that byte of that process and nothing else. */
  lemma {:induction false} StoreIsolated(s: Machine, p: Pid, va: Va, off: nat, b: bv8)
    requires Inv(s) && Writable(s, p, va) && s.procs[p][va].perm.u && off < PAGE_SIZE
    ensures Inv(Store(s, p, va, off, b))
    ensures Abs(Store(s, p, va, off, b)) == Abs(s)[p := Abs(s)[p][va := Abs(s)[p][va][off := b]]]
  {
    var s' := Store(s, p, va, off, b);
    SameRefs(s, s') by {
      assert forall g :: Refs(s', g) == Refs(s, g);
    }
    ExclusiveFrom(s, s');
    StoreViews(s, p, va, off, b);
  }

  lemma StoreView(s: Machine, p: Pid, va: Va, off: nat, b: bv8, q: Pid)
    requires Inv(s) && Writable(s, p, va) && s.procs[p][va].perm.u && off < PAGE_SIZE && q in s.procs
    ensures Backed(Store(s, p, va, off, b))
    ensures View(Store(s, p, va, off, b), q) ==
              if q == p then View(s, p)[va := View(s, p)[va][off := b]] else View(s, q)
  {
    var s' := Store(s, p, va, off, b);
    forall vb | vb in s.procs[q]
      ensures View1(s', q, vb) == if q == p && vb == va then View1(s, p, va)[off := b] else View1(s, q, vb)
    {
      if s.procs[q][vb].page == s.procs[p][va].page {
        assert Writable(s, p, va) && Mapped(s, q, vb);
      }
    }
    hide Exclusive, Counted;
  }

  lemma {:induction false} StoreViews(s: Machine, p: Pid, va: Va, off: nat, b: bv8)
    requires Inv(s) && Writable(s, p, va) && s.procs[p][va].perm.u && off < PAGE_SIZE
    ensures Backed(Store(s, p, va, off, b))
    ensures Abs(Store(s, p, va, off, b)) == Abs(s)[p := Abs(s)[p][va := Abs(s)[p][va][off := b]]]
  {
    var s' := Store(s, p, va, off, b);
    forall q | q in s.procs
      ensures View(s', q) == if q == p then View(s, p)[va := View(s, p)[va][off := b]] else View(s, q)
    {
      StoreView(s, p, va, off, b, q);
    }
    AbsAt(s, s', p);
    assert Abs(s)[p] == View(s, p);
  }

  // ----- teardown and birth

  ghost function Drop(s: Machine, p: Pid): Machine {
    s.(procs := s.procs - {p})
  }

  /** Teardown keeps the counts; it only removes a view. */
  lemma {:induction false} DropKeeps(s: Machine, p: Pid)
    requires Inv(s)
    ensures Inv(Drop(s, p)) && Abs(Drop(s, p)) == Abs(s) - {p}
  {
    var s' := Drop(s, p);
    forall g | g in s'.refcnt ensures |Refs(s', g)| <= s'.refcnt[g] {
      SubsetSize(Refs(s', g), Refs(s, g));
    }
    ExclusiveFrom(s, s');
    forall q | q in s'.procs ensures View(s', q) == View(s, q) {}
  }

  /** No page that is still mapped has count zero, so teardown frees none of them. */
  lemma {:induction false} MappedIsCounted(s: Machine, p: Pid, va: Va)
    requires Inv(s) && Mapped(s, p, va)
    ensures s.refcnt[s.procs[p][va].page] >= 1
  {
    var r := Refs(s, s.procs[p][va].page);
    assert (p, va) in r;
    SubsetSize({(p, va)}, r);
  }

  /** Adding one counted entry for a page nobody maps. */
  ghost function MapFresh(s: Machine, p: Pid, va: Va, n: int, perm: Perm, data: Frame): Machine
    requires p in s.procs && n in s.refcnt
  {
    Machine(s.procs[p := s.procs[p][va := Pte(n, perm)]], s.refcnt[n := s.refcnt[n] + 1], s.mem[n := data])
  }

  lemma {:induction false} MapFreshExclusive(s: Machine, p: Pid, va: Va, n: int, perm: Perm, data: Frame)
    requires Inv(s) && p in s.procs && va !in s.procs[p] && Fresh(s, n)
    ensures Exclusive(MapFresh(s, p, va, n, perm, data))
  {
    var s' := MapFresh(s, p, va, n, perm, data);
    forall q, vb | Mapped(s', q, vb) ensures (q == p && vb == va) || Mapped(s, q, vb) {}
    forall q, vb, r, vc | Writable(s', q, vb) && Mapped(s', r, vc) && s'.procs[r][vc].page == s'.procs[q][vb].page
      ensures q == r && vb == vc
    {
      if !(q == p && vb == va) && !(r == p && vc == va) {
        assert Writable(s, q, vb) && Mapped(s, r, vc);
      }
    }
  }

  lemma MapFreshPages(s: Machine, p: Pid, va: Va, n: int, perm: Perm, data: Frame)
    requires Backed(s) && p in s.procs && va !in s.procs[p] && Fresh(s, n) && |data| == PAGE_SIZE
    ensures var s' := MapFresh(s, p, va, n, perm, data);
      && Backed(s') && s'.procs.Keys == s.procs.Keys
      && forall q, vb :: Mapped(s', q, vb) ==>
           if q == p && vb == va then View1(s', q, vb) == data && s'.procs[q][vb].perm == perm
           else Mapped(s, q, vb) && View1(s', q, vb) == View1(s, q, vb) && s'.procs[q][vb] == s.procs[q][vb]
  {
    var s' := MapFresh(s, p, va, n, perm, data);
    forall q, vb | Mapped(s', q, vb) ensures (q == p && vb == va) || Mapped(s, q, vb) {}
  }

  lemma MapFreshView(s: Machine, p: Pid, va: Va, n: int, perm: Perm, data: Frame, q: Pid)
    requires Backed(s) && p in s.procs && va !in s.procs[p] && Fresh(s, n) && |data| == PAGE_SIZE && q in s.procs
    ensures Backed(MapFresh(s, p, va, n, perm, data))
    ensures View(MapFresh(s, p, va, n, perm, data), q) ==
              if q == p && perm.u then View(s, p)[va := data] else View(s, q)
  {
    var s' := MapFresh(s, p, va, n, perm, data);
    MapFreshPages(s, p, va, n, perm, data);
    hide Fresh, Backed, View1;
    assert forall vb :: vb in s.procs[q] || (q == p && vb == va) ==> Mapped(s', q, vb);
  }

  lemma {:induction false} MapFreshViews(s: Machine, p: Pid, va: Va, n: int, perm: Perm, data: Frame)
    requires Backed(s) && p in s.procs && va !in s.procs[p] && Fresh(s, n) && |data| == PAGE_SIZE
    ensures Backed(MapFresh(s, p, va, n, perm, data))
    ensures Abs(MapFresh(s, p, va, n, perm, data)) ==
              if perm.u then Abs(s)[p := Abs(s)[p][va := data]] else Abs(s)
  {
    var s' := MapFresh(s, p, va, n, perm, data);
    MapFreshPages(s, p, va, n, perm, data);
    forall q | q in s.procs
      ensures View(s', q) == if q == p && perm.u then View(s, p)[va := data] else View(s, q)
    {
      MapFreshView(s, p, va, n, perm, data, q);
    }
    AbsAt(s, s', p);
    hide View, MapFresh, Backed;
    assert Abs(s)[p] == View(s, p);
  }

  lemma {:induction false} MapFreshInv(s: Machine, p: Pid, va: Va, n: int, perm: Perm, data: Frame)
    requires Inv(s) && p in s.procs && va !in s.procs[p] && Fresh(s, n) && |data| == PAGE_SIZE
    ensures Inv(MapFresh(s, p, va, n, perm, data))
    ensures Abs(MapFresh(s, p, va, n, perm, data)) ==
              if perm.u then Abs(s)[p := Abs(s)[p][va := data]] else Abs(s)
  {
    var s' := MapFresh(s, p, va, n, perm, data);
    MapFreshViews(s, p, va, n, perm, data);
    MapFreshExclusive(s, p, va, n, perm, data);
    forall g | g in s'.refcnt ensures |Refs(s', g)| <= s'.refcnt[g] {
      assert Refs(s', g) == if g == n then {(p, va)} else Refs(s, g);
    }
  }

  lemma {:induction false} SpawnInv(s: Machine, p: Pid)
    requires Inv(s) && p !in s.procs
    ensures Inv(s.(procs := s.procs[p := map[]])) && Abs(s.(procs := s.procs[p := map[]])) == Abs(s)[p := map[]]
  {
    var s' := s.(procs := s.procs[p := map[]]);
    SpawnViews(s, p);
    assert Counted(s') by {
      forall g | g in s'.refcnt ensures Refs(s', g) == Refs(s, g) {}
    }
    ExclusiveFrom(s, s');
  }

  lemma SpawnViews(s: Machine, p: Pid)
    requires Backed(s) && p !in s.procs
    ensures var s' := s.(procs := s.procs[p := map[]]);
      Backed(s') && Abs(s') == Abs(s)[p := map[]]
  {
    var s' := s.(procs := s.procs[p := map[]]);
    forall q | q in s.procs ensures View(s', q) == View(s, q) {}
  }

  // ----- what a process can tell

  /** An entry that user mode can read, and write either at once or after a repair. */
  predicate ForUser(perm: Perm) {
    perm.u ==> perm.r && (perm.w || perm.cow)
  }

  ghost predicate AllForUser(s: Machine) {
    forall p, va :: Mapped(s, p, va) ==> ForUser(s.procs[p][va].perm)
  }

  /** A store to the page goes through, if need be after a repair. */
  ghost predicate Storable(s: Machine, p: Pid, va: Va) {
    Mapped(s, p, va) && s.procs[p][va].perm.u && (Writable(s, p, va) || Repairable(s, p, va, Write))
  }

  ghost predicate Readable(s: Machine, p: Pid, va: Va) {
    Mapped(s, p, va) && s.procs[p][va].perm.u && s.procs[p][va].perm.r
  }

  lemma RepairBacked(s: Machine, p: Pid, va: Va, n: int)
    requires Backed(s) && Mapped(s, p, va) && Fresh(s, n)
    ensures Backed(Repair(s, p, va, n)) && Mapped(Repair(s, p, va, n), p, va)
  {
    if s.refcnt[s.procs[p][va].page] == 1 {
      TakeOverViews(s, p, va, n);
    } else {
      CopyViews(s, p, va, n);
    }
  }

  lemma FreshIn(s: Machine, n: int)
    requires Fresh(s, n)
    ensures n in s.mem
  {
  }

  /** A store instruction: it goes through at once, or after the handler's repair, or the process
      is killed and nothing changes. */
  ghost function Attempt(s: Machine, p: Pid, va: Va, off: nat, b: bv8, n: int): Machine
    requires Backed(s) && Fresh(s, n) && off < PAGE_SIZE
  {
    if !Storable(s, p, va) then s
    else if Writable(s, p, va) then Store(s, p, va, off, b)
    else
      RepairBacked(s, p, va, n);
      Store(Repair(s, p, va, n), p, va, off, b)
  }

  lemma {:induction false} AttemptIsolated(s: Machine, p: Pid, va: Va, off: nat, b: bv8, n: int)
    requires Inv(s) && Fresh(s, n) && off < PAGE_SIZE
    ensures Inv(Attempt(s, p, va, off, b, n))
    ensures Storable(s, p, va) ==> p in Abs(s) && va in Abs(s)[p] && |Abs(s)[p][va]| == PAGE_SIZE
    ensures Abs(Attempt(s, p, va, off, b, n)) ==
              if Storable(s, p, va) then Abs(s)[p := Abs(s)[p][va := Abs(s)[p][va][off := b]]] else Abs(s)
    ensures Storable(s, p, va) ==>
              Writable(Attempt(s, p, va, off, b, n), p, va) && Storable(Attempt(s, p, va, off, b, n), p, va)
  {
    if Storable(s, p, va) {
      StillUser(s, p, va, n);
      hide Abs, Counted, Exclusive, Repair, Fresh, Backed;
      if Writable(s, p, va) {
        StoreIsolated(s, p, va, off, b);
      } else {
        RepairKeeps(s, p, va, n);
        StoreIsolated(Repair(s, p, va, n), p, va, off, b);
      }
    }
  }

  lemma StillUser(s: Machine, p: Pid, va: Va, n: int)
    requires Backed(s) && Mapped(s, p, va) && n in s.mem && s.procs[p][va].perm.u
    ensures Mapped(Repair(s, p, va, n), p, va) && Repair(s, p, va, n).procs[p][va].perm.u
    ensures p in Abs(s) && va in Abs(s)[p] && |Abs(s)[p][va]| == PAGE_SIZE
  {
  }

  /** With entries as the loader makes them, a store kills exactly when the page is none of the
      process's private memory, and so does a load, which otherwise reads that memory's byte. */
  lemma KillsIff(s: Machine, p: Pid, va: Va)
    requires Inv(s) && AllForUser(s)
    ensures Storable(s, p, va) <==> p in Abs(s) && va in Abs(s)[p]
    ensures Readable(s, p, va) <==> p in Abs(s) && va in Abs(s)[p]
    ensures Readable(s, p, va) ==>
              |Abs(s)[p][va]| == PAGE_SIZE && Mapped(s, p, va) && s.procs[p][va].page in s.mem
              && Abs(s)[p][va] == s.mem[s.procs[p][va].page]
  {
  }

  /** A fork changes the outcome of no store in the parent and the others exactly when each user page
      of the parent is readable if writable and, if readable, writable at once or after a repair; and
      the child stores as the parent did exactly when each is writable at once or after a repair. */
  lemma ForkStores(s: Machine, p: Pid, c: Pid)
    requires Inv(s) && p in s.procs && c !in s.procs
    ensures (forall q, va :: q != c ==> (Storable(Fork(s, p, c), q, va) <==> Storable(s, q, va))) <==>
            forall va :: Mapped(s, p, va) && s.procs[p][va].perm.u ==>
              var e := s.procs[p][va].perm; e.r <==> e.w || (e.cow && e.r)
    ensures (forall va :: Storable(Fork(s, p, c), c, va) <==> Storable(s, p, va)) <==>
            forall va :: Mapped(s, p, va) && s.procs[p][va].perm.u ==>
              var e := s.procs[p][va].perm; e.w || (e.cow && e.r)
  {
    var s', t := Fork(s, p, c), s.procs[p];
    forall q, va | q != c && q != p ensures Storable(s', q, va) <==> Storable(s, q, va) {}
    forall va ensures Storable(s', p, va) <==> va in t && t[va].perm.u && t[va].perm.r {}
    forall va ensures Storable(s', c, va) <==> va in t && t[va].perm.u {}
    forall va ensures Storable(s, p, va) <==>
      va in t && t[va].perm.u && (t[va].perm.w || (t[va].perm.cow && t[va].perm.r)) {}
    hide Fork, Storable;
  }

  /** A read-only user page, which the loader never maps: a store to it kills before a fork and
      goes through after it. */
  lemma ReadOnlyTold(s: Machine, p: Pid, c: Pid, va: Va)
    requires Inv(s) && c !in s.procs && Mapped(s, p, va) && s.procs[p][va].perm == Perm(true, false, false, true, false)
    ensures !Storable(s, p, va) && Storable(Fork(s, p, c), p, va) && Storable(Fork(s, p, c), c, va)
  {
  }

  ghost predicate Executable(s: Machine, p: Pid, va: Va) {
    Mapped(s, p, va) && s.procs[p][va].perm.u && s.procs[p][va].perm.x
  }

  /** Loads and stores apart, a child can tell by running its data: it executes what its parent
      does exactly when all user pages of the parent are executable. */
  lemma ForkExecutes(s: Machine, p: Pid, c: Pid)
    requires p in s.procs && c !in s.procs
    ensures (forall va :: Executable(Fork(s, p, c), c, va) <==> Executable(s, p, va)) <==>
            forall va :: Mapped(s, p, va) && s.procs[p][va].perm.u ==> s.procs[p][va].perm.x
    ensures forall q, va :: q != c ==> (Executable(Fork(s, p, c), q, va) <==> Executable(s, q, va))
  {
    var s', t := Fork(s, p, c), s.procs[p];
    forall va ensures Executable(s', c, va) <==> va in t && t[va].perm.u {}
    forall va ensures Executable(s, p, va) <==> va in t && t[va].perm.u && t[va].perm.x {}
  }

  lemma ForkForUser(s: Machine, p: Pid, c: Pid)
    requires AllForUser(s) && p in s.procs && c !in s.procs
    ensures AllForUser(Fork(s, p, c))
  {
    var s' := Fork(s, p, c);
    forall q, va | Mapped(s', q, va) ensures ForUser(s'.procs[q][va].perm) {
      assert Mapped(s, if q == c then p else q, va);
    }
  }

  lemma FailedForkForUser(s: Machine, p: Pid, changed: set<Va>, mapped: set<Va>)
    requires AllForUser(s) && p in s.procs
    ensures AllForUser(FailedFork(s, p, changed, mapped))
  {
    var s' := FailedFork(s, p, changed, mapped);
    forall q, va | Mapped(s', q, va) ensures ForUser(s'.procs[q][va].perm) {
      assert Mapped(s, q, va);
    }
  }

  lemma RepairForUser(s: Machine, p: Pid, va: Va, n: int)
    requires Backed(s) && AllForUser(s) && Mapped(s, p, va) && n in s.mem
    ensures AllForUser(Repair(s, p, va, n))
  {
    var s' := Repair(s, p, va, n);
    forall q, vb | Mapped(s', q, vb) ensures ForUser(s'.procs[q][vb].perm) {
      assert Mapped(s, q, vb);
    }
  }

  lemma AttemptForUser(s: Machine, p: Pid, va: Va, off: nat, b: bv8, n: int)
    requires Inv(s) && AllForUser(s) && Fresh(s, n) && off < PAGE_SIZE
    ensures AllForUser(Attempt(s, p, va, off, b, n))
  {
    hide Backed, Counted, Exclusive, Repair, Abs;
    var t := if Storable(s, p, va) && !Writable(s, p, va) then Repair(s, p, va, n) else s;
    if t != s { RepairForUser(s, p, va, n); }
    assert Attempt(s, p, va, off, b, n).procs == t.procs;
    forall q, vb | Mapped(Attempt(s, p, va, off, b, n), q, vb)
      ensures ForUser(Attempt(s, p, va, off, b, n).procs[q][vb].perm)
    {
      assert Mapped(t, q, vb);
    }
  }

  /** Spawning, dropping and mapping for the user. */
  lemma ProcsForUser(s: Machine, s': Machine)
    requires AllForUser(s)
    requires forall q, va :: Mapped(s', q, va) ==>
               ForUser(s'.procs[q][va].perm) || (Mapped(s, q, va) && s'.procs[q][va] == s.procs[q][va])
    ensures AllForUser(s')
  {
  }

  // ----- what a repair leaves alone

  /** A repair changes the write and copy-on-write permissions of its entry, and no other
      permission of any entry. */
  lemma RepairPerms(s: Machine, p: Pid, va: Va, n: int)
    requires Backed(s) && Mapped(s, p, va) && n in s.mem
    ensures var s' := Repair(s, p, va, n); s'.procs.Keys == s.procs.Keys
    ensures var s' := Repair(s, p, va, n);
      forall q, vb :: (Mapped(s', q, vb) <==> Mapped(s, q, vb)) && (Mapped(s, q, vb) ==>
        var e, d := s.procs[q][vb].perm, s'.procs[q][vb].perm;
        && d.r == e.r && d.x == e.x && d.u == e.u
        && d.w == (e.w || (q == p && vb == va)) && d.cow == (e.cow && !(q == p && vb == va)))
  {
  }

  /** What can be executed stays so over a store and its repair. */
  lemma AttemptExecutes(s: Machine, p: Pid, va: Va, off: nat, b: bv8, n: int)
    requires Inv(s) && Fresh(s, n) && off < PAGE_SIZE
    ensures Attempt(s, p, va, off, b, n).procs.Keys == s.procs.Keys
    ensures forall q, vb :: Executable(Attempt(s, p, va, off, b, n), q, vb) <==> Executable(s, q, vb)
  {
    var s' := Attempt(s, p, va, off, b, n);
    FreshIn(s, n);
    hide Counted, Exclusive, Backed, Fresh, Abs;
    if Storable(s, p, va) && !Writable(s, p, va) {
      RepairPerms(s, p, va, n);
      assert s'.procs == Repair(s, p, va, n).procs;
    } else {
      assert s'.procs == s.procs;
    }
    hide Repair, Attempt;
    forall q, vb ensures Executable(s', q, vb) <==> Executable(s, q, vb) {
      assert Mapped(s', q, vb) <==> Mapped(s, q, vb);
    }
  }

  /** How many references a page's count has over the entries that map it. */
  ghost function Slack(s: Machine, g: int): int
    requires g in s.refcnt
  {
    s.refcnt[g] - |Refs(s, g)|
  }

  /** A repair counts one entry less for the old page and one more for the new one, or none at
      all: every page's count keeps its distance to the number of its entries. */
  lemma {:induction false} RepairBalance(s: Machine, p: Pid, va: Va, n: int, g: int)
    requires Inv(s) && Mapped(s, p, va) && Fresh(s, n) && g in s.refcnt
    ensures g in Repair(s, p, va, n).refcnt && Slack(Repair(s, p, va, n), g) == Slack(s, g)
  {
    MappedIsCounted(s, p, va);
    if s.refcnt[s.procs[p][va].page] == 1 {
      TakeOverViews(s, p, va, n);
    } else {
      RefsAfterCopy(s, p, va, n, g);
      NoRefs(s, n);
    }
  }

  lemma NoRefs(s: Machine, n: int)
    requires Fresh(s, n)
    ensures Refs(s, n) == {}
  {
  }

  /** So does a fork. */
  lemma {:induction false} ForkBalance(s: Machine, p: Pid, c: Pid, g: int)
    requires Inv(s) && p in s.procs && c !in s.procs && g in s.refcnt
    ensures g in Fork(s, p, c).refcnt && Slack(Fork(s, p, c), g) == Slack(s, g)
  {
    var t := s.procs[p];
    RefsOfFork(s, p, c, g);
    PairsSize(c, Hits(t, t.Keys, g));
  }

  // ----- the pages that can be executed

  ghost function ExecPages(s: Machine, p: Pid): set<Va>
    requires p in s.procs
  {
    set va | va in s.procs[p] && Executable(s, p, va)
  }

  ghost function Execs(s: Machine): map<Pid, set<Va>> {
    map p | p in s.procs :: ExecPages(s, p)
  }

  lemma SameExecs(s: Machine, s': Machine)
    requires s'.procs.Keys == s.procs.Keys && forall q, va :: Executable(s', q, va) <==> Executable(s, q, va)
    ensures Execs(s') == Execs(s)
  {
    forall q | q in s.procs ensures ExecPages(s', q) == ExecPages(s, q) {
      assert q in s'.procs.Keys;
      forall va ensures va in ExecPages(s', q) <==> va in ExecPages(s, q) {
        assert Executable(s', q, va) <==> Executable(s, q, va);
      }
    }
    assert Execs(s').Keys == s.procs.Keys;
  }

  lemma ExecsAt(s: Machine, s': Machine, p: Pid, x: set<Va>)
    requires s'.procs.Keys == s.procs.Keys + {p} && p in s'.procs && ExecPages(s', p) == x
    requires forall q, va :: q != p ==> (Executable(s', q, va) <==> Executable(s, q, va))
    ensures Execs(s') == Execs(s)[p := x]
  {
    forall q | q in s.procs && q != p ensures q in s'.procs && ExecPages(s', q) == ExecPages(s, q) {
      assert q in s'.procs.Keys;
      forall va ensures va in ExecPages(s', q) <==> va in ExecPages(s, q) {
        assert Executable(s', q, va) <==> Executable(s, q, va);
      }
    }
    hide ExecPages;
    assert Execs(s').Keys == Execs(s).Keys + {p};
  }

  /** A fork makes every user page of the child executable, and changes no other process. */
  lemma ForkExecs(s: Machine, p: Pid, c: Pid)
    requires Backed(s) && p in s.procs && c !in s.procs
    ensures p in Abs(s) && Execs(Fork(s, p, c)) == Execs(s)[c := Abs(s)[p].Keys]
  {
    var s', t := Fork(s, p, c), s.procs[p];
    ForkExecutes(s, p, c);
    forall va ensures va in ExecPages(s', c) <==> va in t && t[va].perm.u {}
    assert View(s, p).Keys == ExecPages(s', c);
    assert s'.procs.Keys == s.procs.Keys + {c};
    hide Fork, Backed, View, ExecPages, Executable;
    ExecsAt(s, s', c, View(s, p).Keys);
  }

  lemma FailedForkExecs(s: Machine, p: Pid, changed: set<Va>, mapped: set<Va>)
    requires p in s.procs
    ensures Execs(FailedFork(s, p, changed, mapped)) == Execs(s)
  {
    var s' := FailedFork(s, p, changed, mapped);
    forall q, va ensures Executable(s', q, va) <==> Executable(s, q, va) {}
    assert s'.procs.Keys == s.procs.Keys;
    SameExecs(s, s');
  }

  lemma RepairExecs(s: Machine, p: Pid, va: Va, n: int)
    requires Backed(s) && Mapped(s, p, va) && n in s.mem
    ensures Execs(Repair(s, p, va, n)) == Execs(s)
    ensures forall q, vb :: Executable(Repair(s, p, va, n), q, vb) <==> Executable(s, q, vb)
  {
    RepairPerms(s, p, va, n);
    hide Repair;
    forall q, vb ensures Executable(Repair(s, p, va, n), q, vb) <==> Executable(s, q, vb) {
      assert Mapped(Repair(s, p, va, n), q, vb) <==> Mapped(s, q, vb);
    }
    SameExecs(s, Repair(s, p, va, n));
  }

  lemma MapExecs(s: Machine, p: Pid, va: Va, n: int, perm: Perm, data: Frame)
    requires p in s.procs && va !in s.procs[p] && n in s.refcnt
    ensures Execs(MapFresh(s, p, va, n, perm, data)) ==
              Execs(s)[p := Execs(s)[p] + if perm.u && perm.x then {va} else {}]
  {
    var s' := MapFresh(s, p, va, n, perm, data);
    var more: set<Va> := if perm.u && perm.x then {va} else {};
    assert s'.procs.Keys == s.procs.Keys + {p};
    forall q, vb ensures q != p ==> (Executable(s', q, vb) <==> Executable(s, q, vb)) {}
    forall vb ensures Executable(s', p, vb) <==> Executable(s, p, vb) || vb in more {}
    hide MapFresh, Executable;
    MorePages(s, s', p, more);
    ExecsAt(s, s', p, ExecPages(s, p) + more);
  }

  lemma MorePages(s: Machine, s': Machine, p: Pid, more: set<Va>)
    requires p in s.procs && p in s'.procs && forall va :: Executable(s', p, va) <==> Executable(s, p, va) || va in more
    ensures ExecPages(s', p) == ExecPages(s, p) + more
  {
    forall va ensures va in ExecPages(s', p) <==> va in ExecPages(s, p) + more {
      assert Executable(s', p, va) <==> Executable(s, p, va) || va in more;
    }
  }

  lemma SpawnExecs(s: Machine, p: Pid)
    requires p !in s.procs
    ensures Execs(s.(procs := s.procs[p := map[]])) == Execs(s)[p := {}]
  {
    var s' := s.(procs := s.procs[p := map[]]);
    forall q, vb ensures q != p ==> (Executable(s', q, vb) <==> Executable(s, q, vb)) {}
    ExecsAt(s, s', p, {});
  }

  lemma DropExecs(s: Machine, p: Pid)
    ensures Execs(Drop(s, p)) == Execs(s) - {p}
  {
    var s' := Drop(s, p);
    forall q | q in s'.procs ensures ExecPages(s', q) == ExecPages(s, q) {
      forall vb ensures vb in ExecPages(s', q) <==> vb in ExecPages(s, q) {}
    }
  }
}
