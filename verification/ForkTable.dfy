/** The loop of fork over real page tables: it changes permissions in the table it iterates over,
    and does to the two tables what the copy-on-write machine says of its abstract ones. */
module ForkTable {
  import C = CowSpec
  import opened PageSpec
  import opened PageTable
  import opened Seqs

  function CowPte(e: Pte): C.Pte {
    C.Pte(e.ppn, C.Perm(e.perm.r, e.perm.w, e.perm.x, e.perm.u, e.perm.cow))
  }

  function ToPte(e: C.Pte): Pte {
    Pte(true, Perm(e.perm.r, e.perm.w, e.perm.x, e.perm.u, e.perm.cow), true, true, e.page)
  }

  predicate UserPage(va: int) {
    0 <= va < MAX_VA && va % 4096 == 0
  }

  /** The 4K entries of a page table are those of `t`. */
  ghost predicate Spells(mem: Memory, sh: Shape, root: int, t: C.Table)
    requires Tree(mem, sh, root)
  {
    && (forall va :: va in t ==> UserPage(va))
    && forall va :: UserPage(va) ==> SpellsAt(mem, sh, root, t, va)
  }

  ghost predicate SpellsAt(mem: Memory, sh: Shape, root: int, t: C.Table, va: int)
    requires Tree(mem, sh, root)
  {
    match Page(mem, sh, root, va)
    case None => va !in t
    case Some(e) => va in t && t[va] == CowPte(e)
  }

  /** Lookup finds the entries of `t` as 4K pages, and nothing else below the limit. */
  ghost predicate Finds(mem: Memory, sh: Shape, root: int, t: C.Table)
    requires Tree(mem, sh, root)
  {
    forall va :: UserPage(va) ==> Lookup(mem, sh, root, va) == if va in t then Some((ToPte(t[va]), 0)) else None
  }

  /** In a table without bare entries what is found is what is iterated over. */
  lemma FindsSpells(mem: Memory, sh: Shape, root: int, t: C.Table)
    requires Tree(mem, sh, root) && NoBare(mem, sh) && Finds(mem, sh, root, t) && forall va :: va in t ==> UserPage(va)
    ensures Spells(mem, sh, root, t)
  {
    hide Tree, Lookup, Page, NoBare;
    forall va | UserPage(va) ensures SpellsAt(mem, sh, root, t, va) {
      PageIsLookup(mem, sh, root, va);
    }
  }

  /** The iterator yields exactly the pages of `t`, each once, in ascending order. */
  lemma YieldsAll(mem: Memory, sh: Shape, root: int, ms: seq<VaMapping>, t: C.Table)
    requires Tree(mem, sh, root) && Spells(mem, sh, root, t) && PageTable.Enumerates(mem, sh, root, ms, MAX_VA)
    ensures forall i, j :: 0 <= i < j < |ms| ==> ms[i].va < ms[j].va
    ensures forall va :: va in t <==> Listed(ms, va)
    ensures forall i :: 0 <= i < |ms| ==>
      var (pt, k) := ms[i].pte;
      ms[i].va in t && pt in mem && 0 <= k < |mem[pt]| && t[ms[i].va] == CowPte(mem[pt][k])
  {
    hide Tree, Page, CowPte;
    forall i | 0 <= i < |ms|
      ensures var (pt, k) := ms[i].pte;
        ms[i].va in t && pt in mem && 0 <= k < |mem[pt]| && t[ms[i].va] == CowPte(mem[pt][k])
    {
      PageEntry(mem, sh, root, t, ms[i].va, ms[i].pte);
    }
    forall va | va in t ensures Listed(ms, va) {
      assert SpellsAt(mem, sh, root, t, va);
    }
  }

  // ----- rewriting a 4K entry in place

  lemma RewriteTree(mem: Memory, sh: Shape, root: int, t: int, i: int, e: Pte)
    requires Tree(mem, sh, root) && t in mem && t in sh.level && sh.level[t] == 0 && 0 <= i < 512
    requires e.valid && (e.Leaf() ==> e.accessed && e.dirty)
    ensures |mem[t]| == 512 && Tree(Written(mem, t, i, e), sh, root)
  {
    assert TableOk(mem, sh, t);
    var m := Written(mem, t, i, e);
    forall u | u in m ensures TableOk(m, sh, u) {
      assert TableOk(mem, sh, u);
      forall j | 0 <= j < 512 ensures EntryOk(m, sh, u, j, m[u][j]) {
        assert EntryOk(mem, sh, u, j, mem[u][j]);
      }
    }
  }

  /** The walk to the last level never reads the entry. */
  lemma {:induction false} RewriteReach(mem: Memory, sh: Shape, root: int, t: int, i: int, e: Pte, u: int, level: int, va: int)
    requires Tree(mem, sh, root) && t in mem && t in sh.level && sh.level[t] == 0 && 0 <= i < 512 && |mem[t]| == 512
    requires Tree(Written(mem, t, i, e), sh, root)
    requires u in mem && u in sh.level && 0 <= level <= 2 && sh.level[u] == level
    ensures Reach(Written(mem, t, i, e), sh, root, u, level, va, 0) == Reach(mem, sh, root, u, level, va, 0)
    decreases level
  {
    hide Tree;
    var j := Vpn(level, va);
    EntryAt(mem, sh, root, u, j);
    if level > 0 && !mem[u][j].Leaf() && mem[u][j].valid {
      RewriteReach(mem, sh, root, t, i, e, mem[u][j].ppn, level - 1, va);
    }
  }

  /** What lookup finds is as before, or it is at the last level. */
  lemma {:induction false} RewriteFind(mem: Memory, sh: Shape, root: int, t: int, i: int, e: Pte, u: int, level: int, va: int)
    requires Tree(mem, sh, root) && t in mem && t in sh.level && sh.level[t] == 0 && 0 <= i < 512 && |mem[t]| == 512
    requires Tree(Written(mem, t, i, e), sh, root)
    requires u in mem && u in sh.level && 0 <= level <= 2 && sh.level[u] == level
    ensures var f := Find(Written(mem, t, i, e), sh, root, u, level, va);
      f == Find(mem, sh, root, u, level, va) || f == None || f.value.1 == 0
    decreases level
  {
    hide Tree;
    var j := Vpn(level, va);
    EntryAt(mem, sh, root, u, j);
    if level > 0 && !mem[u][j].Leaf() && mem[u][j].valid {
      RewriteFind(mem, sh, root, t, i, e, mem[u][j].ppn, level - 1, va);
    }
  }

  /** Two pages below the limit whose walks end at one entry are one page. */
  lemma SamePage(mem: Memory, sh: Shape, root: int, va: int, vb: int, t: int)
    requires Tree(mem, sh, root) && UserPage(va) && UserPage(vb) && Vpn(0, va) == Vpn(0, vb)
    requires root in mem && root in sh.level && sh.level[root] == 2
    requires Reach(mem, sh, root, root, 2, va, 0) == Some(t) == Reach(mem, sh, root, root, 2, vb, 0)
    ensures va == vb
  {
    hide Tree, Reach, Vpn;
    SameTable(mem, sh, root, root, root, 2, va, vb, 0);
    OwnRegion(va, vb);
  }

  lemma RewritePage(mem: Memory, sh: Shape, root: int, va: int, p: (int, int), e: Pte, vb: int)
    requires Tree(mem, sh, root) && IsPage(mem, sh, root, va, p) && UserPage(va) && UserPage(vb) && 0 <= p.1 < 512
    requires p.0 in mem && |mem[p.0]| == 512 && Tree(Written(mem, p.0, p.1, e), sh, root) && e.valid
    ensures Page(Written(mem, p.0, p.1, e), sh, root, vb) == if vb == va then Some(e) else Page(mem, sh, root, vb)
  {
    hide Tree, Reach;
    RootIn(mem, sh, root);
    var m := Written(mem, p.0, p.1, e);
    assert p.0 in sh.level && sh.level[p.0] == 0;
    RewriteReach(mem, sh, root, p.0, p.1, e, root, 2, vb);
    RewriteReach(mem, sh, root, p.0, p.1, e, root, 2, va);
    var r := Reach(mem, sh, root, root, 2, vb, 0);
    if r == Some(p.0) && Vpn(0, vb) == p.1 && vb != va {
      SamePage(mem, sh, root, va, vb, p.0);
    }
    if r.Some? { EntryAt(mem, sh, root, r.value, Vpn(0, vb)); }
  }

  lemma RewriteStart(mem: Memory, sh: Shape, root: int, t: int, i: int, e: Pte, w: int)
    requires Tree(mem, sh, root) && t in mem && t in sh.level && sh.level[t] == 0 && 0 <= i < 512 && |mem[t]| == 512
    requires Tree(Written(mem, t, i, e), sh, root) && w % 4096 == 0 && AtStart(mem, sh, root, w)
    ensures AtStart(Written(mem, t, i, e), sh, root, w)
  {
    RootIn(mem, sh, root);
    hide Tree, Find;
    RewriteFind(mem, sh, root, t, i, e, root, 2, w);
  }

  // ----- the abstract tables along the way

  ghost function Below(t: C.Table, u: int): set<int> {
    set va | va in t && va < u
  }

  lemma BelowNext(mem: Memory, sh: Shape, root: int, p: C.Table, t: C.Table, va: int, u: int)
    requires Tree(mem, sh, root) && Spells(mem, sh, root, p) && p.Keys == t.Keys
    requires UserPage(va) && va in t && va < u && NoneIn(mem, sh, root, va + 4096, u) && u <= MAX_VA
    ensures Below(t, u) == Below(t, va) + {va}
  {
    hide Tree, Page;
    forall v | v in t && va < v ensures u <= v {
      assert v in p && SpellsAt(mem, sh, root, p, v) && v >= va + 4096;
    }
  }

  lemma BelowFirst(mem: Memory, sh: Shape, root: int, t: C.Table, u: int)
    requires Tree(mem, sh, root) && Spells(mem, sh, root, t) && NoneIn(mem, sh, root, 0, u) && u <= MAX_VA
    ensures Below(t, u) == {}
  {
    hide Tree, Page;
    forall v | v in t ensures u <= v {
      assert UserPage(v) && SpellsAt(mem, sh, root, t, v);
    }
  }

  lemma ShareStep(t: C.Table, done: set<int>, va: int)
    requires va in t && va !in done && t[va].perm.u
    ensures va in C.ParentTable(t, done) && C.ParentTable(t, done)[va] == t[va]
    ensures C.ParentTable(t, done + {va}) == C.ParentTable(t, done)[va := C.Share(t[va])]
    ensures C.ChildTable(t, done + {va}) == C.ChildTable(t, done)[va := C.Pte(t[va].page, C.URX_COW)]
  {
  }

  lemma SkipStep(t: C.Table, done: set<int>, va: int)
    requires va in t && va !in done && !t[va].perm.u
    ensures C.ParentTable(t, done + {va}) == C.ParentTable(t, done)
    ensures C.ChildTable(t, done + {va}) == C.ChildTable(t, done)
  {
  }

  /** Writing the shared entry in place is updating the abstract table. */
  lemma SpellsShared(mem: Memory, sh: Shape, root: int, p: C.Table, va: int, q: (int, int), e: Pte)
    requires Tree(mem, sh, root) && Spells(mem, sh, root, p) && IsPage(mem, sh, root, va, q) && UserPage(va)
    requires 0 <= q.1 < 512 && q.0 in mem && |mem[q.0]| == 512 && Tree(Written(mem, q.0, q.1, e), sh, root) && e.valid
    ensures Spells(Written(mem, q.0, q.1, e), sh, root, p[va := CowPte(e)])
  {
    hide Tree, Page, IsPage, CowPte;
    var m, p' := Written(mem, q.0, q.1, e), p[va := CowPte(e)];
    forall vb | UserPage(vb) ensures SpellsAt(m, sh, root, p', vb) {
      RewritePage(mem, sh, root, va, q, e, vb);
      assert SpellsAt(mem, sh, root, p, vb);
    }
  }

  /** Mapping one more page into a table that finds `c`. */
  lemma FindsMore(m0: Memory, sh0: Shape, m1: Memory, sh1: Shape, root: int, c: C.Table, va: int, e: C.Pte)
    requires Tree(m0, sh0, root) && Tree(m1, sh1, root) && Finds(m0, sh0, root, c) && UserPage(va) && ToPte(e).Leaf()
    requires Remapped(m0, sh0, m1, sh1, root, va, 0, ToPte(e))
    ensures Finds(m1, sh1, root, c[va := e])
  {
    hide Tree, Lookup, ToPte, SameRegion;
    forall vb | UserPage(vb)
      ensures Lookup(m1, sh1, root, vb) == if vb in c[va := e] then Some((ToPte(c[va := e][vb]), 0)) else None
    {
      OwnRegion(va, vb);
    }
  }

  lemma OwnRegion(va: int, vb: int)
    requires UserPage(va) && UserPage(vb)
    ensures SameRegion(0, va, vb) <==> va == vb
  {
    RegionIsBlock(0, va, vb);
    hide SameRegion;
    assert va % 0x80_0000_0000 == va && vb % 0x80_0000_0000 == vb;
    assert va == va / 4096 * 4096 && vb == vb / 4096 * 4096;
  }

  lemma PageEntry(mem: Memory, sh: Shape, root: int, p: C.Table, va: int, q: (int, int))
    requires Tree(mem, sh, root) && Spells(mem, sh, root, p) && IsPage(mem, sh, root, va, q) && UserPage(va)
    ensures q.0 in mem && q.0 in sh.level && sh.level[q.0] == 0 && 0 <= q.1 < 512 && |mem[q.0]| == 512
    ensures mem[q.0][q.1].valid && (mem[q.0][q.1].Leaf() ==> mem[q.0][q.1].accessed && mem[q.0][q.1].dirty)
    ensures va in p && p[va] == CowPte(mem[q.0][q.1])
  {
    RootIn(mem, sh, root);
    EntryAt(mem, sh, root, q.0, q.1);
    assert SpellsAt(mem, sh, root, p, va);
  }

  /** Maps one page, as the loader and fork do, over whatever the table finds there. */
  method Mappg(pt: Pagetable, va: int, e: C.Pte, ptalloc: Alloc, ghost c: C.Table) returns (ok: bool)
    requires pt.Valid() && NoBare(pt.mem, pt.sh) && Fresh(ptalloc) && UserPage(va)
    requires Finds(pt.mem, pt.sh, pt.root, c) && 0 <= e.page < PPNS && ToPte(e).Leaf()
    modifies pt
    ensures pt.Valid() && NoBare(pt.mem, pt.sh)
    ensures Finds(pt.mem, pt.sh, pt.root, if ok then c[va := e] else c)
    ensures !ok ==> ptalloc(pt.mem.Keys) == None
  {
    hide Tree, Lookup, Finds, Remapped, NoBare;
    ghost var m0, sh0 := pt.mem, pt.sh;
    FoundLow(m0, sh0, pt.root, c, va);
    ok := pt.Map(va, e.page * 4096, 0, Perm(e.perm.r, e.perm.w, e.perm.x, e.perm.u, e.perm.cow), ptalloc);
    if ok {
      FindsMore(m0, sh0, pt.mem, pt.sh, pt.root, c, va, e);
    } else {
      SameFinds(m0, sh0, pt.mem, pt.sh, pt.root, c);
    }
  }

  lemma FoundLow(mem: Memory, sh: Shape, root: int, c: C.Table, va: int)
    requires Tree(mem, sh, root) && Finds(mem, sh, root, c) && UserPage(va)
    ensures Effective(Lookup(mem, sh, root, va), 0) == 0
  {
    hide Tree, Lookup;
  }

  /** One turn of the loop: makes the parent's entry for `u` copy-on-write and maps its page into
      the child.  Wherever the iterator may be, it stays ready. */
  method ShareOne(parent: Pagetable, child: Pagetable, ptalloc: Alloc, va: int, q: (int, int),
                  ghost t: C.Table, ghost done: set<int>)
    returns (ok: bool)
    requires parent != child && parent.Valid() && child.Valid() && Fresh(ptalloc)
    requires UserPage(va) && va !in done && IsPage(parent.mem, parent.sh, parent.root, va, q)
    requires q.0 in parent.mem && 0 <= q.1 < 512 && |parent.mem[q.0]| == 512 && parent.mem[q.0][q.1].perm.u
    requires Spells(parent.mem, parent.sh, parent.root, C.ParentTable(t, done))
    requires Finds(child.mem, child.sh, child.root, C.ChildTable(t, done)) && NoBare(child.mem, child.sh)
    requires va in t && 0 <= t[va].page < PPNS
    modifies parent, child
    ensures parent.Valid() && child.Valid() && parent.sh == old(parent.sh) && NoBare(child.mem, child.sh)
    ensures forall w :: w % 4096 == 0 && old(AtStart(parent.mem, parent.sh, parent.root, w)) ==>
              AtStart(parent.mem, parent.sh, parent.root, w)
    ensures Spells(parent.mem, parent.sh, parent.root, C.ParentTable(t, done + {va}))
    ensures Finds(child.mem, child.sh, child.root, C.ChildTable(t, if ok then done + {va} else done))
    ensures !ok ==> ptalloc(child.mem.Keys) == None
  {
    hide Tree, Page, IsPage, AtStart, Lookup, Spells, Finds, NoBare, C.ParentTable, C.ChildTable;
    ghost var p, c := C.ParentTable(t, done), C.ChildTable(t, done);
    var (pt, i) := q;
    PageEntry(parent.mem, parent.sh, parent.root, p, va, q);
    var e := parent.mem[pt][i];
    Untouched(t, done, va);
    ShareStep(t, done, va);
    var e' := e.(perm := e.perm.(w := false, cow := true));
    RewriteTree(parent.mem, parent.sh, parent.root, pt, i, e');
    SpellsShared(parent.mem, parent.sh, parent.root, p, va, q, e');
    forall w | w % 4096 == 0 && AtStart(parent.mem, parent.sh, parent.root, w)
      ensures AtStart(Written(parent.mem, pt, i, e'), parent.sh, parent.root, w)
    {
      RewriteStart(parent.mem, parent.sh, parent.root, pt, i, e', w);
    }
    parent.SetPte(pt, i, e');
    ok := Mappg(child, va, C.Pte(e.ppn, C.URX_COW), ptalloc, c);
  }

  /** Shares every user page of the parent with the child: the parent's entries lose the write
      permission while the iterator is under way.  `changed` and `mapped` tell how far it got. */
  method ShareAll(parent: Pagetable, child: Pagetable, ptalloc: Alloc, ghost t: C.Table)
    returns (ok: bool, ghost changed: set<int>, ghost mapped: set<int>)
    requires parent != child && parent.Valid() && child.Valid() && Fresh(ptalloc)
    requires Spells(parent.mem, parent.sh, parent.root, t)
    requires Finds(child.mem, child.sh, child.root, map[]) && NoBare(child.mem, child.sh)
    requires forall va :: va in t ==> 0 <= t[va].page < PPNS
    modifies parent, child
    ensures parent.Valid() && child.Valid()
    ensures Spells(parent.mem, parent.sh, parent.root, C.ParentTable(t, changed))
    ensures Finds(child.mem, child.sh, child.root, C.ChildTable(t, mapped)) && NoBare(child.mem, child.sh)
    ensures Spells(child.mem, child.sh, child.root, C.ChildTable(t, mapped))
    ensures ok ==> changed == mapped == t.Keys
    ensures !ok ==> ptalloc(child.mem.Keys) == None
  {
    hide Tree, Page, IsPage, AtStart, Lookup, Spells, Finds, NoBare, C.ParentTable, C.ChildTable, NoneIn;
    var iter := new PtIter(parent);
    StartsAtZero(parent.mem, parent.sh, parent.root);
    var m := iter.Next();
    ghost var u := if m.Some? then m.value.va else MAX_VA;
    BelowFirst(parent.mem, parent.sh, parent.root, t, u);
    NothingYet(t);
    while m.Some?
      invariant fresh(iter) && iter.pt == parent && iter.Ready() && child.Valid() && NoBare(child.mem, child.sh)
      invariant u == if m.Some? then m.value.va else MAX_VA
      invariant m.Some? ==> UserPage(u) && iter.va == u + 4096
      invariant m.Some? ==> IsPage(parent.mem, parent.sh, parent.root, u, m.value.pte)
      invariant Spells(parent.mem, parent.sh, parent.root, C.ParentTable(t, Below(t, u)))
      invariant Finds(child.mem, child.sh, child.root, C.ChildTable(t, Below(t, u)))
      decreases m.Some?, MAX_VA - u
    {
      ghost var p, done := C.ParentTable(t, Below(t, u)), Below(t, u);
      var (pt, i) := m.value.pte;
      PageEntry(parent.mem, parent.sh, parent.root, p, u, (pt, i));
      SameKeys(t, done);
      Untouched(t, done, u);
      if parent.mem[pt][i].perm.u {
        var made := ShareOne(parent, child, ptalloc, m.value.va, (pt, i), t, done);
        if !made {
          ChildSpells(child.mem, child.sh, child.root, parent.mem, parent.sh, parent.root, t, done + {u}, done);
          return false, done + {u}, done;
        }
      } else {
        SkipStep(t, done, u);
      }
      ghost var v := u;
      m := iter.Next();
      u := if m.Some? then m.value.va else MAX_VA;
      SameKeys(t, done + {v});
      BelowNext(parent.mem, parent.sh, parent.root, C.ParentTable(t, done + {v}), t, v, u);
    }
    SameKeys(t, Below(t, MAX_VA));
    AllBelow(parent.mem, parent.sh, parent.root, C.ParentTable(t, Below(t, MAX_VA)), t);
    ChildSpells(child.mem, child.sh, child.root, parent.mem, parent.sh, parent.root, t, t.Keys, t.Keys);
    return true, t.Keys, t.Keys;
  }

  /** All of the child's pages are pages of the parent. */
  lemma ChildSpells(mem: Memory, sh: Shape, root: int, pmem: Memory, psh: Shape, proot: int,
                    t: C.Table, changed: set<int>, mapped: set<int>)
    requires Tree(mem, sh, root) && NoBare(mem, sh) && Finds(mem, sh, root, C.ChildTable(t, mapped))
    requires Tree(pmem, psh, proot) && Spells(pmem, psh, proot, C.ParentTable(t, changed))
    ensures Spells(mem, sh, root, C.ChildTable(t, mapped))
  {
    hide Tree, Lookup, Page, NoBare, Finds;
    forall va | va in C.ChildTable(t, mapped) ensures UserPage(va) {
      assert va in C.ParentTable(t, changed);
    }
    FindsSpells(mem, sh, root, C.ChildTable(t, mapped));
  }

  /** A process loaded into an empty table page by page: what it maps is what fork iterates over. */
  method Load(pt: Pagetable, pages: seq<(int, C.Pte)>, ptalloc: Alloc) returns (ok: bool, ghost t: C.Table)
    requires pt.Valid() && NoBare(pt.mem, pt.sh) && Finds(pt.mem, pt.sh, pt.root, map[]) && Fresh(ptalloc)
    requires forall i :: 0 <= i < |pages| ==> Loadable(pages[i])
    modifies pt
    ensures pt.Valid() && NoBare(pt.mem, pt.sh) && Spells(pt.mem, pt.sh, pt.root, t)
    ensures ok ==> t == TableOf(pages)
    ensures !ok ==> ptalloc(pt.mem.Keys) == None
  {
    hide Tree, Lookup, Page, NoBare, Finds, Spells;
    t := map[];
    for i := 0 to |pages|
      invariant pt.Valid() && NoBare(pt.mem, pt.sh) && Finds(pt.mem, pt.sh, pt.root, t) && t == TableOf(pages[..i])
      invariant forall va :: va in t ==> UserPage(va)
    {
      var (va, e) := pages[i];
      assert Loadable(pages[i]) && pages[..i + 1][..i] == pages[..i];
      ok := Mappg(pt, va, e, ptalloc, t);
      if !ok {
        FindsSpells(pt.mem, pt.sh, pt.root, t);
        return false, t;
      }
      t := t[va := e];
    }
    assert pages[..|pages|] == pages;
    FindsSpells(pt.mem, pt.sh, pt.root, t);
    return true, t;
  }

  predicate Loadable(p: (int, C.Pte)) {
    UserPage(p.0) && 0 <= p.1.page < PPNS && ToPte(p.1).Leaf()
  }

  function TableOf(pages: seq<(int, C.Pte)>): C.Table {
    if pages == [] then map[] else TableOf(pages[..|pages| - 1])[pages[|pages| - 1].0 := pages[|pages| - 1].1]
  }

  /** A forked process forks: the grandchild has the child's entries, which sharing them again
      leaves as they were. */
  method ForkOfFork(parent: Pagetable, croot: int, groot: int, ptalloc: Alloc, ghost t: C.Table)
    returns (child: Pagetable, grandchild: Pagetable, ok: bool)
    requires parent.Valid() && Spells(parent.mem, parent.sh, parent.root, t) && Fresh(ptalloc)
    requires 0 <= croot < PPNS && 0 <= groot < PPNS && forall va :: va in t ==> 0 <= t[va].page < PPNS
    modifies parent
    ensures parent.Valid() && child.Valid() && grandchild.Valid()
    ensures ok ==>
      && Spells(parent.mem, parent.sh, parent.root, C.ParentTable(t, t.Keys))
      && Spells(child.mem, child.sh, child.root, C.ChildTable(t, t.Keys))
      && Spells(grandchild.mem, grandchild.sh, grandchild.root, C.ChildTable(t, t.Keys))
  {
    hide Tree, Lookup, Page, NoBare, Spells, C.ParentTable, C.ChildTable;
    child := new Pagetable(croot);
    grandchild := new Pagetable(groot);
    ghost var changed, mapped;
    ok, changed, mapped := ShareAll(parent, child, ptalloc, t);
    if ok {
      ghost var c := C.ChildTable(t, t.Keys);
      SharedAgain(t);
      ok, changed, mapped := ShareAll(child, grandchild, ptalloc, c);
    }
  }

  /** A child's entries are shared already: sharing them again changes none and copies all. */
  lemma SharedAgain(t: C.Table)
    ensures var c := C.ChildTable(t, t.Keys);
      && C.ParentTable(c, c.Keys) == c && C.ChildTable(c, c.Keys) == c
      && forall va :: va in c ==> va in t && c[va].page == t[va].page
  {
    var c := C.ChildTable(t, t.Keys);
    forall va | va in c ensures C.Share(c[va]) == c[va] {}
    assert C.ParentTable(c, c.Keys) == c;
  }

  lemma StartsAtZero(mem: Memory, sh: Shape, root: int)
    requires Tree(mem, sh, root)
    ensures AtStart(mem, sh, root, 0)
  {
    LookupLevel(mem, sh, root, 0);
  }

  lemma NothingYet(t: C.Table)
    ensures C.ParentTable(t, {}) == t && C.ChildTable(t, {}) == map[]
  {
  }

  lemma SameKeys(t: C.Table, done: set<int>)
    ensures C.ParentTable(t, done).Keys == t.Keys
  {
  }

  lemma Untouched(t: C.Table, done: set<int>, va: int)
    requires va in t && va !in done
    ensures va in C.ParentTable(t, done) && C.ParentTable(t, done)[va] == t[va]
    ensures va !in C.ChildTable(t, done)
  {
  }

  lemma SameFinds(m0: Memory, sh0: Shape, m1: Memory, sh1: Shape, root: int, c: C.Table)
    requires Tree(m0, sh0, root) && Tree(m1, sh1, root) && Finds(m0, sh0, root, c) && SameLookups(m0, sh0, m1, sh1, root)
    ensures Finds(m1, sh1, root, c)
  {
    hide Tree, Lookup;
  }

  lemma AllBelow(mem: Memory, sh: Shape, root: int, p: C.Table, t: C.Table)
    requires Tree(mem, sh, root) && Spells(mem, sh, root, p) && p.Keys == t.Keys
    ensures Below(t, MAX_VA) == t.Keys
  {
    assert forall va :: va in p ==> UserPage(va);
  }
}
