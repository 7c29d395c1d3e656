/** The RISC-V page table: walking, mapping and looking up, and the iterator over a process's
    pages. */
module PageTable {
  import opened PageSpec
  import opened Seqs

  // ----- the path of an address

  /** The table at level `to` that the walk for `va` reaches from table `t` at `level`. */
  ghost function Reach(mem: Memory, sh: Shape, root: int, t: int, level: int, va: int, to: int): (r: Option<int>)
    requires Tree(mem, sh, root) && t in mem && 0 <= to <= level <= 2 && sh.level[t] == level
    ensures r.Some? ==> r.value in mem && r.value in sh.level && sh.level[r.value] == to
    decreases level
  {
    assert TableOk(mem, sh, t);
    if level == to then Some(t)
    else
      var e := mem[t][Vpn(level, va)];
      assert EntryOk(mem, sh, t, Vpn(level, va), e);
      if e.Leaf() || !e.valid then None else Reach(mem, sh, root, e.ppn, level - 1, va, to)
  }

  /** Addresses whose walks reach the same table took the same path. */
  lemma {:induction false} SameTable(mem: Memory, sh: Shape, root: int, t: int, u: int, level: int, va: int, vb: int, to: int)
    requires Tree(mem, sh, root) && t in mem && u in mem && 0 <= to <= level <= 2
    requires sh.level[t] == level && sh.level[u] == level
    requires Reach(mem, sh, root, t, level, va, to).Some?
    requires Reach(mem, sh, root, t, level, va, to) == Reach(mem, sh, root, u, level, vb, to)
    ensures t == u && forall l :: to < l <= level ==> Vpn(l, va) == Vpn(l, vb)
    decreases level
  {
    if level > to {
      assert TableOk(mem, sh, t) && TableOk(mem, sh, u);
      var i, j := Vpn(level, va), Vpn(level, vb);
      assert EntryOk(mem, sh, t, i, mem[t][i]) && EntryOk(mem, sh, u, j, mem[u][j]);
      SameTable(mem, sh, root, mem[t][i].ppn, mem[u][j].ppn, level - 1, va, vb, to);
    }
  }

  lemma {:induction false} SamePath(mem: Memory, sh: Shape, root: int, t: int, level: int, va: int, vb: int, to: int)
    requires Tree(mem, sh, root) && t in mem && 0 <= to <= level <= 2 && sh.level[t] == level
    requires forall l :: to < l <= level ==> Vpn(l, va) == Vpn(l, vb)
    ensures Reach(mem, sh, root, t, level, va, to) == Reach(mem, sh, root, t, level, vb, to)
    decreases level
  {
    if level > to {
      assert TableOk(mem, sh, t);
      var i := Vpn(level, va);
      assert EntryOk(mem, sh, t, i, mem[t][i]);
      if !mem[t][i].Leaf() && mem[t][i].valid {
        SamePath(mem, sh, root, mem[t][i].ppn, level - 1, va, vb, to);
      }
    }
  }

  /** What lookup finds is what stands at the end of the path. */
  lemma {:induction false} FindReach(mem: Memory, sh: Shape, root: int, t: int, level: int, va: int, to: int)
    requires Tree(mem, sh, root) && t in mem && 0 <= to <= level <= 2 && sh.level[t] == level
    requires Reach(mem, sh, root, t, level, va, to).Some?
    ensures var r := Reach(mem, sh, root, t, level, va, to).value;
      Find(mem, sh, root, t, level, va) == Find(mem, sh, root, r, to, va)
    decreases level
  {
    if level > to {
      assert TableOk(mem, sh, t);
      var i := Vpn(level, va);
      assert EntryOk(mem, sh, t, i, mem[t][i]);
      FindReach(mem, sh, root, mem[t][i].ppn, level - 1, va, to);
    }
  }

  /** One more step along the path. */
  lemma {:induction false} ReachNext(mem: Memory, sh: Shape, root: int, t: int, level: int, va: int, to: int)
    requires Tree(mem, sh, root) && t in mem && 0 < to <= level <= 2 && sh.level[t] == level
    requires Reach(mem, sh, root, t, level, va, to).Some?
    ensures var r := Reach(mem, sh, root, t, level, va, to).value;
      && |mem[r]| == 512
      && Reach(mem, sh, root, t, level, va, to - 1) ==
           if mem[r][Vpn(to, va)].Leaf() || !mem[r][Vpn(to, va)].valid then None else Some(mem[r][Vpn(to, va)].ppn)
    decreases level
  {
    assert TableOk(mem, sh, t);
    var i := Vpn(level, va);
    assert EntryOk(mem, sh, t, i, mem[t][i]);
    if level > to {
      ReachNext(mem, sh, root, mem[t][i].ppn, level - 1, va, to);
    }
  }

  // ----- linking in a new table

  function Zeros(): seq<Pte> {
    seq(512, i => ZERO)
  }

  function Linked(mem: Memory, t: int, i: int, n: int): Memory
    requires t in mem && 0 <= i < |mem[t]|
  {
    mem[n := Zeros()][t := mem[t][i := Pte(true, NO_PERM, false, false, n)]]
  }

  ghost function LinkedShape(sh: Shape, t: int, i: int, n: int): Shape
    requires t in sh.level
  {
    Shape(sh.level[n := sh.level[t] - 1], sh.parent[n := (t, i)])
  }

  lemma LinkEntry(mem: Memory, sh: Shape, t: int, i: int, n: int, u: int, j: int, e: Pte)
    requires t in mem && t in sh.level && 0 <= i < |mem[t]| && n !in mem && u in mem && u in sh.level
    requires EntryOk(mem, sh, u, j, e)
    ensures EntryOk(Linked(mem, t, i, n), LinkedShape(sh, t, i, n), u, j, e)
  {
  }

  lemma LinkTree(mem: Memory, sh: Shape, root: int, t: int, i: int, n: int)
    requires Tree(mem, sh, root) && t in mem && sh.level[t] > 0 && 0 <= i < 512 && n !in mem
    ensures |mem[t]| == 512 && Tree(Linked(mem, t, i, n), LinkedShape(sh, t, i, n), root)
  {
    assert TableOk(mem, sh, t);
    var m, s := Linked(mem, t, i, n), LinkedShape(sh, t, i, n);
    forall u | u in m ensures TableOk(m, s, u) {
      if u == n {
        assert forall j :: 0 <= j < 512 ==> EntryOk(m, s, n, j, m[n][j]);
      } else {
        assert TableOk(mem, sh, u);
        forall j | 0 <= j < 512 ensures EntryOk(m, s, u, j, m[u][j]) {
          if u != t || j != i { LinkEntry(mem, sh, t, i, n, u, j, mem[u][j]); }
        }
      }
    }
  }

  /** Linking an empty table where nothing was linked changes no lookup. */
  lemma {:induction false} LinkFind(mem: Memory, sh: Shape, root: int, t: int, i: int, n: int, u: int, level: int, va: int)
    requires Tree(mem, sh, root) && t in mem && sh.level[t] > 0 && 0 <= i < 512 && n !in mem
    requires |mem[t]| == 512 && !mem[t][i].valid
    requires u in mem && 0 <= level <= 2 && sh.level[u] == level
    ensures Tree(Linked(mem, t, i, n), LinkedShape(sh, t, i, n), root)
    ensures Find(Linked(mem, t, i, n), LinkedShape(sh, t, i, n), root, u, level, va) == Find(mem, sh, root, u, level, va)
    decreases level
  {
    hide Tree, TableOk;
    EntryAt(mem, sh, root, t, i);
    LinkTree(mem, sh, root, t, i, n);
    var m, s := Linked(mem, t, i, n), LinkedShape(sh, t, i, n);
    var j := Vpn(level, va);
    EntryAt(mem, sh, root, u, j);
    if u == t && j == i {
      EntryAt(m, s, root, n, Vpn(level - 1, va));
    } else if !mem[u][j].Leaf() && mem[u][j].valid && level > 0 {
      LinkFind(mem, sh, root, t, i, n, mem[u][j].ppn, level - 1, va);
    }
  }

  lemma EntryAt(mem: Memory, sh: Shape, root: int, t: int, i: int)
    requires Tree(mem, sh, root) && t in mem && 0 <= i < 512
    ensures |mem[t]| == 512 && t in sh.level && 0 <= sh.level[t] <= 2 && EntryOk(mem, sh, t, i, mem[t][i])
    ensures root in mem && root in sh.level && sh.level[root] == 2
  {
    assert TableOk(mem, sh, t);
  }

  // ----- writing a leaf

  function Written(mem: Memory, t: int, i: int, e: Pte): Memory
    requires t in mem && 0 <= i < |mem[t]|
  {
    mem[t := mem[t][i := e]]
  }

  /** An entry that may stand in a table at `level`: a leaf, or at level 0 anything. */
  predicate Mappable(e: Pte, level: int) {
    e.valid && e.accessed && e.dirty && (level > 0 ==> e.Leaf())
  }

  lemma WriteTree(mem: Memory, sh: Shape, root: int, t: int, i: int, e: Pte)
    requires Tree(mem, sh, root) && t in mem && 0 <= i < 512 && t in sh.level && Mappable(e, sh.level[t])
    ensures |mem[t]| == 512 && Tree(Written(mem, t, i, e), sh, root)
  {
    assert TableOk(mem, sh, t);
    var m := Written(mem, t, i, e);
    forall u | u in m ensures TableOk(m, sh, u) {
      assert TableOk(mem, sh, u);
      forall j | 0 <= j < 512 ensures EntryOk(m, sh, u, j, m[u][j]) {
        assert EntryOk(mem, sh, u, j, mem[u][j]);
      }
    }
  }

  /** A written entry changes the lookups whose path leads to it, and only those. */
  lemma {:induction false} WriteFind(mem: Memory, sh: Shape, root: int, t: int, i: int, e: Pte, u: int, level: int, va: int)
    requires Tree(mem, sh, root) && t in mem && 0 <= i < 512 && t in sh.level && Mappable(e, sh.level[t])
    requires u in mem && 0 <= level <= 2 && sh.level[u] == level
    ensures |mem[t]| == 512 && 0 <= sh.level[t] && Tree(Written(mem, t, i, e), sh, root)
    ensures var l := sh.level[t];
      Find(Written(mem, t, i, e), sh, root, u, level, va) ==
        if l <= level && Reach(mem, sh, root, u, level, va, l) == Some(t) && Vpn(l, va) == i
        then if e.Leaf() then Some((e, l)) else None
        else Find(mem, sh, root, u, level, va)
    decreases level
  {
    hide Tree, TableOk;
    WriteTree(mem, sh, root, t, i, e);
    EntryAt(mem, sh, root, t, i);
    var j := Vpn(level, va);
    EntryAt(mem, sh, root, u, j);
    if level > 0 && !(u == t && j == i) && !mem[u][j].Leaf() && mem[u][j].valid {
      WriteFind(mem, sh, root, t, i, e, mem[u][j].ppn, level - 1, va);
    }
  }

  ghost predicate SameLookups(mem: Memory, sh: Shape, mem': Memory, sh': Shape, root: int)
    requires Tree(mem, sh, root) && Tree(mem', sh', root)
  {
    forall va :: Lookup(mem', sh', root, va) == Lookup(mem, sh, root, va)
  }

  /** The lookups in the region of `va` at `level` now find `e`; all others are as before. */
  ghost predicate Remapped(mem: Memory, sh: Shape, mem': Memory, sh': Shape, root: int, va: int, level: int, e: Pte)
    requires Tree(mem, sh, root) && Tree(mem', sh', root)
  {
    forall vb :: Lookup(mem', sh', root, vb) ==
      if SameRegion(level, va, vb) then if e.Leaf() then Some((e, level)) else None
      else Lookup(mem, sh, root, vb)
  }

  lemma WriteRemaps(mem: Memory, sh: Shape, root: int, t: int, e: Pte, va: int, level: int)
    requires Tree(mem, sh, root) && 0 <= level <= 2 && Reach(mem, sh, root, root, 2, va, level) == Some(t)
    requires Mappable(e, level)
    ensures |mem[t]| == 512 && Tree(Written(mem, t, Vpn(level, va), e), sh, root)
    ensures Remapped(mem, sh, Written(mem, t, Vpn(level, va), e), sh, root, va, level, e)
  {
    hide Tree;
    var i := Vpn(level, va);
    WriteTree(mem, sh, root, t, i, e) by { EntryAt(mem, sh, root, t, i); }
    EntryAt(mem, sh, root, t, i);
    var m := Written(mem, t, i, e);
    forall vb ensures Lookup(m, sh, root, vb) ==
      if SameRegion(level, va, vb) then if e.Leaf() then Some((e, level)) else None else Lookup(mem, sh, root, vb)
    {
      WriteFind(mem, sh, root, t, i, e, root, 2, vb);
      if SameRegion(level, va, vb) {
        SamePath(mem, sh, root, root, 2, va, vb, level);
      } else if Reach(mem, sh, root, root, 2, vb, level) == Some(t) {
        SameTable(mem, sh, root, root, root, 2, va, vb, level);
      }
    }
  }

  lemma LinkSame(mem: Memory, sh: Shape, root: int, t: int, i: int, n: int)
    requires Tree(mem, sh, root) && t in mem && t in sh.level && sh.level[t] > 0 && 0 <= i < 512 && n !in mem
    requires |mem[t]| == 512 && !mem[t][i].valid
    ensures Tree(Linked(mem, t, i, n), LinkedShape(sh, t, i, n), root)
    ensures SameLookups(mem, sh, Linked(mem, t, i, n), LinkedShape(sh, t, i, n), root)
  {
    hide Tree, Find;
    EntryAt(mem, sh, root, t, i);
    LinkTree(mem, sh, root, t, i, n);
    var m, s := Linked(mem, t, i, n), LinkedShape(sh, t, i, n);
    EntryAt(m, s, root, t, i);
    forall va ensures Lookup(m, s, root, va) == Lookup(mem, sh, root, va) {
      LinkFind(mem, sh, root, t, i, n, root, 2, va);
    }
  }

  /** The path of the address that the new table is linked in for. */
  lemma {:induction false} LinkReach(mem: Memory, sh: Shape, root: int, t: int, i: int, n: int, u: int, level: int, va: int, to: int)
    requires Tree(mem, sh, root) && t in mem && t in sh.level && sh.level[t] > 0 && 0 <= i < 512 && n !in mem
    requires |mem[t]| == 512 && !mem[t][i].valid
    requires u in mem && u in sh.level && 0 <= to <= level <= 2 && sh.level[u] == level && to == sh.level[t]
    ensures Tree(Linked(mem, t, i, n), LinkedShape(sh, t, i, n), root)
    ensures Reach(Linked(mem, t, i, n), LinkedShape(sh, t, i, n), root, u, level, va, to) == Reach(mem, sh, root, u, level, va, to)
    decreases level
  {
    hide Tree, TableOk;
    EntryAt(mem, sh, root, t, i);
    LinkTree(mem, sh, root, t, i, n);
    if level > to {
      var j := Vpn(level, va);
      EntryAt(mem, sh, root, u, j);
      if !mem[u][j].Leaf() && mem[u][j].valid {
        LinkReach(mem, sh, root, t, i, n, mem[u][j].ppn, level - 1, va, to);
      }
    }
  }

  ghost predicate AllLeaves(table: seq<Pte>) {
    forall i :: 0 <= i < |table| && table[i].valid ==> table[i].Leaf()
  }

  /** Every valid entry of a last-level table is a leaf, so that lookup finds all that the
      iterator yields. */
  ghost predicate NoBare(mem: Memory, sh: Shape) {
    forall t :: t in mem && t in sh.level && sh.level[t] == 0 ==> AllLeaves(mem[t])
  }

  lemma LinkNoBare(mem: Memory, sh: Shape, t: int, i: int, n: int)
    requires t in mem && t in sh.level && sh.level[t] > 0 && 0 <= i < |mem[t]| && n !in mem && NoBare(mem, sh)
    ensures NoBare(Linked(mem, t, i, n), LinkedShape(sh, t, i, n))
  {
  }

  lemma WriteNoBare(mem: Memory, sh: Shape, t: int, i: int, e: Pte)
    requires t in mem && t in sh.level && 0 <= i < |mem[t]| && e.valid && NoBare(mem, sh)
    ensures NoBare(Written(mem, t, i, e), sh) <==> e.Leaf() || sh.level[t] != 0
  {
    assert Written(mem, t, i, e)[t][i] == e;
  }

  /** The level a mapping of size `level` at `va` takes effect at: that of a covering superpage
      if there is one. */
  ghost function Effective(f: Option<(Pte, int)>, level: int): int {
    if f.Some? && f.value.1 > level then f.value.1 else level
  }

  /** The entry that maps the page at `pa`. */
  function LeafFor(pa: int, perm: Perm): Pte {
    Pte(true, perm, true, true, pa / 4096 % PPNS)
  }

  lemma BareLegal(e: Pte)
    ensures !e.Leaf() ==> Legal(e, 0)
  {
  }

  type Alloc = set<int> -> Option<int>

  /** The table allocator: a page not holding a table yet, or none. */
  ghost predicate Fresh(a: Alloc) {
    forall used: set<int> :: a(used).Some? ==> a(used).value !in used && 0 <= a(used).value < PPNS
  }

  class Pagetable {
    const root: int
    var mem: Memory
    ghost var sh: Shape

    ghost predicate Valid()
      reads this
    {
      Tree(mem, sh, root)
    }

    constructor (root: int)
      requires 0 <= root < PPNS
      ensures Valid() && this.root == root
      ensures forall va :: Lookup(mem, sh, root, va) == None
      ensures AllLegal(mem, sh, root) && NoBare(mem, sh)
    {
      this.root := root;
      mem := map[root := Zeros()];
      sh := Shape(map[root := 2], map[]);
      new;
      assert TableOk(mem, sh, root) by {
        assert forall j :: 0 <= j < 512 ==> EntryOk(mem, sh, root, j, mem[root][j]);
      }
    }

    /** The entry for `va` at `endlevel0`, or the leaf or gap met before; missing tables are
        allocated when `ptalloc` is given. */
    method Walk(va: int, endlevel0: int, ptalloc: Option<Alloc>) returns (pte: Option<(int, int)>, endlevel: int)
      requires Valid() && 0 <= endlevel0 <= 2 && 0 <= va
      requires ptalloc.Some? ==> Fresh(ptalloc.value)
      modifies this
      ensures Valid() && SameLookups(old(mem), old(sh), mem, sh, root)
      ensures old(NoBare(mem, sh)) ==> NoBare(mem, sh)
      ensures ptalloc == None ==> mem == old(mem) && sh == old(sh)
      ensures endlevel0 <= endlevel <= 2
      ensures pte.Some? ==> Reach(mem, sh, root, root, 2, va, endlevel) == Some(pte.value.0) && pte.value.1 == Vpn(endlevel, va)
      ensures pte.Some? && endlevel > endlevel0 ==> |mem[pte.value.0]| == 512 && mem[pte.value.0][pte.value.1].Leaf()
      ensures pte.Some? ==> endlevel == Effective(Lookup(mem, sh, root, va), endlevel0)
      ensures pte == None ==> Lookup(mem, sh, root, va) == None && endlevel > endlevel0
      ensures pte == None && ptalloc.Some? ==> ptalloc.value(mem.Keys) == None
      ensures pte == None ==> Reach(mem, sh, root, root, 2, va, endlevel).Some?
                              && Reach(mem, sh, root, root, 2, va, endlevel - 1) == None
      ensures root in mem && root in sh.level && sh.level[root] == 2
      ensures pte == None || endlevel > endlevel0 ==> Reach(mem, sh, root, root, 2, va, endlevel0) == None
    {
      hide Tree, Find, NoBare;
      var pt, level := root, 2;
      RootIn(mem, sh, root);
      while level > endlevel0
        invariant Valid() && SameLookups(old(mem), old(sh), mem, sh, root)
        invariant old(NoBare(mem, sh)) ==> NoBare(mem, sh)
        invariant ptalloc == None ==> mem == old(mem) && sh == old(sh)
        invariant root in mem && root in sh.level && sh.level[root] == 2
        invariant endlevel0 <= level <= 2 && Reach(mem, sh, root, root, 2, va, level) == Some(pt)
      {
        EntryAt(mem, sh, root, pt, Vpn(level, va));
        ReachNext(mem, sh, root, root, 2, va, level);
        FoundHere(mem, sh, root, va, level);
        Blocked(mem, sh, root, va, level, endlevel0);
        var i := Vpn(level, va);
        if mem[pt][i].Leaf() {
          return Some((pt, i)), level;
        } else if mem[pt][i].valid {
          pt := mem[pt][i].ppn;
        } else {
          match ptalloc
          case None => return None, level;
          case Some(f) =>
            var n := f(mem.Keys);
            if n == None { return None, level; }
            LinkSame(mem, sh, root, pt, i, n.value);
            LinkReach(mem, sh, root, pt, i, n.value, root, 2, va, level);
            if NoBare(mem, sh) { LinkNoBare(mem, sh, pt, i, n.value); }
            sh := LinkedShape(sh, pt, i, n.value);
            mem := mem[n.value := Zeros()];
            mem := mem[pt := mem[pt][i := mem[pt][i].(ppn := n.value, valid := true)]];
            ReachNext(mem, sh, root, root, 2, va, level);
            pt := n.value;
        }
        level := level - 1;
      }
      FoundHere(mem, sh, root, va, level);
      return Some((pt, Vpn(endlevel0, va))), endlevel0;
    }

    method SetPte(t: int, i: int, e: Pte)
      requires t in mem && 0 <= i < |mem[t]|
      modifies this`mem
      ensures mem == Written(old(mem), t, i, e) && mem[t][i] == e && |mem[t]| == |old(mem)[t]|
      ensures forall d :: Written(mem, t, i, d) == Written(old(mem), t, i, d)
    {
      mem := mem[t := mem[t][i := e]];
      forall d ensures Written(mem, t, i, d) == Written(old(mem), t, i, d) {
        assert mem[t][i := d] == old(mem)[t][i := d];
      }
    }

    /** Maps the page of size `level` at `va` to `pa`; false when a table could not be allocated. */
    method Map(va: int, pa: int, level: int, perm: Perm, ptalloc: Alloc) returns (ok: bool)
      requires Valid() && 0 <= level <= 2 && 0 <= va && 0 <= pa && Fresh(ptalloc)
      requires Effective(Lookup(mem, sh, root, va), level) > 0 ==> perm.r || perm.w || perm.x
      modifies this
      ensures Valid()
      ensures ok ==> Remapped(old(mem), old(sh), mem, sh, root, va, Effective(old(Lookup(mem, sh, root, va)), level),
                              LeafFor(pa, perm))
      ensures !ok ==> SameLookups(old(mem), old(sh), mem, sh, root) && Lookup(mem, sh, root, va) == None
      ensures !ok ==> ptalloc(mem.Keys) == None
      // all leaves stay legal exactly when what was mapped is, and leaves when it is one
      ensures old(AllLegal(mem, sh, root)) ==>
                var effective := Effective(old(Lookup(mem, sh, root, va)), level);
                (AllLegal(mem, sh, root) <==> (ok ==> Legal(LeafFor(pa, perm), effective)))
      ensures old(NoBare(mem, sh)) ==> (NoBare(mem, sh) <==> (ok ==> perm.r || perm.w || perm.x))
    {
      hide Tree, Lookup, Remapped, SameLookups, AllLegal, NoBare, Legal;
      var p, endlevel := Walk(va, level, Some(ptalloc));
      SameAt(old(mem), old(sh), mem, sh, root, va);
      if p == None {
        if AllLegal(old(mem), old(sh), root) { SameLegal(old(mem), old(sh), mem, sh, root); }
        return false;
      }
      var (t, i) := p.value;
      RootIn(mem, sh, root);
      ghost var e := LeafFor(pa, perm);
      WriteRemaps(mem, sh, root, t, e, va, endlevel);
      RemapFrom(old(mem), old(sh), mem, Written(mem, t, i, e), sh, root, va, endlevel, e);
      if NoBare(mem, sh) { WriteNoBare(mem, sh, t, i, e); }
      SetPte(t, i, mem[t][i].(ppn := pa / 4096 % PPNS));
      SetPte(t, i, mem[t][i].(perm := perm));
      SetPte(t, i, mem[t][i].(valid := true, accessed := true, dirty := true));
      if AllLegal(old(mem), old(sh), root) {
        RemapLegal(old(mem), old(sh), mem, sh, root, va, endlevel, e);
        BareLegal(e);
      }
      return true;
    }

    /** Maps a gigapage without allocating: `Map` at level 2. */
    method MapGiga(va: int, pa: int, perm: Perm)
      requires Valid() && 0 <= va && 0 <= pa && (perm.r || perm.w || perm.x)
      modifies this
      ensures Valid()
      ensures Remapped(old(mem), old(sh), mem, sh, root, va, 2, LeafFor(pa, perm))
      ensures old(AllLegal(mem, sh, root)) ==>
                (AllLegal(mem, sh, root) <==> Legal(LeafFor(pa, perm), 2))
      ensures old(NoBare(mem, sh)) ==> NoBare(mem, sh)
    {
      hide Tree, Lookup, Remapped, AllLegal, NoBare;
      var vpn := Vpn(2, va);
      RootIn(mem, sh, root);
      ghost var e := LeafFor(pa, perm);
      WriteRemaps(mem, sh, root, root, e, va, 2);
      if NoBare(mem, sh) { WriteNoBare(mem, sh, root, vpn, e); }
      SetPte(root, vpn, mem[root][vpn].(perm := perm));
      SetPte(root, vpn, mem[root][vpn].(ppn := pa / 4096 % PPNS));
      SetPte(root, vpn, mem[root][vpn].(valid := true, accessed := true, dirty := true));
      if AllLegal(old(mem), old(sh), root) {
        RemapLegal(old(mem), old(sh), mem, sh, root, va, 2, e);
      }
    }

    /** The leaf entry that maps `va`, and the size of the page it maps. */
    method LookupVa(va: int) returns (r: Option<(Pte, int)>)
      requires Valid() && 0 <= va
      modifies this
      ensures Valid() && mem == old(mem) && sh == old(sh)
      ensures r == match Lookup(mem, sh, root, va) { case None => None case Some(p) => Some((p.0, Size(p.1))) }
    {
      hide Tree, Lookup;
      var p, level := WalkOnly(va, 0);
      if p == None { return None; }
      var (t, i) := p.value;
      FoundHere(mem, sh, root, va, level);
      RootIn(mem, sh, root);
      if !mem[t][i].Leaf() { return None; }
      return Some((mem[t][i], Size(level)));
    }

    /** `Walk` without an allocator: nothing changes. */
    method WalkOnly(va: int, endlevel0: int) returns (pte: Option<(int, int)>, endlevel: int)
      requires Valid() && 0 <= endlevel0 <= 2 && 0 <= va
      modifies this
      ensures Valid() && mem == old(mem) && sh == old(sh)
      ensures endlevel0 <= endlevel <= 2
      ensures root in mem && root in sh.level && sh.level[root] == 2
      ensures pte.Some? ==> Reach(mem, sh, root, root, 2, va, endlevel) == Some(pte.value.0) && pte.value.1 == Vpn(endlevel, va)
      ensures pte.Some? && endlevel > endlevel0 ==> |mem[pte.value.0]| == 512 && mem[pte.value.0][pte.value.1].Leaf()
      ensures pte.Some? ==> endlevel == Effective(Lookup(mem, sh, root, va), endlevel0)
      ensures pte == None ==> Lookup(mem, sh, root, va) == None && endlevel > endlevel0
      ensures pte == None || endlevel > endlevel0 ==> Reach(mem, sh, root, root, 2, va, endlevel0) == None
    {
      hide Tree, Lookup, SameLookups;
      pte, endlevel := Walk(va, endlevel0, None);
      RootIn(mem, sh, root);
    }
  }

  lemma RootIn(mem: Memory, sh: Shape, root: int)
    requires Tree(mem, sh, root)
    ensures root in mem && root in sh.level && sh.level[root] == 2
  {
  }

  lemma SameAt(mem: Memory, sh: Shape, mem': Memory, sh': Shape, root: int, va: int)
    requires Tree(mem, sh, root) && Tree(mem', sh', root) && SameLookups(mem, sh, mem', sh', root)
    ensures Lookup(mem', sh', root, va) == Lookup(mem, sh, root, va)
  {
  }

  lemma RemapFrom(m0: Memory, sh0: Shape, m1: Memory, m2: Memory, sh: Shape, root: int, va: int, level: int, e: Pte)
    requires Tree(m0, sh0, root) && Tree(m1, sh, root) && Tree(m2, sh, root)
    requires SameLookups(m0, sh0, m1, sh, root) && Remapped(m1, sh, m2, sh, root, va, level, e)
    ensures Remapped(m0, sh0, m2, sh, root, va, level, e)
  {
    forall vb ensures Lookup(m2, sh, root, vb) ==
      if SameRegion(level, va, vb) then if e.Leaf() then Some((e, level)) else None else Lookup(m0, sh0, root, vb)
    {
      SameAt(m0, sh0, m1, sh, root, vb);
    }
  }

  /** What lookup finds when the walk has come as far as `level`. */
  lemma FoundHere(mem: Memory, sh: Shape, root: int, va: int, level: int)
    requires Tree(mem, sh, root) && 0 <= level <= 2 && Reach(mem, sh, root, root, 2, va, level).Some?
    ensures var t := Reach(mem, sh, root, root, 2, va, level).value;
      && |mem[t]| == 512
      && (mem[t][Vpn(level, va)].Leaf() ==> Lookup(mem, sh, root, va) == Some((mem[t][Vpn(level, va)], level)))
      && (level == 0 && !mem[t][Vpn(level, va)].Leaf() ==> Lookup(mem, sh, root, va) == None)
      && (!mem[t][Vpn(level, va)].valid ==> Lookup(mem, sh, root, va) == None)
      && (Lookup(mem, sh, root, va).Some? ==> Lookup(mem, sh, root, va).value.1 <= level)
  {
    FindReach(mem, sh, root, root, 2, va, level);
    var t := Reach(mem, sh, root, root, 2, va, level).value;
    EntryAt(mem, sh, root, t, Vpn(level, va));
    FindLevel(mem, sh, root, t, level, va);
  }

  lemma ReachNone(mem: Memory, sh: Shape, root: int, t: int, level: int, va: int, to: int)
    requires Tree(mem, sh, root) && t in mem && t in sh.level && 0 < to <= level <= 2 && sh.level[t] == level
    requires Reach(mem, sh, root, t, level, va, to) == None
    ensures Reach(mem, sh, root, t, level, va, to - 1) == None
  {
    var j := Vpn(level, va);
    EntryAt(mem, sh, root, t, j);
  }

  /** Behind a leaf or a gap the walk reaches no table. */
  lemma Blocked(mem: Memory, sh: Shape, root: int, va: int, level: int, to: int)
    requires Tree(mem, sh, root) && root in mem && root in sh.level && sh.level[root] == 2 && 0 <= to < level <= 2
    requires Reach(mem, sh, root, root, 2, va, level).Some?
    ensures var t := Reach(mem, sh, root, root, 2, va, level).value;
      && |mem[t]| == 512
      && (mem[t][Vpn(level, va)].Leaf() || !mem[t][Vpn(level, va)].valid ==> Reach(mem, sh, root, root, 2, va, to) == None)
  {
    hide Tree;
    ReachNext(mem, sh, root, root, 2, va, level);
    if to < level - 1 && Reach(mem, sh, root, root, 2, va, level - 1) == None {
      ReachNone(mem, sh, root, root, 2, va, level - 1);
    }
  }

  lemma {:induction false} FindLevel(mem: Memory, sh: Shape, root: int, t: int, level: int, va: int)
    requires Tree(mem, sh, root) && t in mem && t in sh.level && 0 <= level <= 2 && sh.level[t] == level
    ensures Find(mem, sh, root, t, level, va).Some? ==> 0 <= Find(mem, sh, root, t, level, va).value.1 <= level
    decreases level
  {
    var j := Vpn(level, va);
    EntryAt(mem, sh, root, t, j);
    if level > 0 && !mem[t][j].Leaf() && mem[t][j].valid {
      FindLevel(mem, sh, root, mem[t][j].ppn, level - 1, va);
    }
  }

  // ----- agreement with the hardware

  ghost predicate AllLegal(mem: Memory, sh: Shape, root: int)
    requires Tree(mem, sh, root)
  {
    forall va :: Lookup(mem, sh, root, va).Some? ==> Legal(Lookup(mem, sh, root, va).value.0, Lookup(mem, sh, root, va).value.1)
  }

  /** Where all leaves were legal, they all still are exactly when the one written is. */
  lemma RemapLegal(mem: Memory, sh: Shape, mem': Memory, sh': Shape, root: int, va: int, level: int, e: Pte)
    requires Tree(mem, sh, root) && Tree(mem', sh', root) && AllLegal(mem, sh, root)
    requires Remapped(mem, sh, mem', sh', root, va, level, e)
    ensures AllLegal(mem', sh', root) <==> (e.Leaf() ==> Legal(e, level))
  {
    hide Tree, Lookup, Legal;
    if e.Leaf() ==> Legal(e, level) {
      forall vb | Lookup(mem', sh', root, vb).Some?
        ensures Legal(Lookup(mem', sh', root, vb).value.0, Lookup(mem', sh', root, vb).value.1)
      {
        assert SameRegion(level, va, vb) || Lookup(mem', sh', root, vb) == Lookup(mem, sh, root, vb);
      }
    } else {
      assert SameRegion(level, va, va) && Lookup(mem', sh', root, va) == Some((e, level));
    }
  }

  lemma SameLegal(mem: Memory, sh: Shape, mem': Memory, sh': Shape, root: int)
    requires Tree(mem, sh, root) && Tree(mem', sh', root) && AllLegal(mem, sh, root)
    requires SameLookups(mem, sh, mem', sh', root)
    ensures AllLegal(mem', sh', root)
  {
    hide Tree, Lookup, Legal;
    forall vb | Lookup(mem', sh', root, vb).Some?
      ensures Legal(Lookup(mem', sh', root, vb).value.0, Lookup(mem', sh', root, vb).value.1)
    {
      SameAt(mem, sh, mem', sh', root, vb);
    }
  }

  /** With all leaves legal, software and hardware agree on every canonical address. */
  lemma HardwareAgrees(mem: Memory, sh: Shape, root: int, va: int)
    requires Tree(mem, sh, root) && AllLegal(mem, sh, root) && Canonical(va)
    ensures Translate(mem, root, va) == Answer(Lookup(mem, sh, root, va), va)
  {
    hide Tree, Lookup, Legal;
    LookupIsTranslation(mem, sh, root, va);
  }

  /** What was mapped is where the hardware goes: every canonical address of the region translates
      to the same offset in the physical page or superpage, with the permissions given. */
  lemma MapTranslates(mem: Memory, sh: Shape, mem': Memory, sh': Shape, root: int, va: int, level: int,
                      pa: int, perm: Perm, vb: int)
    requires Tree(mem, sh, root) && Tree(mem', sh', root) && 0 <= level <= 2
    requires Remapped(mem, sh, mem', sh', root, va, level, LeafFor(pa, perm))
    requires 0 <= pa < PPNS * 4096 && pa % Size(level) == 0 && (perm.w ==> perm.r) && (perm.r || perm.x)
    requires Canonical(vb) && SameRegion(level, va, vb)
    ensures Translate(mem', root, vb) == Translated(pa + vb % Size(level), perm)
  {
    AlignedPage(pa, level);
    hide Tree, Lookup, Translate;
    assert Lookup(mem', sh', root, vb) == Some((LeafFor(pa, perm), level));
    LookupIsTranslation(mem', sh', root, vb);
  }

  lemma AlignedPage(pa: int, level: int)
    requires 0 <= level <= 2 && 0 <= pa < PPNS * 4096 && pa % Size(level) == 0
    ensures pa / 4096 % PPNS * 4096 == pa && pa / 4096 % PPNS % Pow512(level) == 0
  {
    var k := pa / Size(level);
    assert pa == k * Size(level);
    if level == 0 {
      Pages(pa, k, 1);
    } else if level == 1 {
      Pages(pa, k, 512);
      Mega(pa, k, 0);
    } else {
      Pages(pa, k, 262144);
    }
  }

  lemma Pages(pa: int, k: int, m: int)
    requires 0 <= pa < PPNS * 4096 && pa == k * (m * 4096) && (m == 1 || m == 512 || m == 262144)
    ensures pa / 4096 == k * m && pa / 4096 % PPNS == k * m && k * m * 4096 == pa && k * m % m == 0
  {
  }

  // ----- iterating over pages

  /** The valid 4K entry for the page at `va`, if its table exists. */
  ghost function Page(mem: Memory, sh: Shape, root: int, va: int): Option<Pte>
    requires Tree(mem, sh, root)
  {
    assert root in mem && sh.level[root] == 2;
    var r := Reach(mem, sh, root, root, 2, va, 0);
    if r == None then None
    else
      assert TableOk(mem, sh, r.value);
      var e := mem[r.value][Vpn(0, va)];
      if e.valid then Some(e) else None
  }

  /** Where no entry is bare, the pages are the leaves that lookup finds at the last level. */
  lemma PageIsLookup(mem: Memory, sh: Shape, root: int, va: int)
    requires Tree(mem, sh, root) && NoBare(mem, sh)
    ensures var f := Lookup(mem, sh, root, va);
      Page(mem, sh, root, va) == if f.Some? && f.value.1 == 0 then Some(f.value.0) else None
  {
    hide Tree, Find;
    RootIn(mem, sh, root);
    if Reach(mem, sh, root, root, 2, va, 0).Some? {
      var t := Reach(mem, sh, root, root, 2, va, 0).value;
      EntryAt(mem, sh, root, t, Vpn(0, va));
      FoundHere(mem, sh, root, va, 0);
    } else if Lookup(mem, sh, root, va).Some? && Lookup(mem, sh, root, va).value.1 == 0 {
      FoundReach(mem, sh, root, root, 2, va);
    }
  }

  /** A leaf found at the last level stands in a table that the walk reaches. */
  lemma {:induction false} FoundReach(mem: Memory, sh: Shape, root: int, t: int, level: int, va: int)
    requires Tree(mem, sh, root) && t in mem && t in sh.level && 0 <= level <= 2 && sh.level[t] == level
    requires Find(mem, sh, root, t, level, va).Some? && Find(mem, sh, root, t, level, va).value.1 == 0
    ensures Reach(mem, sh, root, t, level, va, 0).Some?
    decreases level
  {
    if level > 0 {
      EntryAt(mem, sh, root, t, Vpn(level, va));
      FoundReach(mem, sh, root, mem[t][Vpn(level, va)].ppn, level - 1, va);
    }
  }

  const MAX_VA := 0x7fff_1000

  datatype VaMapping = VaMapping(pte: (int, int), va: int, size: int)

  /** The superpage that maps `va`, if one does, starts at `va`. */
  ghost predicate AtStart(mem: Memory, sh: Shape, root: int, va: int)
    requires Tree(mem, sh, root)
  {
    Lookup(mem, sh, root, va).Some? ==> va % Size(Lookup(mem, sh, root, va).value.1) == 0
  }

  lemma {:induction false} FindRegion(mem: Memory, sh: Shape, root: int, t: int, level: int, va: int, vb: int)
    requires Tree(mem, sh, root) && t in mem && t in sh.level && 0 <= level <= 2 && sh.level[t] == level
    requires Find(mem, sh, root, t, level, va).Some?
    requires forall l :: Find(mem, sh, root, t, level, va).value.1 <= l <= level ==> Vpn(l, va) == Vpn(l, vb)
    ensures Find(mem, sh, root, t, level, vb) == Find(mem, sh, root, t, level, va)
    decreases level
  {
    FindLevel(mem, sh, root, t, level, va);
    var j := Vpn(level, va);
    EntryAt(mem, sh, root, t, j);
    assert j == Vpn(level, vb);
    if level > 0 && !mem[t][j].Leaf() && mem[t][j].valid {
      FindRegion(mem, sh, root, mem[t][j].ppn, level - 1, va, vb);
    }
  }

  /** All of a superpage's addresses look up alike. */
  lemma LookupRegion(mem: Memory, sh: Shape, root: int, va: int, vb: int)
    requires Tree(mem, sh, root) && Lookup(mem, sh, root, va).Some?
    requires SameRegion(Lookup(mem, sh, root, va).value.1, va, vb)
    ensures Lookup(mem, sh, root, vb) == Lookup(mem, sh, root, va)
    ensures 0 <= Lookup(mem, sh, root, va).value.1 <= 2
  {
    RootIn(mem, sh, root);
    FindLevel(mem, sh, root, root, 2, va);
    FindRegion(mem, sh, root, root, 2, va, vb);
  }

  lemma BlockRegion(level: int, va: int, vb: int)
    requires 0 <= level <= 2 && 0 <= va && 0 <= vb && va / Size(level) == vb / Size(level)
    ensures SameRegion(level, va, vb)
  {
    Quotients(va);
    Quotients(vb);
  }

  /** A step of a smaller level's size from a multiple of it stays in the block unless it ends
      on a boundary. */
  lemma StepInside(small: int, level: int, va: int)
    requires 0 <= small < level <= 2 && 0 <= va && va % Size(small) == 0
    ensures (va + Size(small)) % Size(level) == 0 || (va + Size(small)) / Size(level) == va / Size(level)
  {
  }

  lemma StepKeeps(small: int, level: int, va: int)
    requires 0 <= level <= small <= 2 && 0 <= va && va % Size(small) == 0
    ensures (va + Size(small)) % Size(level) == 0
  {
    if small == 2 {
      GigaAligned(va, va / 0x4000_0000 + 1);
    } else if small == 1 {
      MegaAligned(va, va / 0x20_0000 + 1);
    }
  }

  lemma Whole(x: int, k: int)
    requires x == k * 4096
    ensures x % 4096 == 0
  {
  }

  lemma GigaAligned(va: int, k: int)
    requires va + 0x4000_0000 == k * 0x4000_0000
    ensures (va + 0x4000_0000) % 0x4000_0000 == 0 && (va + 0x4000_0000) % 0x20_0000 == 0
    ensures (va + 0x4000_0000) % 4096 == 0
  {
    var x := va + 0x4000_0000;
    Giga(x, k, 0);
    Mega(x, k * 512, 0);
    Whole(x, k * 262144);
  }

  lemma MegaAligned(va: int, k: int)
    requires va + 0x20_0000 == k * 0x20_0000
    ensures (va + 0x20_0000) % 0x20_0000 == 0 && (va + 0x20_0000) % 4096 == 0
  {
    var x := va + 0x20_0000;
    Mega(x, k, 0);
    Whole(x, k * 512);
  }

  /** Stepping over what was found never ends inside a superpage. */
  lemma StartNext(mem: Memory, sh: Shape, root: int, va: int)
    requires Tree(mem, sh, root) && 0 <= va && va % 4096 == 0 && AtStart(mem, sh, root, va)
    ensures 0 <= Effective(Lookup(mem, sh, root, va), 0) <= 2
    ensures var w := va + Size(Effective(Lookup(mem, sh, root, va), 0));
      w % 4096 == 0 && AtStart(mem, sh, root, w)
  {
    hide Tree, Lookup, SameRegion;
    LookupLevel(mem, sh, root, va);
    var f := Lookup(mem, sh, root, va);
    var small := Effective(f, 0);
    var w := va + Size(small);
    StepKeeps(small, 0, va);
    LookupLevel(mem, sh, root, w);
    var g := Lookup(mem, sh, root, w);
    if g.Some? && w % Size(g.value.1) != 0 {
      var level := g.value.1;
      if level <= small {
        StepKeeps(small, level, va);
      } else {
        StepInside(small, level, va);
        BlockRegion(level, w, va);
        LookupRegion(mem, sh, root, w, va);
      }
    }
  }

  lemma LookupLevel(mem: Memory, sh: Shape, root: int, va: int)
    requires Tree(mem, sh, root)
    ensures Lookup(mem, sh, root, va).Some? ==> 0 <= Lookup(mem, sh, root, va).value.1 <= 2
  {
    RootIn(mem, sh, root);
    FindLevel(mem, sh, root, root, 2, va);
  }

  /** There are no pages inside what a superpage maps. */
  lemma NoPages(mem: Memory, sh: Shape, root: int, va: int, vb: int, level: int)
    requires Tree(mem, sh, root) && 0 <= va <= vb < va + Size(level) && 0 < level <= 2 && va % Size(level) == 0
    requires root in mem && root in sh.level && sh.level[root] == 2
    requires Reach(mem, sh, root, root, 2, va, level).Some? && Reach(mem, sh, root, root, 2, va, 0) == None
    requires var t := Reach(mem, sh, root, root, 2, va, level).value;
      |mem[t]| == 512 && mem[t][Vpn(level, va)].Leaf()
    ensures Page(mem, sh, root, vb) == None
  {
    InBlock(level, va, vb);
    BlockRegion(level, va, vb);
    SamePath(mem, sh, root, root, 2, va, vb, level);
    Blocked(mem, sh, root, vb, level, 0);
  }

  lemma InBlock(level: int, va: int, vb: int)
    requires 0 <= level <= 2 && 0 <= va <= vb < va + Size(level) && va % Size(level) == 0
    ensures va / Size(level) == vb / Size(level)
  {
  }

  /** No page starts in `[from, to)`. */
  ghost predicate NoneIn(mem: Memory, sh: Shape, root: int, from: int, to: int)
    requires Tree(mem, sh, root)
  {
    forall vb :: from <= vb < to && vb % 4096 == 0 ==> Page(mem, sh, root, vb) == None
  }

  class PtIter {
    const pt: Pagetable
    var va: int
    var pte: Option<(int, int)>

    constructor (pt: Pagetable)
      ensures this.pt == pt && va == 0 && pte == None
    {
      this.pt := pt;
      va, pte := 0, None;
    }

    ghost predicate Ready()
      reads this, pt
    {
      pt.Valid() && 0 <= va && va % 4096 == 0 && AtStart(pt.mem, pt.sh, pt.root, va)
    }

    /** Moves past the entry at `va`; `pte` is the page there, if there is one. */
    method Advance() returns (more: bool)
      requires Ready()
      modifies this, pt
      ensures Ready() && pt.mem == old(pt.mem) && pt.sh == old(pt.sh)
      ensures more == (old(va) < MAX_VA) && (!more ==> va == old(va) && pte == old(pte))
      ensures more ==> va > old(va) && NoneIn(pt.mem, pt.sh, pt.root, old(va) + 1, va)
      ensures more ==> (pte.Some? <==> Page(pt.mem, pt.sh, pt.root, old(va)).Some?)
      ensures more && pte.Some? ==> va == old(va) + 4096 && IsPage(pt.mem, pt.sh, pt.root, old(va), pte.value)
    {
      hide Tree, Lookup, Reach, AtStart;
      if va >= MAX_VA { return false; }
      StartNext(pt.mem, pt.sh, pt.root, va);
      var entry, level := pt.WalkOnly(va, 0);
      if entry.Some? {
        PageAt(pt.mem, pt.sh, pt.root, va, level, entry.value);
        if level != 0 || !pt.mem[entry.value.0][entry.value.1].valid {
          pte := None;
        } else {
          pte := entry;
        }
        if level > 0 {
          LookupIs(pt.mem, pt.sh, pt.root, va, level);
          forall vb | va + 1 <= vb < va + Size(level) && vb % 4096 == 0 ensures Page(pt.mem, pt.sh, pt.root, vb) == None {
            NoPages(pt.mem, pt.sh, pt.root, va, vb, level);
          }
        }
        va := va + Size(level);
      } else {
        pte := None;
        va := va + Size(0);
      }
      return true;
    }

    /** The next page at or after `va`, if any. */
    method Next() returns (m: Option<VaMapping>)
      requires Ready()
      modifies this, pt
      ensures Ready() && pt.mem == old(pt.mem) && pt.sh == old(pt.sh)
      ensures m == None ==> va >= MAX_VA && NoneIn(pt.mem, pt.sh, pt.root, old(va), MAX_VA)
      ensures m.Some? ==> m.value.size == 4096 && m.value.va % 4096 == 0 && old(va) <= m.value.va < MAX_VA
                          && va == m.value.va + 4096
      ensures m.Some? ==> NoneIn(pt.mem, pt.sh, pt.root, old(va), m.value.va)
                          && IsPage(pt.mem, pt.sh, pt.root, m.value.va, m.value.pte)
    {
      hide Page, IsPage, Tree, AtStart;
      var v := va;
      var more := Advance();
      if !more { return None; }
      while pte == None
        invariant Ready() && pt.mem == old(pt.mem) && pt.sh == old(pt.sh)
        invariant old(va) <= v < va && v % 4096 == 0 && v < MAX_VA
        invariant NoneIn(pt.mem, pt.sh, pt.root, old(va), v) && NoneIn(pt.mem, pt.sh, pt.root, v + 1, va)
        invariant pte.Some? <==> Page(pt.mem, pt.sh, pt.root, v).Some?
        invariant pte.Some? ==> va == v + 4096 && IsPage(pt.mem, pt.sh, pt.root, v, pte.value)
        decreases MAX_VA - v
      {
        v := va;
        more := Advance();
        if !more { return None; }
      }
      return Some(VaMapping(pte.value, v, 4096));
    }

    /** Runs over all pages from the start: each valid 4K entry below `MAX_VA`, once, in order. */
    method ForEach() returns (ms: seq<VaMapping>)
      requires Ready() && va == 0
      modifies this, pt
      ensures Ready() && pt.mem == old(pt.mem) && pt.sh == old(pt.sh)
      ensures Enumerates(pt.mem, pt.sh, pt.root, ms, MAX_VA)
    {
      hide Page, IsPage, Tree, AtStart;
      ms := [];
      var m := Next();
      assert NoneIn(pt.mem, pt.sh, pt.root, 0, 0);
      while m.Some?
        invariant Ready() && pt.mem == old(pt.mem) && pt.sh == old(pt.sh)
        invariant m.Some? ==> m.value.size == 4096 && m.value.va % 4096 == 0 && 0 <= m.value.va < MAX_VA
        invariant m.Some? ==> va == m.value.va + 4096 && IsPage(pt.mem, pt.sh, pt.root, m.value.va, m.value.pte)
        invariant Enumerates(pt.mem, pt.sh, pt.root, ms, if m.Some? then m.value.va else MAX_VA)
        decreases m.Some?, MAX_VA - va
      {
        ms := ms + [m.value];
        EnumerateNext(pt.mem, pt.sh, pt.root, ms, m.value);
        m := Next();
        EnumerateSkip(pt.mem, pt.sh, pt.root, ms, ms[|ms| - 1].va + 4096, if m.Some? then m.value.va else MAX_VA);
      }
    }
  }

  /** `ms` lists the pages that start below `to`, in ascending order. */
  ghost predicate Enumerates(mem: Memory, sh: Shape, root: int, ms: seq<VaMapping>, to: int)
    requires Tree(mem, sh, root)
  {
    && (forall i, j :: 0 <= i < j < |ms| ==> ms[i].va < ms[j].va)
    && (forall i :: 0 <= i < |ms| ==> 0 <= ms[i].va < to && ms[i].va % 4096 == 0 && ms[i].size == 4096
                                      && IsPage(mem, sh, root, ms[i].va, ms[i].pte))
    && (forall va :: 0 <= va < to && va % 4096 == 0 && Page(mem, sh, root, va).Some? ==> Listed(ms, va))
  }

  ghost predicate Listed(ms: seq<VaMapping>, va: int) {
    exists i :: 0 <= i < |ms| && ms[i].va == va
  }

  lemma EnumerateNext(mem: Memory, sh: Shape, root: int, ms: seq<VaMapping>, m: VaMapping)
    requires Tree(mem, sh, root) && ms != [] && ms[|ms| - 1] == m
    requires Enumerates(mem, sh, root, ms[..|ms| - 1], m.va)
    requires 0 <= m.va && m.va % 4096 == 0 && m.size == 4096 && IsPage(mem, sh, root, m.va, m.pte)
    ensures Enumerates(mem, sh, root, ms, m.va + 4096)
  {
    hide Tree, Page, IsPage;
    var n, pre := |ms| - 1, ms[..|ms| - 1];
    forall i | 0 <= i < n ensures ms[i] == pre[i] {}
    forall va | 0 <= va < m.va + 4096 && va % 4096 == 0 && Page(mem, sh, root, va).Some? ensures Listed(ms, va) {
      if va < m.va {
        assert Listed(pre, va);
      } else {
        assert va == m.va && ms[n].va == va;
      }
    }
  }

  lemma EnumerateSkip(mem: Memory, sh: Shape, root: int, ms: seq<VaMapping>, from: int, to: int)
    requires Tree(mem, sh, root) && Enumerates(mem, sh, root, ms, from) && NoneIn(mem, sh, root, from, to) && from <= to
    ensures Enumerates(mem, sh, root, ms, to)
  {
    hide Tree, Page, IsPage;
  }

  ghost predicate IsPage(mem: Memory, sh: Shape, root: int, va: int, p: (int, int))
    requires Tree(mem, sh, root)
  {
    assert root in mem && root in sh.level && sh.level[root] == 2;
    && Reach(mem, sh, root, root, 2, va, 0) == Some(p.0) && p.1 == Vpn(0, va)
    && p.1 < |mem[p.0]| && Page(mem, sh, root, va) == Some(mem[p.0][p.1])
  }

  lemma PageAt(mem: Memory, sh: Shape, root: int, va: int, level: int, p: (int, int))
    requires Tree(mem, sh, root) && root in mem && root in sh.level && sh.level[root] == 2 && 0 <= level <= 2
    requires Reach(mem, sh, root, root, 2, va, level) == Some(p.0) && p.1 == Vpn(level, va)
    requires level > 0 ==> Reach(mem, sh, root, root, 2, va, 0) == None
    ensures p.0 in mem && |mem[p.0]| == 512
    ensures level > 0 ==> Page(mem, sh, root, va) == None
    ensures level == 0 ==> (Page(mem, sh, root, va).Some? <==> mem[p.0][p.1].valid)
    ensures level == 0 && mem[p.0][p.1].valid ==> Page(mem, sh, root, va) == Some(mem[p.0][p.1])
  {
    EntryAt(mem, sh, root, p.0, p.1);
  }

  lemma LookupIs(mem: Memory, sh: Shape, root: int, va: int, level: int)
    requires Tree(mem, sh, root) && level > 0 && level == Effective(Lookup(mem, sh, root, va), 0)
    requires AtStart(mem, sh, root, va)
    ensures va % Size(level) == 0
  {
  }

  /** A leaf that is not legal faults in hardware although lookup finds it. */
  lemma IllegalFaults(mem: Memory, sh: Shape, root: int, va: int)
    requires Tree(mem, sh, root) && Canonical(va) && Lookup(mem, sh, root, va).Some?
    ensures var f := Lookup(mem, sh, root, va).value;
      Translate(mem, root, va) == Fault <==> !Legal(f.0, f.1)
  {
    RootIn(mem, sh, root);
    hide Tree, Find, Step, Legal;
    StepAgrees(mem, sh, root, root, 2, va);
  }

  /** An empty table after one `map_giga` of address zero to a page that is not on a gigabyte
      boundary: lookup finds the mapping, the hardware faults. */
  method MisalignedDiffers() returns (pt: Pagetable)
    ensures fresh(pt) && pt.Valid() && Translate(pt.mem, pt.root, 0) == Fault
    ensures Lookup(pt.mem, pt.sh, pt.root, 0) == Some((Pte(true, Perm(true, true, false, true, false), true, true, 1), 2))
  {
    pt := new Pagetable(0);
    hide Tree, Lookup, AllLegal, Translate;
    pt.MapGiga(0, 4096, Perm(true, true, false, true, false));
    assert SameRegion(2, 0, 0);
    IllegalFaults(pt.mem, pt.sh, pt.root, 0);
  }
}
