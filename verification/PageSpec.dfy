/** Three-level page tables in memory, and what the hardware makes of them: Sv39 translation,
    section 4.3.2 with section 4.4 of the RISC-V Privileged Architecture, version 20211203. */
module PageSpec {
  import opened Seqs

  datatype Perm = Perm(r: bool, w: bool, x: bool, u: bool, cow: bool)

  /** A page table entry; `ppn` is the 44-bit physical page number. */
  datatype Pte = Pte(valid: bool, perm: Perm, accessed: bool, dirty: bool, ppn: int) {
    predicate Leaf() { perm.r || perm.w || perm.x }
    function Pa(): int { ppn * 4096 }
  }

  const NO_PERM := Perm(false, false, false, false, false)
  const ZERO := Pte(false, NO_PERM, false, false, 0)
  const PPNS := 0x1000_0000_0000  // 2^44

  /** Physical page number -> the table stored there. */
  type Memory = map<int, seq<Pte>>

  function Size(level: int): int {
    if level == 0 then 4096 else if level == 1 then 0x20_0000 else 0x4000_0000
  }

  function Vpn(level: int, va: int): (i: int)
    ensures 0 <= i < 512
  {
    va / Size(level) % 512
  }

  /** Virtual addresses that use the same entry at `level`. */
  predicate SameRegion(level: int, va: int, vb: int) {
    Vpn(2, va) == Vpn(2, vb) && (level <= 1 ==> Vpn(1, va) == Vpn(1, vb)) && (level <= 0 ==> Vpn(0, va) == Vpn(0, vb))
  }

  /** Sharing an entry at `level` is sharing a region of that level's size. */
  lemma RegionIsBlock(level: int, va: int, vb: int)
    requires 0 <= level <= 2 && 0 <= va && 0 <= vb
    ensures SameRegion(level, va, vb) <==> va % 0x80_0000_0000 / Size(level) == vb % 0x80_0000_0000 / Size(level)
  {
    VpnDigits(va);
    VpnDigits(vb);
  }

  lemma Mega(x: int, q: int, r: int)
    requires x == q * 0x20_0000 + r && 0 <= r < 0x20_0000
    ensures x / 0x20_0000 == q && x % 0x20_0000 == r
  {
  }

  lemma Giga(x: int, q: int, r: int)
    requires x == q * 0x4000_0000 + r && 0 <= r < 0x4000_0000
    ensures x / 0x4000_0000 == q && x % 0x4000_0000 == r
  {
  }

  lemma Tera(x: int, q: int, r: int)
    requires x == q * 0x80_0000_0000 + r && 0 <= r < 0x80_0000_0000
    ensures x / 0x80_0000_0000 == q && x % 0x80_0000_0000 == r
  {
  }

  lemma Halves(p: int) returns (q: int, r: int)
    ensures p == q * 512 + r && 0 <= r < 512 && q == p / 512 && r == p % 512
  {
    q, r := p / 512, p % 512;
  }

  /** Dividing by a level's size is dividing by 4096 and then by 512 for each level. */
  lemma Quotients(va: int)
    requires 0 <= va
    ensures va / 0x20_0000 == va / 4096 / 512
    ensures va / 0x4000_0000 == va / 0x20_0000 / 512
    ensures va % 0x20_0000 == va / 4096 % 512 * 4096 + va % 4096
    ensures va % 0x4000_0000 == va / 0x20_0000 % 512 * 0x20_0000 + va % 0x20_0000
    ensures va % 0x80_0000_0000 == va / 0x4000_0000 % 512 * 0x4000_0000 + va % 0x4000_0000
  {
    var p, o := va / 4096, va % 4096;
    var q, v0 := Halves(p);
    var r, v1 := Halves(q);
    var s, v2 := Halves(r);
    Mega(va, q, v0 * 4096 + o);
    Giga(va, r, v1 * 0x20_0000 + v0 * 4096 + o);
    Tera(va, s, v2 * 0x4000_0000 + v1 * 0x20_0000 + v0 * 4096 + o);
  }

  lemma VpnDigits(va: int)
    requires 0 <= va
    ensures va % 0x80_0000_0000 / 4096 == Vpn(2, va) * 262144 + Vpn(1, va) * 512 + Vpn(0, va)
    ensures va % 0x80_0000_0000 / 0x20_0000 == Vpn(2, va) * 512 + Vpn(1, va)
    ensures va % 0x80_0000_0000 / 0x4000_0000 == Vpn(2, va)
  {
    Quotients(va);
    var v2, v1, v0, o := Vpn(2, va), Vpn(1, va), Vpn(0, va), va % 4096;
    assert va % 0x80_0000_0000 == v2 * 0x4000_0000 + v1 * 0x20_0000 + v0 * 4096 + o;
    Leading(v2, v1, v0, o);
  }

  lemma Leading(v2: int, v1: int, v0: int, o: int)
    requires 0 <= v1 < 512 && 0 <= v0 < 512 && 0 <= o < 4096
    ensures (v2 * 0x4000_0000 + v1 * 0x20_0000 + v0 * 4096 + o) / 4096 == v2 * 262144 + v1 * 512 + v0
    ensures (v2 * 0x4000_0000 + v1 * 0x20_0000 + v0 * 4096 + o) / 0x20_0000 == v2 * 512 + v1
    ensures (v2 * 0x4000_0000 + v1 * 0x20_0000 + v0 * 4096 + o) / 0x4000_0000 == v2
  {
  }

  // ----- what a table graph looks like

  datatype Shape = Shape(level: map<int, int>, parent: map<int, (int, int)>)

  /** An entry of the table at page `t`: nothing, a leaf, or the only link to a table below. */
  ghost predicate EntryOk(mem: Memory, sh: Shape, t: int, i: int, e: Pte) {
    && (!e.valid ==> e == ZERO)
    && (e.valid && e.Leaf() ==> e.accessed && e.dirty)
    && (e.valid && !e.Leaf() && t in sh.level && sh.level[t] > 0 ==>
          && e == Pte(true, NO_PERM, false, false, e.ppn)
          && e.ppn in mem && e.ppn in sh.level && sh.level[e.ppn] == sh.level[t] - 1
          && e.ppn in sh.parent && sh.parent[e.ppn] == (t, i))
  }

  ghost predicate TableOk(mem: Memory, sh: Shape, t: int)
    requires t in mem
  {
    && |mem[t]| == 512 && t in sh.level && 0 <= sh.level[t] <= 2
    && forall i :: 0 <= i < 512 ==> EntryOk(mem, sh, t, i, mem[t][i])
  }

  /** The tables reachable from `root` form a tree of depth three. */
  ghost predicate Tree(mem: Memory, sh: Shape, root: int) {
    && root in mem && root in sh.level && sh.level[root] == 2
    && forall t :: t in mem ==> TableOk(mem, sh, t)
  }

  ghost predicate Links(mem: Memory, sh: Shape, t: int, i: int, c: int) {
    t in mem && t in sh.level && sh.level[t] > 0 && 0 <= i < |mem[t]|
    && mem[t][i].valid && !mem[t][i].Leaf() && mem[t][i].ppn == c
  }

  /** No table is linked from two entries, and none links back to the root. */
  lemma Unshared(mem: Memory, sh: Shape, root: int, t: int, i: int, u: int, j: int, c: int)
    requires Tree(mem, sh, root) && Links(mem, sh, t, i, c) && Links(mem, sh, u, j, c)
    ensures t == u && i == j && c != root && c in mem && sh.level[c] < sh.level[t]
  {
    assert TableOk(mem, sh, t) && TableOk(mem, sh, u);
    assert EntryOk(mem, sh, t, i, mem[t][i]) && EntryOk(mem, sh, u, j, mem[u][j]);
  }

  // ----- software lookup and hardware translation

  /** The leaf that a walk from table `t` at `level` finds for `va`, and its level. */
  ghost function Find(mem: Memory, sh: Shape, root: int, t: int, level: int, va: int): Option<(Pte, int)>
    requires Tree(mem, sh, root) && t in mem && 0 <= level <= 2 && sh.level[t] == level
    decreases level
  {
    assert TableOk(mem, sh, t);
    var e := mem[t][Vpn(level, va)];
    assert EntryOk(mem, sh, t, Vpn(level, va), e);
    if e.Leaf() then Some((e, level))
    else if level == 0 || !e.valid then None
    else Find(mem, sh, root, e.ppn, level - 1, va)
  }

  ghost function Lookup(mem: Memory, sh: Shape, root: int, va: int): Option<(Pte, int)>
    requires Tree(mem, sh, root)
  {
    Find(mem, sh, root, root, 2, va)
  }

  datatype Translation = Fault | Translated(pa: int, perm: Perm)

  /** Bits 63 to 39 equal bit 38. */
  predicate Canonical(va: int) {
    0 <= va < 0x40_0000_0000 || 0xFFFF_FFC0_0000_0000 <= va < 0x1_0000_0000_0000_0000
  }

  function Pow512(i: int): int {
    if i <= 0 then 1 else if i == 1 then 512 else 262144
  }

  /** Steps 2 to 8 of the algorithm: a is the table's page number, i the level. */
  function Step(mem: Memory, a: int, i: int, va: int): Translation
    requires i <= 2
    decreases i + 1
  {
    if i < 0 || a !in mem || |mem[a]| != 512 then Fault                            // step 4, i < 0; step 2, access fault
    else
      var pte := mem[a][Vpn(i, va)];                                              // step 2
      if !pte.valid || (!pte.perm.r && pte.perm.w) then Fault                     // step 3
      else if !pte.perm.r && !pte.perm.x then
        if pte.accessed || pte.dirty || pte.perm.u then Fault                     // step 3: reserved in a non-leaf
        else Step(mem, pte.ppn, i - 1, va)                                        // step 4
      else if pte.ppn % Pow512(i) != 0 then Fault                                 // step 6: misaligned superpage
      else if !pte.accessed || !pte.dirty then Fault                              // step 7
      else
        // step 8: the page offset and, in a superpage, the low page numbers come from va
        var low := if i == 0 then 0 else if i == 1 then Vpn(0, va) else Vpn(1, va) * 512 + Vpn(0, va);
        Translated((pte.ppn + low) * 4096 + va % 4096, pte.perm)
  }

  /** Sv39 translation with `satp` pointing at `root`. */
  function Translate(mem: Memory, root: int, va: int): Translation {
    if !Canonical(va) then Fault else Step(mem, root, 2, va)
  }

  /** The hardware takes the leaf: no write permission without read, superpages aligned. */
  predicate Legal(e: Pte, level: int) {
    (e.perm.w ==> e.perm.r) && e.ppn % Pow512(level) == 0
  }

  /** The software's answer read as a translation. */
  function Answer(f: Option<(Pte, int)>, va: int): Translation {
    match f
    case None => Fault
    case Some(p) => Translated(p.0.Pa() + va % Size(p.1), p.0.perm)
  }

  lemma OffsetParts(level: int, va: int)
    requires 0 <= va && 0 <= level <= 2
    ensures va % Size(level) ==
            (if level == 0 then 0 else if level == 1 then Vpn(0, va) else Vpn(1, va) * 512 + Vpn(0, va)) * 4096 + va % 4096
  {
    Quotients(va);
  }

  lemma {:induction false} StepAgrees(mem: Memory, sh: Shape, root: int, t: int, level: int, va: int)
    requires Tree(mem, sh, root) && t in mem && 0 <= level <= 2 && sh.level[t] == level && 0 <= va
    ensures var f := Find(mem, sh, root, t, level, va);
      Step(mem, t, level, va) == if f == None || Legal(f.value.0, f.value.1) then Answer(f, va) else Fault
    decreases level
  {
    assert TableOk(mem, sh, t);
    var e := mem[t][Vpn(level, va)];
    assert EntryOk(mem, sh, t, Vpn(level, va), e);
    OffsetParts(level, va);
    if !e.Leaf() && e.valid && level > 0 {
      StepAgrees(mem, sh, root, e.ppn, level - 1, va);
    }
  }

  /** Lookup and Sv39 agree exactly when the address is canonical and the leaf legal, or there
      is no leaf at all. */
  lemma LookupIsTranslation(mem: Memory, sh: Shape, root: int, va: int)
    requires Tree(mem, sh, root) && 0 <= va
    ensures var f := Lookup(mem, sh, root, va);
      Answer(f, va) == Translate(mem, root, va) <==> f == None || (Canonical(va) && Legal(f.value.0, f.value.1))
  {
    StepAgrees(mem, sh, root, root, 2, va);
  }
}
