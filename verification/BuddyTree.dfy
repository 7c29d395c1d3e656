/** The shape behind the buddy allocator: a binary tree whose leaves are the blocks of
    the heap.  A block is named by the logarithm of its size and its offset from the
    start of the heap. */
module BuddyTree {
  import opened Bits
  import opened Seqs

  datatype Block = Block(log: nat, off: nat) {
    predicate Holds(a: int) {
      off <= a < off + Pow2(log)
    }
    ghost predicate Overlaps(b: Block) {
      off < b.off + Pow2(b.log) && b.off < off + Pow2(log)
    }
  }

  datatype Tree = Free | Used | Split(left: Tree, right: Tree)

  /** Whole blocks are only split down to the minimum block size. */
  ghost predicate Shape(t: Tree, h: nat, min: nat) {
    t.Split? ==> h > min && Shape(t.left, h - 1, min) && Shape(t.right, h - 1, min)
  }

  /** Two free buddies never stand side by side. */
  ghost predicate Normal(t: Tree) {
    t.Split? ==> !(t.left.Free? && t.right.Free?) && Normal(t.left) && Normal(t.right)
  }

  /** The subtree for block `b` of the tree `t`, which has height `h` and starts at `base`. */
  ghost function Sub(t: Tree, h: nat, base: nat, b: Block): Option<Tree> {
    if h == b.log then (if base == b.off then Some(t) else None)
    else if h < b.log || !t.Split? then None
    else if b.off < base + Pow2(h - 1) then Sub(t.left, h - 1, base, b)
    else Sub(t.right, h - 1, base + Pow2(h - 1), b)
  }

  ghost function Put(t: Tree, h: nat, base: nat, b: Block, s: Tree): Tree
    requires Sub(t, h, base, b).Some?
  {
    if h == b.log then s
    else if b.off < base + Pow2(h - 1) then Split(Put(t.left, h - 1, base, b, s), t.right)
    else Split(t.left, Put(t.right, h - 1, base + Pow2(h - 1), b, s))
  }

  /** The blocks that are leaves of kind `w` (free or used). */
  ghost function Leaves(t: Tree, h: nat, base: nat, w: Tree): set<Block>
    requires !w.Split?
  {
    if t == w then {Block(h, base)}
    else if t.Split? && h > 0 then
      Leaves(t.left, h - 1, base, w) + Leaves(t.right, h - 1, base + Pow2(h - 1), w)
    else {}
  }

  lemma {:induction false} SubRange(t: Tree, h: nat, base: nat, b: Block)
    requires Sub(t, h, base, b).Some?
    ensures b.log <= h && base <= b.off && b.off + Pow2(b.log) <= base + Pow2(h)
  {
    if h > b.log {
      if b.off < base + Pow2(h - 1) {
        SubRange(t.left, h - 1, base, b);
      } else {
        SubRange(t.right, h - 1, base + Pow2(h - 1), b);
      }
    }
  }

  lemma {:induction false} LeafSub(t: Tree, h: nat, base: nat, w: Tree, b: Block)
    requires !w.Split?
    ensures b in Leaves(t, h, base, w) <==> Sub(t, h, base, b) == Some(w)
  {
    if t.Split? && h > 0 {
      var m := base + Pow2(h - 1);
      LeafSub(t.left, h - 1, base, w, b);
      LeafSub(t.right, h - 1, m, w, b);
      if Sub(t.left, h - 1, base, b).Some? { SubRange(t.left, h - 1, base, b); }
      if Sub(t.right, h - 1, m, b).Some? { SubRange(t.right, h - 1, m, b); }
    }
  }

  lemma {:induction false} LeafRange(t: Tree, h: nat, base: nat, w: Tree, b: Block)
    requires !w.Split? && b in Leaves(t, h, base, w)
    ensures b.log <= h && base <= b.off && b.off + Pow2(b.log) <= base + Pow2(h)
  {
    LeafSub(t, h, base, w, b);
    SubRange(t, h, base, b);
  }

  lemma LeavesApart(t: Tree, h: nat, base: nat, u: Tree, g: nat, from: nat, w: Tree)
    requires !w.Split? && base + Pow2(h) <= from
    ensures Leaves(t, h, base, w) !! Leaves(u, g, from, w)
  {
    forall c | c in Leaves(t, h, base, w) && c in Leaves(u, g, from, w) ensures false {
      LeafRange(t, h, base, w, c);
      LeafRange(u, g, from, w, c);
    }
  }

  lemma Exchanged(l: set<Block>, r: set<Block>, x: set<Block>, y: set<Block>)
    requires x !! r
    ensures (l - x + y) + r == (l + r) - x + y == r + (l - x + y) == (r + l) - x + y
  {
  }

  lemma NodeLeaves(t: Tree, h: nat, base: nat, w: Tree)
    requires t.Split? && !w.Split? && h > 0
    ensures Leaves(t, h, base, w) == Leaves(t.left, h - 1, base, w) + Leaves(t.right, h - 1, base + Pow2(h - 1), w)
  {
  }

  lemma NodePut(t: Tree, h: nat, base: nat, b: Block, s: Tree)
    requires h > b.log && Sub(t, h, base, b).Some?
    ensures t.Split? && Put(t, h, base, b, s).Split?
    ensures var m := base + Pow2(h - 1);
      if b.off < m then Sub(t.left, h - 1, base, b) == Sub(t, h, base, b)
                        && Put(t, h, base, b, s) == Split(Put(t.left, h - 1, base, b, s), t.right)
      else Sub(t.right, h - 1, m, b) == Sub(t, h, base, b)
           && Put(t, h, base, b, s) == Split(t.left, Put(t.right, h - 1, m, b, s))
  {
  }

  /** Replacing a subtree exchanges its leaves and touches no others. */
  lemma {:induction false} PutLeaves(t: Tree, h: nat, base: nat, b: Block, s: Tree, w: Tree)
    requires !w.Split? && Sub(t, h, base, b).Some?
    ensures Leaves(Put(t, h, base, b, s), h, base, w)
         == Leaves(t, h, base, w) - Leaves(Sub(t, h, base, b).value, b.log, b.off, w)
            + Leaves(s, b.log, b.off, w)
  {
    if h > b.log {
      var m := base + Pow2(h - 1);
      NodePut(t, h, base, b, s);
      var t' := Put(t, h, base, b, s);
      NodeLeaves(t, h, base, w);
      NodeLeaves(t', h, base, w);
      hide Leaves, Put, Sub, Pow2;
      var u := Sub(t, h, base, b).value;
      var x, y := Leaves(u, b.log, b.off, w), Leaves(s, b.log, b.off, w);
      var l, r := Leaves(t.left, h - 1, base, w), Leaves(t.right, h - 1, m, w);
      if b.off < m {
        PutLeaves(t.left, h - 1, base, b, s, w);
        SubRange(t.left, h - 1, base, b);
        LeavesApart(u, b.log, b.off, t.right, h - 1, m, w);
        Exchanged(l, r, x, y);
      } else {
        PutLeaves(t.right, h - 1, m, b, s, w);
        SubRange(t.right, h - 1, m, b);
        LeavesApart(t.left, h - 1, base, u, b.log, b.off, w);
        Exchanged(r, l, x, y);
      }
    }
  }

  lemma {:induction false} PutShape(t: Tree, h: nat, base: nat, b: Block, s: Tree, min: nat)
    requires Sub(t, h, base, b).Some? && Shape(t, h, min) && Shape(s, b.log, min)
    ensures Shape(Put(t, h, base, b, s), h, min)
  {
    if h > b.log {
      if b.off < base + Pow2(h - 1) {
        PutShape(t.left, h - 1, base, b, s, min);
      } else {
        PutShape(t.right, h - 1, base + Pow2(h - 1), b, s, min);
      }
    }
  }

  ghost function BuddyOf(b: Block): Block
  {
    XorBit(b.off, b.log);
    Block(b.log, Xor(b.off, Pow2(b.log)))
  }

  ghost function ParentOf(b: Block): Block {
    Block(b.log + 1, if BuddyOf(b).off < b.off then BuddyOf(b).off else b.off)
  }

  lemma {:induction false} EvenMultiple(base: nat, p: nat)
    requires p > 0 && base % (2 * p) == 0
    ensures base % p == 0 && (base / p) % 2 == 0
    ensures (base + p) % p == 0 && ((base + p) / p) % 2 == 1
  {
    var d := 2 * p;
    var q := base / d;
    assert base == d * q;
    var e := 2 * q;
    assert d * q == e * p;
    DivMulAdd(e, p, 0);
    assert base + p == (e + 1) * p;
    DivMulAdd(e + 1, p, 0);
  }

  lemma {:induction false} AlignedHalves(base: nat, k: nat)
    requires k > 0 && base % Pow2(k) == 0
    ensures base % Pow2(k - 1) == 0 && (base + Pow2(k - 1)) % Pow2(k - 1) == 0
    ensures Xor(base, Pow2(k - 1)) == base + Pow2(k - 1)
    ensures Xor(base + Pow2(k - 1), Pow2(k - 1)) == base
  {
    var p := Pow2(k - 1);
    EvenMultiple(base, p);
    XorBit(base, k - 1);
    XorBit(base + p, k - 1);
  }

  /** What the tree says about a node, its buddy and their parent. */
  ghost predicate Siblings(t: Tree, h: nat, base: nat, b: Block, c: Block, p: Block) {
    var x, y := Sub(t, h, base, b), Sub(t, h, base, c);
    && x.Some? && y.Some?
    && Sub(t, h, base, p) == Some(if b.off < c.off then Split(x.value, y.value) else Split(y.value, x.value))
  }

  lemma {:induction false} SiblingsLeft(t: Tree, h: nat, base: nat, b: Block, c: Block, p: Block)
    requires t.Split? && h > p.log && p.log == b.log + 1 && c.log == b.log
    requires Siblings(t.left, h - 1, base, b, c, p)
    ensures Siblings(t, h, base, b, c, p)
  {
    SubRange(t.left, h - 1, base, b);
    SubRange(t.left, h - 1, base, c);
    SubRange(t.left, h - 1, base, p);
  }

  lemma {:induction false} SiblingsRight(t: Tree, h: nat, base: nat, b: Block, c: Block, p: Block)
    requires t.Split? && h > p.log && p.log == b.log + 1 && c.log == b.log
    requires Siblings(t.right, h - 1, base + Pow2(h - 1), b, c, p)
    ensures Siblings(t, h, base, b, c, p)
  {
    var m := base + Pow2(h - 1);
    SubRange(t.right, h - 1, m, b);
    SubRange(t.right, h - 1, m, c);
    SubRange(t.right, h - 1, m, p);
  }

  /** The two halves of a tree. */
  lemma SubHere(t: Tree, h: nat, base: nat, b: Block)
    requires b.log == h - 1
    ensures var m := base + Pow2(h - 1);
      Sub(t, h, base, b) == if !t.Split? then None else if b.off == base then Some(t.left)
                            else if b.off == m then Some(t.right) else None
  {
  }

  lemma SiblingHere(t: Tree, h: nat, base: nat, b: Block)
    requires base % Pow2(h) == 0 && b.log == h - 1 && Sub(t, h, base, b).Some?
    ensures Siblings(t, h, base, b, BuddyOf(b), ParentOf(b))
    ensures BuddyOf(BuddyOf(b)) == b && BuddyOf(b) != b
    ensures var c := BuddyOf(b); (if b.off < c.off then c.off else b.off) == ParentOf(b).off + Pow2(b.log)
    ensures SiblingOf(t, h, base, b) == Sub(t, h, base, BuddyOf(b))
  {
    AlignedHalves(base, h);
    hide Xor, FlipBit;
    SubHere(t, h, base, b);
    var m := base + Pow2(h - 1);
    SubHere(t, h, base, Block(b.log, if b.off == base then m else base));
    hide Pow2;
  }

  /** A node below the root has a buddy; together they are the halves of one parent node. */
  lemma {:induction false} Sibling(t: Tree, h: nat, base: nat, b: Block)
    requires base % Pow2(h) == 0 && b.log < h && Sub(t, h, base, b).Some?
    ensures Siblings(t, h, base, b, BuddyOf(b), ParentOf(b))
    ensures BuddyOf(BuddyOf(b)) == b && BuddyOf(b) != b
    ensures var c := BuddyOf(b); (if b.off < c.off then c.off else b.off) == ParentOf(b).off + Pow2(b.log)
    ensures SiblingOf(t, h, base, b) == Sub(t, h, base, BuddyOf(b))
  {
    AlignedHalves(base, h);
    var m := base + Pow2(h - 1);
    if b.log == h - 1 {
      SiblingHere(t, h, base, b);
    } else if b.off < m {
      Sibling(t.left, h - 1, base, b);
      SiblingsLeft(t, h, base, b, BuddyOf(b), ParentOf(b));
      SubRange(t.left, h - 1, base, BuddyOf(b));
    } else {
      Sibling(t.right, h - 1, m, b);
      SiblingsRight(t, h, base, b, BuddyOf(b), ParentOf(b));
      SubRange(t.right, h - 1, m, BuddyOf(b));
    }
  }

  /** The other half of the node that `b` is a half of. */
  ghost function SiblingOf(t: Tree, h: nat, base: nat, b: Block): Option<Tree> {
    if h <= b.log || !t.Split? then None
    else if h - 1 == b.log then Some(if b.off == base then t.right else t.left)
    else if b.off < base + Pow2(h - 1) then SiblingOf(t.left, h - 1, base, b)
    else SiblingOf(t.right, h - 1, base + Pow2(h - 1), b)
  }

  lemma {:induction false} PutNormal(t: Tree, h: nat, base: nat, b: Block, s: Tree)
    requires Sub(t, h, base, b).Some? && Normal(t) && Normal(s)
    requires s.Free? ==> SiblingOf(t, h, base, b) != Some(Free)
    ensures Normal(Put(t, h, base, b, s))
    ensures Put(t, h, base, b, s).Free? ==> b.log == h && s.Free?
  {
    if h > b.log {
      if b.off < base + Pow2(h - 1) {
        PutNormal(t.left, h - 1, base, b, s);
      } else {
        PutNormal(t.right, h - 1, base + Pow2(h - 1), b, s);
      }
    }
  }

  // ----- what the leaves of any tree look like

  lemma {:induction false} LeafAligned(t: Tree, h: nat, base: nat, b: Block)
    requires base % Pow2(h) == 0 && Sub(t, h, base, b).Some?
    ensures b.off % Pow2(b.log) == 0
  {
    if h > b.log {
      AlignedHalves(base, h);
      if b.off < base + Pow2(h - 1) {
        LeafAligned(t.left, h - 1, base, b);
      } else {
        LeafAligned(t.right, h - 1, base + Pow2(h - 1), b);
      }
    }
  }

  ghost function AllLeaves(t: Tree, h: nat, base: nat): set<Block> {
    Leaves(t, h, base, Free) + Leaves(t, h, base, Used)
  }

  lemma {:induction false} LeafCovers(t: Tree, h: nat, base: nat, min: nat, a: nat) returns (b: Block)
    requires Shape(t, h, min) && base <= a < base + Pow2(h)
    ensures b in AllLeaves(t, h, base) && b.Holds(a)
  {
    if !t.Split? {
      b := Block(h, base);
    } else if a < base + Pow2(h - 1) {
      b := LeafCovers(t.left, h - 1, base, min, a);
    } else {
      b := LeafCovers(t.right, h - 1, base + Pow2(h - 1), min, a);
    }
  }

  lemma {:induction false} LeavesDisjoint(t: Tree, h: nat, base: nat, b: Block, c: Block)
    requires b in AllLeaves(t, h, base) && c in AllLeaves(t, h, base) && b != c
    ensures !b.Overlaps(c)
  {
    if t.Split? {
      var m := base + Pow2(h - 1);
      LeafKinds(t.left, h - 1, base, b); LeafKinds(t.left, h - 1, base, c);
      LeafKinds(t.right, h - 1, m, b); LeafKinds(t.right, h - 1, m, c);
      if b in AllLeaves(t.left, h - 1, base) && c in AllLeaves(t.left, h - 1, base) {
        LeavesDisjoint(t.left, h - 1, base, b, c);
      } else if b in AllLeaves(t.right, h - 1, m) && c in AllLeaves(t.right, h - 1, m) {
        LeavesDisjoint(t.right, h - 1, m, b, c);
      }
    }
  }

  lemma {:induction false} LeafKinds(t: Tree, h: nat, base: nat, b: Block)
    ensures b in AllLeaves(t, h, base) ==>
              b.log <= h && base <= b.off && b.off + Pow2(b.log) <= base + Pow2(h)
    ensures !(b in Leaves(t, h, base, Free) && b in Leaves(t, h, base, Used))
  {
    LeafSub(t, h, base, Free, b);
    LeafSub(t, h, base, Used, b);
    if Sub(t, h, base, b).Some? { SubRange(t, h, base, b); }
  }

  lemma {:induction false} NoUsedLeaf(t: Tree, h: nat, base: nat, min: nat)
    requires Shape(t, h, min) && Normal(t) && Leaves(t, h, base, Used) == {}
    ensures t == Free
  {
    if t.Split? {
      NoUsedLeaf(t.left, h - 1, base, min);
      NoUsedLeaf(t.right, h - 1, base + Pow2(h - 1), min);
    }
  }

  /** A split node has a block in use somewhere below it. */
  lemma UsedBelow(t: Tree, h: nat, base: nat, min: nat) returns (u: Block)
    requires Shape(t, h, min) && Normal(t) && t.Split?
    ensures u in Leaves(t, h, base, Used)
    ensures u.log <= h && base <= u.off && u.off + Pow2(u.log) <= base + Pow2(h)
  {
    if Leaves(t, h, base, Used) == {} {
      NoUsedLeaf(t, h, base, min);
      assert false;
    }
    u :| u in Leaves(t, h, base, Used);
    LeafRange(t, h, base, Used, u);
  }

  /** A wholly unallocated aligned run lies inside one free leaf: merging is complete. */
  lemma {:induction false} FreeRunInLeaf(t: Tree, h: nat, base: nat, min: nat, r: Block) returns (b: Block)
    requires Shape(t, h, min) && Normal(t) && base % Pow2(h) == 0
    requires r.log <= h && r.off % Pow2(r.log) == 0
    requires base <= r.off && r.off + Pow2(r.log) <= base + Pow2(h)
    requires forall u :: u in Leaves(t, h, base, Used) ==> !u.Overlaps(r)
    ensures b in Leaves(t, h, base, Free) && b.log >= r.log
  {
    if !t.Split? {
      b := Block(h, base);
      if t.Used? { assert b.Overlaps(r); }
    } else if h == r.log {
      var u := UsedBelow(t, h, base, min);
      assert false;
    } else {
      AlignedHalves(base, h);
      var m := base + Pow2(h - 1);
      AlignedMultiples(r.off, r.log, m, h - 1);
      if r.off < m {
        b := FreeRunInLeaf(t.left, h - 1, base, min, r);
      } else {
        b := FreeRunInLeaf(t.right, h - 1, m, min, r);
      }
    }
  }

  lemma {:induction false} MultiplesApart(p: nat, i: nat, j: nat)
    requires p > 0 && p * i < p * j
    ensures p * i + p <= p * j
  {
    var d := j - i;
    assert p * d == p * j - p * i;
    if d <= 0 { MulBound(p, d); }
    MulBound(p, d);
  }

  lemma {:induction false} CoarserAligned(m: nat, k: nat, n: nat)
    requires k <= n && m % Pow2(n) == 0
    ensures m % Pow2(k) == 0
  {
    if k < n {
      EvenMultiple(m, Pow2(n - 1));
      CoarserAligned(m, k, n - 1);
    }
  }

  /** A block aligned to `2^k` never straddles a multiple of `2^n` when `k <= n`. */
  lemma {:induction false} AlignedMultiples(off: nat, k: nat, m: nat, n: nat)
    requires k <= n && off % Pow2(k) == 0 && m % Pow2(n) == 0
    ensures off < m ==> off + Pow2(k) <= m
  {
    CoarserAligned(m, k, n);
    var p := Pow2(k);
    var i, j := off / p, m / p;
    assert off == p * i;
    assert m == p * j;
    if off < m {
      MultiplesApart(p, i, j);
    }
  }

  // ----- sizes

  ghost function Bytes(s: set<Block>): nat {
    if s == {} then 0 else var b :| b in s; Pow2(b.log) + Bytes(s - {b})
  }

  lemma {:induction false} BytesAdd(s: set<Block>, b: Block)
    requires b !in s
    ensures Bytes(s + {b}) == Bytes(s) + Pow2(b.log)
  {
    var s' := s + {b};
    var c :| c in s' && Bytes(s') == Pow2(c.log) + Bytes(s' - {c});
    if c == b {
      assert s' - {c} == s;
    } else {
      BytesAdd(s - {c}, b);
      assert s' - {c} == (s - {c}) + {b};
      BytesAdd(s - {c}, c);
      assert (s - {c}) + {c} == s;
    }
  }

  lemma {:induction false} BytesUnion(s: set<Block>, r: set<Block>)
    requires s !! r
    ensures Bytes(s + r) == Bytes(s) + Bytes(r)
  {
    if r == {} {
      assert s + r == s;
    } else {
      var b :| b in r;
      var r' := r - {b};
      BytesUnion(s, r');
      BytesAdd(s + r', b);
      BytesAdd(r', b);
      assert s + r == (s + r') + {b} && r == r' + {b};
    }
  }

  lemma HalvesApart(t: Tree, h: nat, base: nat)
    requires t.Split? && h > 0
    ensures AllLeaves(t.left, h - 1, base) !! AllLeaves(t.right, h - 1, base + Pow2(h - 1))
  {
    hide Leaves, Pow2, AllLeaves;
    var m := base + Pow2(h - 1);
    var l, r := AllLeaves(t.left, h - 1, base), AllLeaves(t.right, h - 1, m);
    forall b | b in l && b in r ensures false {
      LeafKinds(t.left, h - 1, base, b);
      LeafKinds(t.right, h - 1, m, b);
    }
  }

  lemma {:induction false} TreeBytes(t: Tree, h: nat, base: nat, min: nat)
    requires Shape(t, h, min)
    ensures Bytes(AllLeaves(t, h, base)) == Pow2(h)
  {
    if !t.Split? {
      assert AllLeaves(t, h, base) == {} + {Block(h, base)};
      BytesAdd({}, Block(h, base));
    } else {
      var m := base + Pow2(h - 1);
      TreeBytes(t.left, h - 1, base, min);
      TreeBytes(t.right, h - 1, m, min);
      var l, r := AllLeaves(t.left, h - 1, base), AllLeaves(t.right, h - 1, m);
      HalvesApart(t, h, base);
      hide Bytes;
      BytesUnion(l, r);
      assert AllLeaves(t, h, base) == l + r;
    }
  }
}
