/** What the buddy allocator computes, as functions on its free lists, and the laws those
    functions obey.  Orders index the free lists: order `o` holds blocks of `2^(min+o)` bytes. */
module BuddySpec {
  import opened Bits
  import opened BuddyTree
  import opened Seqs

  type Lists = seq<seq<nat>>

  /** The free lists and the blocks the callers currently hold. */
  datatype Heap = Heap(min: nat, lists: Lists, live: set<Block>) {
    ghost function Height(): nat
      requires |lists| > 0
    {
      min + |lists| - 1
    }
    ghost function FreeBlocks(): set<Block> {
      set o: nat, i: nat | o < |lists| && i < |lists[o]| :: Block(min + o, lists[o][i])
    }
  }

  /** `xs` lists each block of size `2^log` in `f` once. */
  ghost predicate Listing(xs: seq<nat>, log: nat, f: set<Block>) {
    Distinct(xs) && forall x: nat :: x in xs <==> Block(log, x) in f
  }

  ghost predicate Listed(min: nat, lists: Lists, f: set<Block>) {
    forall o :: 0 <= o < |lists| ==> Listing(lists[o], min + o, f)
  }

  /** The heap is described by the tree `t`: its free leaves are exactly the listed blocks,
      each on one list once, and its used leaves are the blocks handed out. */
  ghost predicate Rep(h: Heap, t: Tree) {
    && |h.lists| > 0
    && Shape(t, h.Height(), h.min) && Normal(t)
    && h.live == Leaves(t, h.Height(), 0, Used)
    && Listed(h.min, h.lists, Leaves(t, h.Height(), 0, Free))
  }

  ghost predicate Consistent(h: Heap) {
    exists t :: Rep(h, t)
  }

  // ----- the operations

  function Initial(min: nat, n: nat): Heap
    requires n > 0
  {
    Heap(min, seq(n - 1, _ => []) + [[0]], {})
  }

  function Insert(lists: Lists, o: nat, off: nat): Lists
    requires o < |lists|
  {
    lists[o := [off] + lists[o]]
  }

  /** Cut the block at `off` from order `o` down to order `k`, listing each upper half. */
  function SplitDown(min: nat, lists: Lists, o: nat, k: nat, off: nat): Lists
    requires k <= o < |lists|
    ensures |SplitDown(min, lists, o, k, off)| == |lists|
    decreases o
  {
    if o == k then lists
    else SplitDown(min, Insert(lists, o - 1, off + Pow2(min + o - 1)), o - 1, k, off)
  }

  /** The least order from `k` up with a free block, or the number of orders. */
  function FirstFit(lists: Lists, k: nat): (o: nat)
    requires k <= |lists|
    ensures k <= o <= |lists|
    ensures o < |lists| ==> lists[o] != []
    ensures forall j :: k <= j < o ==> lists[j] == []
    decreases |lists| - k
  {
    if k == |lists| || lists[k] != [] then k else FirstFit(lists, k + 1)
  }

  function Alloc(h: Heap, k: nat): (Heap, Option<nat>)
    requires k < |h.lists|
  {
    var o := FirstFit(h.lists, k);
    if o == |h.lists| then (h, None)
    else
      var off := h.lists[o][0];
      (Heap(h.min, SplitDown(h.min, h.lists[o := h.lists[o][1..]], o, k, off),
            h.live + {Block(h.min + k, off)}),
       Some(off))
  }

  function MergeUp(min: nat, lists: Lists, o: nat, off: nat): Lists
    requires o < |lists|
    ensures |MergeUp(min, lists, o, off)| == |lists|
    decreases |lists| - o
  {
    var b := Xor(off, Pow2(min + o));
    if o < |lists| - 1 && b in lists[o] then
      MergeUp(min, lists[o := Minus(lists[o], b)], o + 1, if b < off then b else off)
    else Insert(lists, o, off)
  }

  function Dealloc(h: Heap, o: nat, off: nat): Heap
    requires o < |h.lists|
  {
    Heap(h.min, MergeUp(h.min, h.lists, o, off), h.live - {Block(h.min + o, off)})
  }

  // ----- each elementary step keeps the tree

  lemma {:induction false} InsertListing(xs: seq<nat>, log: nat, f: set<Block>, x: nat)
    requires Listing(xs, log, f) && Block(log, x) !in f
    ensures Listing([x] + xs, log, f + {Block(log, x)})
  {
    assert x !in xs;
  }

  lemma {:induction false} PopListing(xs: seq<nat>, log: nat, f: set<Block>)
    requires Listing(xs, log, f) && xs != []
    ensures Listing(xs[1..], log, f - {Block(log, xs[0])})
    ensures Block(log, xs[0]) in f
  {
    assert xs == [xs[0]] + xs[1..];
    assert xs[0] in xs;
    forall x: nat ensures x in xs[1..] <==> Block(log, x) in f - {Block(log, xs[0])} {
      assert x in xs <==> Block(log, x) in f;
    }
  }

  lemma {:induction false} MinusListing(xs: seq<nat>, log: nat, f: set<Block>, x: nat)
    requires Listing(xs, log, f)
    ensures Listing(Minus(xs, x), log, f - {Block(log, x)})
  {
    MinusDistinct(xs, x);
  }

  /** Changing one list is enough when the set of free blocks changes at that order only. */
  lemma {:induction false} RelistOne(min: nat, lists: Lists, f: set<Block>, o: nat, xs: seq<nat>, f': set<Block>)
    requires Listed(min, lists, f) && o < |lists| && Listing(xs, min + o, f')
    requires forall b: Block :: b.log != min + o ==> (b in f <==> b in f')
    ensures Listed(min, lists[o := xs], f')
  {
    var lists' := lists[o := xs];
    forall i | 0 <= i < |lists'| ensures Listing(lists'[i], min + i, f') {
      if i != o {
        assert Listing(lists[i], min + i, f);
        forall x: nat ensures x in lists[i] <==> Block(min + i, x) in f' {
          assert x in lists[i] <==> Block(min + i, x) in f;
        }
      }
    }
  }

  /** `b` is a used leaf of the tree of `h`. */
  lemma {:induction false} LiveNode(h: Heap, t: Tree, b: Block)
    requires Rep(h, t) && b in h.live
    ensures Sub(t, h.Height(), 0, b) == Some(Used)
    ensures b.log <= h.Height() && 0 <= b.off && b.off + Pow2(b.log) <= Pow2(h.Height())
  {
    LeafSub(t, h.Height(), 0, Used, b);
    SubRange(t, h.Height(), 0, b);
  }

  lemma {:induction false} ZeroAligned(k: nat)
    ensures 0 % Pow2(k) == 0
  {
    DivMulAdd(0, Pow2(k), 0);
  }

  lemma {:induction false} ListHead(h: Heap, t: Tree, o: nat)
    requires Rep(h, t) && o < |h.lists| && h.lists[o] != []
    ensures Block(h.min + o, h.lists[o][0]) in Leaves(t, h.Height(), 0, Free)
    ensures Sub(t, h.Height(), 0, Block(h.min + o, h.lists[o][0])) == Some(Free)
  {
    assert Listing(h.lists[o], h.min + o, Leaves(t, h.Height(), 0, Free));
    assert h.lists[o][0] in h.lists[o];
    LeafSub(t, h.Height(), 0, Free, Block(h.min + o, h.lists[o][0]));
  }

  /** A block is on the list of its order exactly when it is a free leaf. */
  lemma {:induction false} OnList(h: Heap, t: Tree, o: nat, x: nat)
    requires Rep(h, t) && o < |h.lists|
    ensures x in h.lists[o] <==> Block(h.min + o, x) in Leaves(t, h.Height(), 0, Free)
    ensures x in h.lists[o] <==> Sub(t, h.Height(), 0, Block(h.min + o, x)) == Some(Free)
  {
    assert Listing(h.lists[o], h.min + o, Leaves(t, h.Height(), 0, Free));
    LeafSub(t, h.Height(), 0, Free, Block(h.min + o, x));
  }

  /** Turning one leaf over: it changes sides, and nothing else does. */
  lemma PutLeaf(t: Tree, H: nat, b: Block, was: Tree, now: Tree, min: nat)
    requires !was.Split? && !now.Split? && was != now && Sub(t, H, 0, b) == Some(was) && Shape(t, H, min)
    ensures Leaves(Put(t, H, 0, b, now), H, 0, now) == Leaves(t, H, 0, now) + {b}
    ensures Leaves(Put(t, H, 0, b, now), H, 0, was) == Leaves(t, H, 0, was) - {b}
    ensures Shape(Put(t, H, 0, b, now), H, min)
  {
    PutLeaves(t, H, 0, b, now, now);
    PutLeaves(t, H, 0, b, now, was);
    PutShape(t, H, 0, b, now, min);
    hide Sub, Put, Pow2;
    WholeLeaves(was, b, now);
    WholeLeaves(was, b, was);
    WholeLeaves(now, b, now);
    WholeLeaves(now, b, was);
    hide Leaves;
  }

  lemma WholeLeaves(t: Tree, b: Block, w: Tree)
    requires !t.Split? && !w.Split?
    ensures Leaves(t, b.log, b.off, w) == if t == w then {b} else {}
  {
  }

  lemma NormalLeaves()
    ensures Normal(Free) && Normal(Used)
  {
  }

  lemma {:induction false} PopStep(h: Heap, t: Tree, o: nat) returns (h': Heap, t': Tree)
    requires Rep(h, t) && o < |h.lists| && h.lists[o] != []
    ensures h' == Heap(h.min, h.lists[o := h.lists[o][1..]], h.live + {Block(h.min + o, h.lists[o][0])})
    ensures Rep(h', t')
  {
    hide Sub, Leaves, Put, Shape, Normal, Listing, Pow2;
    var off := h.lists[o][0];
    var b := Block(h.min + o, off);
    var H := h.Height();
    ListHead(h, t, o);
    t' := Put(t, H, 0, b, Used);
    h' := Heap(h.min, h.lists[o := h.lists[o][1..]], h.live + {b});
    PutLeaf(t, H, b, Free, Used, h.min);
    ZeroAligned(H);
    PutNormal(t, H, 0, b, Used) by { NormalLeaves(); }
    var f := Leaves(t, H, 0, Free);
    assert Listing(h.lists[o], b.log, f);
    PopListing(h.lists[o], b.log, f);
    RelistOne(h.min, h.lists, f, o, h.lists[o][1..], f - {b});
  }

  lemma {:induction false} SplitStep(h: Heap, t: Tree, o: nat, off: nat) returns (h': Heap, t': Tree)
    requires Rep(h, t) && 0 < o < |h.lists| && Block(h.min + o, off) in h.live
    ensures h' == Heap(h.min, Insert(h.lists, o - 1, off + Pow2(h.min + o - 1)),
                       h.live - {Block(h.min + o, off)} + {Block(h.min + o - 1, off)})
    ensures Rep(h', t')
    ensures off + Pow2(h.min + o - 1) !in h.lists[o - 1]
    ensures Block(h.min + o - 1, off) !in h.live
  {
    var b := Block(h.min + o, off);
    var H := h.Height();
    var up := off + Pow2(h.min + o - 1);
    var lo, hi := Block(h.min + o - 1, off), Block(h.min + o - 1, up);
    LiveNode(h, t, b);
    var s := Split(Used, Free);
    t' := Put(t, H, 0, b, s);
    h' := Heap(h.min, Insert(h.lists, o - 1, up), h.live - {b} + {lo});
    SplitLeaves(t, H, b);
    PutShape(t, H, 0, b, s, h.min);
    ZeroAligned(H);
    PutNormal(t, H, 0, b, s);
    var f := Leaves(t, H, 0, Free);
    OnList(h, t, o - 1, up);
    assert Listing(h.lists[o - 1], hi.log, f);
    InsertListing(h.lists[o - 1], hi.log, f, up);
    RelistOne(h.min, h.lists, f, o - 1, [up] + h.lists[o - 1], f + {hi});
  }

  lemma {:induction false} SplitLeaves(t: Tree, H: nat, b: Block)
    requires b.log > 0 && Sub(t, H, 0, b) == Some(Used)
    ensures var lo, hi := Block(b.log - 1, b.off), Block(b.log - 1, b.off + Pow2(b.log - 1));
      var t' := Put(t, H, 0, b, Split(Used, Free));
      && Leaves(t', H, 0, Free) == Leaves(t, H, 0, Free) + {hi}
      && Leaves(t', H, 0, Used) == Leaves(t, H, 0, Used) - {b} + {lo}
      && hi !in Leaves(t, H, 0, Free) && lo !in Leaves(t, H, 0, Used)
  {
    var lo, hi := Block(b.log - 1, b.off), Block(b.log - 1, b.off + Pow2(b.log - 1));
    var s := Split(Used, Free);
    PutLeaves(t, H, 0, b, s, Free);
    PutLeaves(t, H, 0, b, s, Used);
    assert Leaves(Used, b.log, b.off, Free) == {};
    assert Leaves(Used, b.log - 1, b.off, Free) == {};
    assert Leaves(Free, b.log - 1, hi.off, Used) == {};
    LeafSub(t, H, 0, Used, b);
    if hi in Leaves(t, H, 0, Free) {
      LeavesDisjoint(t, H, 0, hi, b);
      assert hi.Overlaps(b);
    }
    if lo in Leaves(t, H, 0, Used) {
      LeavesDisjoint(t, H, 0, lo, b);
      assert lo.Overlaps(b);
    }
  }

  lemma {:induction false} MergeStep(h: Heap, t: Tree, o: nat, off: nat) returns (h': Heap, t': Tree)
    requires Rep(h, t) && o < |h.lists| - 1 && Block(h.min + o, off) in h.live
    requires Xor(off, Pow2(h.min + o)) in h.lists[o]
    ensures var b := Xor(off, Pow2(h.min + o));
      h' == Heap(h.min, h.lists[o := Minus(h.lists[o], b)],
                 h.live - {Block(h.min + o, off)} + {Block(h.min + o + 1, if b < off then b else off)})
    ensures Rep(h', t')
    ensures var b := Xor(off, Pow2(h.min + o));
      b != off && Block(h.min + o + 1, if b < off then b else off) !in h.live
  {
    var b := Block(h.min + o, off);
    var H := h.Height();
    LiveNode(h, t, b);
    ZeroAligned(H);
    Sibling(t, H, 0, b);
    var c, p := BuddyOf(b), ParentOf(b);
    OnList(h, t, o, c.off);
    t' := Put(t, H, 0, p, Used);
    h' := Heap(h.min, h.lists[o := Minus(h.lists[o], c.off)], h.live - {b} + {p});
    MergedLeaves(t, H, b);
    PutShape(t, H, 0, p, Used, h.min);
    PutNormal(t, H, 0, p, Used);
    var f := Leaves(t, H, 0, Free);
    assert Listing(h.lists[o], c.log, f);
    MinusListing(h.lists[o], c.log, f, c.off);
    RelistOne(h.min, h.lists, f, o, Minus(h.lists[o], c.off), f - {c});
    LeafSub(t, H, 0, Used, p);
  }

  lemma PairLeaves(l: Tree, r: Tree, p: Block, lo: Block, hi: Block)
    requires !l.Split? && !r.Split? && p.log == lo.log + 1 == hi.log + 1
    requires lo.off == p.off && hi.off == p.off + Pow2(lo.log)
    ensures Leaves(Split(l, r), p.log, p.off, Free) == (if l == Free then {lo} else {}) + (if r == Free then {hi} else {})
    ensures Leaves(Split(l, r), p.log, p.off, Used) == (if l == Used then {lo} else {}) + (if r == Used then {hi} else {})
  {
    hide Pow2;
  }

  lemma {:induction false} MergedLeaves(t: Tree, H: nat, b: Block)
    requires b.log < H && Sub(t, H, 0, b) == Some(Used) && Sub(t, H, 0, BuddyOf(b)) == Some(Free)
    ensures Sub(t, H, 0, ParentOf(b)).Some?
    ensures var t' := Put(t, H, 0, ParentOf(b), Used);
      && Leaves(t', H, 0, Free) == Leaves(t, H, 0, Free) - {BuddyOf(b)}
      && Leaves(t', H, 0, Used) == Leaves(t, H, 0, Used) - {b} + {ParentOf(b)}
  {
    ZeroAligned(H);
    Sibling(t, H, 0, b);
    var c, p := BuddyOf(b), ParentOf(b);
    hide Sub, Put, Pow2, Xor, Leaves;
    PutLeaves(t, H, 0, p, Used, Free);
    PutLeaves(t, H, 0, p, Used, Used);
    WholeLeaves(Used, p, Free);
    WholeLeaves(Used, p, Used);
    if b.off < c.off { PairLeaves(Used, Free, p, b, c); } else { PairLeaves(Free, Used, p, c, b); }
  }

  /** A block whose buddy is not listed has no free leaf beside it. */
  lemma NoFreeSibling(h: Heap, t: Tree, o: nat, off: nat)
    requires Rep(h, t) && o < |h.lists| && Block(h.min + o, off) in h.live
    requires o == |h.lists| - 1 || Xor(off, Pow2(h.min + o)) !in h.lists[o]
    ensures SiblingOf(t, h.Height(), 0, Block(h.min + o, off)) != Some(Free)
  {
    hide Leaves, Put, Shape, Normal, Listing, Pow2, Xor;
    var b := Block(h.min + o, off);
    LiveNode(h, t, b);
    OnList(h, t, o, BuddyOf(b).off);
    ZeroAligned(h.Height());
    if b.log < h.Height() { Sibling(t, h.Height(), 0, b); }
  }

  lemma {:induction false} InsertStep(h: Heap, t: Tree, o: nat, off: nat) returns (h': Heap, t': Tree)
    requires Rep(h, t) && o < |h.lists| && Block(h.min + o, off) in h.live
    requires o == |h.lists| - 1 || Xor(off, Pow2(h.min + o)) !in h.lists[o]
    ensures h' == Heap(h.min, Insert(h.lists, o, off), h.live - {Block(h.min + o, off)})
    ensures Rep(h', t')
  {
    hide Sub, Leaves, Put, Shape, Normal, Listing, Pow2, Xor, SiblingOf;
    var b := Block(h.min + o, off);
    var H := h.Height();
    LiveNode(h, t, b);
    OnList(h, t, o, off);
    t' := Put(t, H, 0, b, Free);
    h' := Heap(h.min, Insert(h.lists, o, off), h.live - {b});
    PutLeaf(t, H, b, Used, Free, h.min);
    NormalLeaves();
    NoFreeSibling(h, t, o, off);
    PutNormal(t, H, 0, b, Free);
    var f := Leaves(t, H, 0, Free);
    assert Listing(h.lists[o], b.log, f);
    InsertListing(h.lists[o], b.log, f, off);
    RelistOne(h.min, h.lists, f, o, [off] + h.lists[o], f + {b});
  }

  // ----- the operations keep the representation

  /** The heap after cutting the held block at `off` from order `o` down to order `k`. */
  ghost function Cut(h: Heap, o: nat, k: nat, off: nat): Heap
    requires k <= o < |h.lists|
  {
    Heap(h.min, SplitDown(h.min, h.lists, o, k, off),
         h.live - {Block(h.min + o, off)} + {Block(h.min + k, off)})
  }

  lemma {:induction false} CutDone(h: Heap, o: nat, off: nat)
    requires o < |h.lists| && Block(h.min + o, off) in h.live
    ensures Cut(h, o, o, off) == h
  {
    var b := Block(h.min + o, off);
    assert h.live - {b} + {b} == h.live;
  }

  lemma {:induction false} CutNext(h: Heap, t: Tree, o: nat, k: nat, off: nat) returns (h': Heap, t': Tree)
    requires Rep(h, t) && k < o < |h.lists| && Block(h.min + o, off) in h.live
    ensures h'.min == h.min && h'.lists == Insert(h.lists, o - 1, off + Pow2(h.min + o - 1))
    ensures Block(h.min + o - 1, off) in h'.live && Rep(h', t')
    ensures Cut(h', o - 1, k, off) == Cut(h, o, k, off)
  {
    h', t' := SplitStep(h, t, o, off);
    var a, b, c := Block(h.min + o, off), Block(h.min + o - 1, off), Block(h.min + k, off);
    assert h'.live - {b} + {c} == h.live - {a} + {c};
  }

  lemma {:induction false} CutRep(h: Heap, t: Tree, o: nat, k: nat, off: nat) returns (t': Tree)
    requires Rep(h, t) && k <= o < |h.lists| && Block(h.min + o, off) in h.live
    ensures Rep(Cut(h, o, k, off), t')
    decreases o
  {
    if o == k {
      CutDone(h, o, off);
      t' := t;
    } else {
      var h1, t1 := CutNext(h, t, o, k, off);
      t' := CutRep(h1, t1, o - 1, k, off);
    }
  }

  /** The head of the list of order `o` is not held, nor is the block cut from it. */
  lemma {:induction false} HeadNotLive(h: Heap, t: Tree, o: nat, k: nat)
    requires Rep(h, t) && k <= o < |h.lists| && h.lists[o] != []
    ensures Block(h.min + k, h.lists[o][0]) !in h.live
  {
    var b, c := Block(h.min + o, h.lists[o][0]), Block(h.min + k, h.lists[o][0]);
    ListHead(h, t, o);
    LeafKinds(t, h.Height(), 0, b);
    if c in h.live {
      LeavesDisjoint(t, h.Height(), 0, b, c);
      assert b.Overlaps(c);
    }
  }

  /** Allocation is popping the head of the first fitting list and cutting it down. */
  lemma {:induction false} PopThenCut(h: Heap, t: Tree, o: nat, k: nat) returns (h': Heap, t': Tree)
    requires Rep(h, t) && k <= o < |h.lists| && FirstFit(h.lists, k) == o
    ensures h'.min == h.min && h'.lists == h.lists[o := h.lists[o][1..]] && Rep(h', t')
    ensures Block(h.min + o, h.lists[o][0]) in h'.live
    ensures Alloc(h, k) == (Cut(h', o, k, h.lists[o][0]), Some(h.lists[o][0]))
  {
    var off := h.lists[o][0];
    h', t' := PopStep(h, t, o);
    HeadNotLive(h, t, o, o);
    assert h'.live - {Block(h.min + o, off)} == h.live;
  }

  lemma {:induction false} AllocRep(h: Heap, t: Tree, k: nat) returns (t': Tree)
    requires Rep(h, t) && k < |h.lists|
    ensures Rep(Alloc(h, k).0, t')
    ensures Alloc(h, k).1.Some? ==> Block(h.min + k, Alloc(h, k).1.value) !in h.live
  {
    var o := FirstFit(h.lists, k);
    if o == |h.lists| {
      t' := t;
    } else {
      HeadNotLive(h, t, o, k);
      var h1, t1 := PopThenCut(h, t, o, k);
      t' := CutRep(h1, t1, o, k, h.lists[o][0]);
    }
  }

  ghost predicate BuddyListed(h: Heap, o: nat, off: nat)
    requires o < |h.lists|
  {
    o < |h.lists| - 1 && Xor(off, Pow2(h.min + o)) in h.lists[o]
  }

  lemma {:induction false} MergeNext(h: Heap, t: Tree, o: nat, off: nat) returns (h': Heap, t': Tree)
    requires Rep(h, t) && o < |h.lists| && Block(h.min + o, off) in h.live && BuddyListed(h, o, off)
    ensures var b := Xor(off, Pow2(h.min + o));
      var p := if b < off then b else off;
      && h'.min == h.min && h'.lists == h.lists[o := Minus(h.lists[o], b)]
      && Block(h.min + o + 1, p) in h'.live
      && Dealloc(h', o + 1, p) == Dealloc(h, o, off)
    ensures Rep(h', t')
  {
    h', t' := MergeStep(h, t, o, off);
    var b := Xor(off, Pow2(h.min + o));
    var p := if b < off then b else off;
    assert h'.live - {Block(h.min + o + 1, p)} == h.live - {Block(h.min + o, off)};
  }

  lemma {:induction false} InsertNext(h: Heap, t: Tree, o: nat, off: nat) returns (h': Heap, t': Tree)
    requires Rep(h, t) && o < |h.lists| && Block(h.min + o, off) in h.live && !BuddyListed(h, o, off)
    ensures h'.min == h.min && h'.lists == Insert(h.lists, o, off)
    ensures h' == Dealloc(h, o, off) && Rep(h', t')
  {
    h', t' := InsertStep(h, t, o, off);
  }

  lemma {:induction false} DeallocRep(h: Heap, t: Tree, o: nat, off: nat) returns (t': Tree)
    requires Rep(h, t) && o < |h.lists| && Block(h.min + o, off) in h.live
    ensures Rep(Dealloc(h, o, off), t')
    decreases |h.lists| - o
  {
    if BuddyListed(h, o, off) {
      var b := Xor(off, Pow2(h.min + o));
      var h1, t1 := MergeNext(h, t, o, off);
      t' := DeallocRep(h1, t1, o + 1, if b < off then b else off);
    } else {
      var h1;
      h1, t' := InsertNext(h, t, o, off);
    }
  }

  lemma {:induction false} InitialRep(min: nat, n: nat)
    requires n > 0
    ensures Rep(Initial(min, n), Free)
  {
  }

  // ----- laws

  ghost predicate Covered(blocks: set<Block>, a: nat) {
    exists b :: b in blocks && b.Holds(a)
  }

  ghost predicate Disjoint(blocks: set<Block>) {
    forall b, c :: b in blocks && c in blocks && b != c ==> !b.Overlaps(c)
  }

  /** `b` lies inside the heap of size `2^height` and is aligned to its own size. */
  ghost predicate Fits(b: Block, min: nat, height: nat) {
    min <= b.log && b.off + Pow2(b.log) <= Pow2(height) && b.off % Pow2(b.log) == 0
  }

  /** Free and handed-out blocks tile the heap: each byte lies in exactly one block, each
      block is aligned to its size, each free block is listed once, and sizes add up. */
  ghost predicate Tiles(h: Heap)
    requires |h.lists| > 0
  {
    var blocks := h.FreeBlocks() + h.live;
    && h.FreeBlocks() !! h.live
    && (forall o :: 0 <= o < |h.lists| ==> Distinct(h.lists[o]))
    && (forall a: nat :: a < Pow2(h.Height()) ==> Covered(blocks, a))
    && Disjoint(blocks)
    && (forall b :: b in blocks ==> Fits(b, h.min, h.Height()))
    && Bytes(h.FreeBlocks()) + Bytes(h.live) == Pow2(h.Height())
  }

  lemma {:induction false} LeafMin(t: Tree, h: nat, base: nat, w: Tree, min: nat, b: Block)
    requires !w.Split? && Shape(t, h, min) && min <= h && b in Leaves(t, h, base, w)
    ensures min <= b.log
  {
    if t.Split? {
      if b in Leaves(t.left, h - 1, base, w) {
        LeafMin(t.left, h - 1, base, w, min, b);
      } else {
        LeafMin(t.right, h - 1, base + Pow2(h - 1), w, min, b);
      }
    }
  }

  lemma {:induction false} FreeBlocksAreLeaves(h: Heap, t: Tree)
    requires Rep(h, t)
    ensures h.FreeBlocks() == Leaves(t, h.Height(), 0, Free)
  {
    var H := h.Height();
    forall b | b in Leaves(t, H, 0, Free) ensures b in h.FreeBlocks() {
      LeafMin(t, H, 0, Free, h.min, b);
      LeafRange(t, H, 0, Free, b);
      var o := b.log - h.min;
      assert b.off in h.lists[o];
    }
    forall b | b in h.FreeBlocks() ensures b in Leaves(t, H, 0, Free) {
      assert b.off in h.lists[b.log - h.min];
    }
  }

  lemma {:induction false} BlockFits(h: Heap, t: Tree, b: Block, w: Tree)
    requires Rep(h, t) && !w.Split? && b in Leaves(t, h.Height(), 0, w)
    ensures Fits(b, h.min, h.Height())
  {
    var H := h.Height();
    ZeroAligned(H);
    LeafMin(t, H, 0, w, h.min, b);
    LeafRange(t, H, 0, w, b);
    LeafSub(t, H, 0, w, b);
    LeafAligned(t, H, 0, b);
  }

  lemma {:induction false} LiveFits(h: Heap, t: Tree, b: Block)
    requires Rep(h, t) && b in h.live
    ensures Fits(b, h.min, h.Height())
  {
    BlockFits(h, t, b, Used);
  }

  lemma LeavesAre(t: Tree, H: nat)
    ensures AllLeaves(t, H, 0) == Leaves(t, H, 0, Free) + Leaves(t, H, 0, Used)
  {
  }

  lemma ListingDistinct(xs: seq<nat>, log: nat, f: set<Block>)
    requires Listing(xs, log, f)
    ensures Distinct(xs)
  {
  }

  lemma {:induction false} RepTiles(h: Heap, t: Tree)
    requires Rep(h, t)
    ensures Tiles(h)
  {
    hide Leaves, Sub, Pow2, Normal, Shape, Bytes, Listing;
    var H := h.Height();
    FreeBlocksAreLeaves(h, t);
    var blocks := h.FreeBlocks() + h.live;
    LeavesAre(t, H);
    forall b ensures !(b in h.FreeBlocks() && b in h.live) {
      LeafKinds(t, H, 0, b);
    }
    forall a: nat | a < Pow2(H) ensures Covered(blocks, a) {
      var b := LeafCovers(t, H, 0, h.min, a);
    }
    AllDisjoint(t, H);
    forall b | b in blocks ensures Fits(b, h.min, H) {
      BlockFits(h, t, b, if b in h.live then Used else Free);
    }
    TreeBytes(t, H, 0, h.min);
    BytesUnion(h.FreeBlocks(), h.live);
    forall o | 0 <= o < |h.lists| ensures Distinct(h.lists[o]) {
      ListingDistinct(h.lists[o], h.min + o, Leaves(t, H, 0, Free));
    }
  }

  lemma {:induction false} AllDisjoint(t: Tree, H: nat)
    ensures Disjoint(AllLeaves(t, H, 0))
  {
    forall b, c | b in AllLeaves(t, H, 0) && c in AllLeaves(t, H, 0) && b != c ensures !b.Overlaps(c) {
      LeavesDisjoint(t, H, 0, b, c);
    }
  }

  /** An aligned run of `2^(min+k)` bytes with no byte handed out. */
  ghost predicate FreeRun(h: Heap, k: nat, off: nat)
    requires |h.lists| > 0
  {
    && off % Pow2(h.min + k) == 0
    && off + Pow2(h.min + k) <= Pow2(h.Height())
    && forall u :: u in h.live ==> !u.Overlaps(Block(h.min + k, off))
  }

  /** Allocation fails exactly when no aligned, wholly unallocated run of that size is left. */
  lemma {:induction false} AllocFailsIff(h: Heap, k: nat)
    requires Consistent(h) && k < |h.lists|
    ensures Alloc(h, k).1.None? <==> !exists off: nat :: FreeRun(h, k, off)
  {
    var t :| Rep(h, t);
    var o := FirstFit(h.lists, k);
    if o < |h.lists| {
      ListedGivesRun(h, t, k, o);
    } else {
      forall off: nat | FreeRun(h, k, off) ensures false {
        RunGivesListed(h, t, k, off);
      }
    }
  }

  lemma {:induction false} ListedGivesRun(h: Heap, t: Tree, k: nat, o: nat)
    requires Rep(h, t) && k <= o < |h.lists| && h.lists[o] != []
    ensures FreeRun(h, k, h.lists[o][0])
  {
    var H := h.Height();
    var off := h.lists[o][0];
    var b := Block(h.min + o, off);
    ListHead(h, t, o);
    BlockFits(h, t, b, Free);
    CoarserAligned(off, h.min + k, h.min + o);
    Pow2Monotone(h.min + k, h.min + o);
    forall u | u in h.live ensures !u.Overlaps(Block(h.min + k, off)) {
      LeafKinds(t, H, 0, b);
      LeavesDisjoint(t, H, 0, u, b);
      assert !u.Overlaps(b);
    }
  }

  lemma {:induction false} RunGivesListed(h: Heap, t: Tree, k: nat, off: nat)
    requires Rep(h, t) && k < |h.lists| && FreeRun(h, k, off)
    ensures FirstFit(h.lists, k) < |h.lists|
  {
    var H := h.Height();
    ZeroAligned(H);
    var b := FreeRunInLeaf(t, H, 0, h.min, Block(h.min + k, off));
    LeafRange(t, H, 0, Free, b);
    OnList(h, t, b.log - h.min, b.off);
    assert h.lists[b.log - h.min] != [];
  }

  lemma OnlyOne(x: nat)
    ensures Minus([x], x) == []
  {
  }

  lemma {:induction false} SplitMerge(min: nat, lists: Lists, o: nat, k: nat, off: nat)
    requires k <= o < |lists| && off % Pow2(min + o) == 0
    requires forall j :: k <= j < o ==> lists[j] == []
    ensures MergeUp(min, SplitDown(min, lists, o, k, off), k, off) == MergeUp(min, lists, o, off)
    decreases o
  {
    hide Xor, Pow2, Minus;
    if k < o {
      var x := off + Pow2(min + o - 1);
      var l := Insert(lists, o - 1, x);
      AlignedHalves(off, min + o);
      SplitMerge(min, l, o - 1, k, off);
      assert l[o - 1] == [x];
      OnlyOne(x);
      assert l[o - 1 := []] == lists;
    }
  }

  lemma MergeStops(min: nat, lists: Lists, o: nat, off: nat)
    requires o < |lists| && (o < |lists| - 1 ==> Xor(off, Pow2(min + o)) !in lists[o])
    ensures MergeUp(min, lists, o, off) == Insert(lists, o, off)
  {
    hide Xor, Pow2, Minus;
  }

  lemma PoppedBack(lists: Lists, o: nat)
    requires o < |lists| && lists[o] != []
    ensures Insert(lists[o := lists[o][1..]], o, lists[o][0]) == lists
  {
    assert [lists[o][0]] + lists[o][1..] == lists[o];
  }

  /** Freeing what was just allocated restores every free list, in order. */
  lemma {:induction false} AllocThenFree(h: Heap, k: nat)
    requires Consistent(h) && k < |h.lists| && Alloc(h, k).1.Some?
    ensures Dealloc(Alloc(h, k).0, k, Alloc(h, k).1.value) == h
  {
    var t :| Rep(h, t);
    hide Rep, Xor, Pow2, Minus, SplitDown, MergeUp;
    var o := FirstFit(h.lists, k);
    var off := h.lists[o][0];
    var popped := h.lists[o := h.lists[o][1..]];
    HeadHasNoFreeBuddy(h, t, o);
    SplitMerge(h.min, popped, o, k, off);
    MergeStops(h.min, popped, o, off);
    PoppedBack(h.lists, o);
    HeadNotLive(h, t, o, k);
    assert h.live + {Block(h.min + k, off)} - {Block(h.min + k, off)} == h.live;
  }

  lemma {:induction false} HeadHasNoFreeBuddy(h: Heap, t: Tree, o: nat)
    requires Rep(h, t) && o < |h.lists| && h.lists[o] != []
    ensures h.lists[o][0] % Pow2(h.min + o) == 0
    ensures o < |h.lists| - 1 ==> Xor(h.lists[o][0], Pow2(h.min + o)) !in h.lists[o][1..]
  {
    var H := h.Height();
    var b := Block(h.min + o, h.lists[o][0]);
    ListHead(h, t, o);
    ZeroAligned(H);
    LeafAligned(t, H, 0, b);
    if o < |h.lists| - 1 {
      var c := BuddyOf(b);
      Sibling(t, H, 0, b);
      OnList(h, t, o, c.off);
      assert h.lists[o] == [b.off] + h.lists[o][1..];
      SubNormal(t, H, 0, ParentOf(b));
    }
  }

  lemma {:induction false} SubNormal(t: Tree, h: nat, base: nat, b: Block)
    requires Normal(t) && Sub(t, h, base, b).Some?
    ensures Normal(Sub(t, h, base, b).value)
  {
    if h > b.log {
      if b.off < base + Pow2(h - 1) {
        SubNormal(t.left, h - 1, base, b);
      } else {
        SubNormal(t.right, h - 1, base + Pow2(h - 1), b);
      }
    }
  }

  /** Once everything has been freed, one block spans the heap and all other lists are empty. */
  lemma {:induction false} AllFreed(h: Heap)
    requires Consistent(h) && h.live == {}
    ensures h == Initial(h.min, |h.lists|)
  {
    var t :| Rep(h, t);
    NoUsedLeaf(t, h.Height(), 0, h.min);
    forall o | 0 <= o < |h.lists|
      ensures h.lists[o] == if o == |h.lists| - 1 then [0] else []
    {
      OnList(h, t, o, 0);
      OnlyZero(h.lists[o], h.min + o, {Block(h.Height(), 0)});
    }
    assert h.lists == Initial(h.min, |h.lists|).lists;
  }

  lemma {:induction false} OnlyZero(xs: seq<nat>, log: nat, f: set<Block>)
    requires Listing(xs, log, f) && forall b :: b in f ==> b.off == 0
    ensures xs == if Block(log, 0) in f then [0] else []
  {
    AtMostOne(xs, 0);
    if xs == [] { assert 0 !in xs; } else { assert xs[0] in xs; }
  }

  lemma {:induction false} AtMostOne(xs: seq<nat>, v: nat)
    requires Distinct(xs) && forall x :: x in xs ==> x == v
    ensures |xs| <= 1
  {
    var a, b := if |xs| > 0 then xs[0] else v, if |xs| > 1 then xs[1] else v;
    assert |xs| > 0 ==> a in xs;
    assert |xs| > 1 ==> b in xs;
  }

  // ----- runs

  datatype Op = AllocOp(order: nat) | FreeOp(order: nat, off: nat)

  /** Callers free only blocks they hold, with the order they were given. */
  ghost predicate Allowed(h: Heap, op: Op) {
    match op
    case AllocOp(k) => k < |h.lists|
    case FreeOp(o, off) => o < |h.lists| && Block(h.min + o, off) in h.live
  }

  ghost function Do(h: Heap, op: Op): Heap
    requires Allowed(h, op)
  {
    match op
    case AllocOp(k) => Alloc(h, k).0
    case FreeOp(o, off) => Dealloc(h, o, off)
  }

  ghost predicate Reaches(h: Heap, ops: seq<Op>, h': Heap)
    decreases |ops|
  {
    if ops == [] then h' == h
    else Allowed(h, ops[0]) && Reaches(Do(h, ops[0]), ops[1..], h')
  }

  lemma {:induction false} DoConsistent(h: Heap, op: Op)
    requires Consistent(h) && Allowed(h, op)
    ensures Consistent(Do(h, op))
  {
    var t :| Rep(h, t);
    match op
    case AllocOp(k) => var t' := AllocRep(h, t, k);
    case FreeOp(o, off) => var t' := DeallocRep(h, t, o, off);
  }

  lemma {:induction false} RunConsistent(h: Heap, ops: seq<Op>, h': Heap)
    requires Consistent(h) && Reaches(h, ops, h')
    ensures Consistent(h')
    decreases |ops|
  {
    if ops != [] {
      DoConsistent(h, ops[0]);
      RunConsistent(Do(h, ops[0]), ops[1..], h');
    }
  }

  /** After any run of allocations and frees the blocks tile the heap. */
  lemma {:induction false} RunTiles(min: nat, n: nat, ops: seq<Op>, h: Heap)
    requires n > 0 && Reaches(Initial(min, n), ops, h)
    ensures Consistent(h) && Tiles(h)
  {
    InitialRep(min, n);
    RunConsistent(Initial(min, n), ops, h);
    var t :| Rep(h, t);
    RepTiles(h, t);
  }
}
