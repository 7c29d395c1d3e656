/** The slab allocator on top of the buddy allocator: pages of equal slots for small requests,
    whole buddy blocks for large ones.  Addresses are offsets into the page-aligned heap. */
module Slab {
  import opened Bits
  import Buddy
  import BuddySpec
  import BuddyTree
  import opened Seqs
  import opened SlabSpec

  class BlockAlloc {
    const allocator: Buddy.BuddyAlloc
    const partialBlocks: array<int>
    const fullBlocks: array<int>
    var headers: map<int, Header>
    var link: map<int, int>          // the first word of each free slot
    ghost var cls: map<int, int>
    ghost var chains: map<int, seq<int>>
    ghost var outs: map<int, set<int>>
    ghost var was: set<int>
    ghost var pl: seq<seq<int>>
    ghost var fl: seq<seq<int>>
    ghost var big: set<BuddyTree.Block>  // large requests being served

    ghost function S(): Slab
      reads this, partialBlocks, fullBlocks
    {
      Slab(headers, link, cls, chains, outs, was, partialBlocks[..], fullBlocks[..], pl, fl)
    }

    /** The exponent of the buddy block that a page takes. */
    ghost function PageLog(): nat
      reads allocator
    {
      allocator.SizeLog(4096, 4096)
    }

    ghost function PageOrder(): int
      reads allocator
    {
      allocator.Order(4096, 4096)
    }

    /** The exponent of the buddy block for a large request. */
    ghost function LargeLog(size: nat): nat
      reads allocator
    {
      allocator.SizeLog(Pow2(ClassOf(size)), 4096)
    }

    ghost predicate Pages()
      reads this, allocator
    {
      Housed(headers.Keys, allocator.live, big, PageLog())
    }

    ghost predicate Valid()
      reads this, partialBlocks, fullBlocks, allocator, allocator.freeLists, allocator.link
    {
      && partialBlocks.Length == fullBlocks.Length == 12 && partialBlocks != fullBlocks
      && {partialBlocks, fullBlocks} !! {allocator.freeLists, allocator.link}
      && allocator.Valid() && SlabOk(S()) && Pages()
      && big <= allocator.live && forall b :: b in big ==> b.off % PAGE == 0
    }

    constructor (a: Buddy.BuddyAlloc)
      requires a.Valid()
      ensures Valid() && allocator == a && headers == map[] && big == {}
      ensures fresh(partialBlocks) && fresh(fullBlocks)
    {
      allocator := a;
      partialBlocks := new int[12](i => NULL);
      fullBlocks := new int[12](i => NULL);
      headers, link, cls, chains, outs, was, big := map[], map[], map[], map[], map[], {}, {};
      pl, fl := seq(12, i => []), seq(12, i => []);
    }

    /** The first slot of a page's free chain. */
    method TakeSlot(block: int) returns (ptr: int)
      requires PagesOk(S()) && block in headers && block in chains && chains[block] != []
      modifies this`headers, this`chains, this`outs
      ensures block in old(outs) && block in old(cls) && old(headers)[block].freeHead in old(link)
      ensures S() == Taken(old(S()), block) && ptr == old(headers)[block].freeHead != NULL
      ensures headers.Keys == old(headers.Keys)
    {
      hide SlotAddr, Slots, PageOk;
      TakenPages(S(), block);
      ptr := headers[block].freeHead;
      if ptr == NULL { return; }
      var h := headers[block];
      headers := headers[block := h.(freeHead := link[h.freeHead], alloc := h.alloc + 1)];
      outs := outs[block := outs[block] + {chains[block][0]}];
      chains := chains[block := chains[block][1..]];
    }

    /** Moves the first partial page of a class to the full list. */
    method MoveToFull(block: int, c: nat)
      requires partialBlocks.Length == fullBlocks.Length == 12 && partialBlocks != fullBlocks
      requires block in headers && block in cls && cls[block] == c < 12
      requires |pl| == |fl| == 12 && pl[c] != []
      modifies this`headers, this`was, this`pl, this`fl, partialBlocks, fullBlocks
      ensures S() == Filled(old(S()), block) && headers.Keys == old(headers.Keys)
    {
      partialBlocks[c] := headers[block].next;
      headers := headers[block := headers[block].(next := fullBlocks[c])];
      fullBlocks[c] := block;
      was, pl, fl := was + {block}, pl[c := pl[c][1..]], fl[c := [block] + fl[c]];
    }

    /** Takes a slot from the first partial page of a class, which leaves the list when full. */
    method AllocInto(block: int, c: nat) returns (ptr: int)
      requires partialBlocks.Length == fullBlocks.Length == 12 && partialBlocks != fullBlocks
      requires SlabOk(S()) && c < 12 && block != NULL && block == partialBlocks[c]
      modifies this`headers, this`chains, this`outs, this`was, this`pl, this`fl, partialBlocks, fullBlocks
      ensures SlabOk(S()) && headers.Keys == old(headers.Keys)
      ensures block in cls && cls[block] == c && block in old(chains) && old(chains)[block] != []
      ensures var k := old(chains)[block][0];
        && ptr == SlotAddr(block, c, k) && !Out(old(S()), block, k) && 0 <= k < Slots(c)
        && block in old(outs) && outs == old(outs)[block := old(outs)[block] + {k}]
    {
      hide PagesOk, ListsOk, SlotAddr, Slots, Distinct, Out;
      ghost var s := S();
      PartialHead(s, c);
      TakenPages(s, block);
      ChainLength(s, block);
      if chains[block][1..] != [] {
        TakenLists(s, block);
      } else {
        TakenFilledLists(s, block);
        FilledPages(Taken(s, block), block);
      }
      ptr := TakeSlot(block);
      if ptr != NULL && headers[block].alloc >= headers[block].total {
        MoveToFull(block, c);
      }
    }

    /** Cuts a page into slots: links each to the next as far as the data goes. */
    method CutPage(block: int, sz: int, c: int)
      requires Class(c) && sz == Sz(c)
      modifies this`link
      ensures SameOutside(old(link), link, block) && Cut(link, block, c) && ChainEnd(old(link), link, block, c)
    {
      hide SlotAddr, Slots, Cut, CutTo, SameOutside, SameLink, ChainEnd;
      ghost var link0, n := link, 0;
      CutStart(link, block, c);
      var i := 0;
      while i < DATA - sz
        invariant i == n * Sz(c) && 0 <= n && (n > 0 ==> (n - 1) * Sz(c) < DATA - Sz(c))
        invariant CutTo(link, block, c, n) && SameOutside(link0, link, block)
        invariant SameLink(link0, link, SlotAddr(block, c, Slots(c)))
        decreases DATA - i
      {
        CutMore(link0, link, block, c, n);
        CutBelow(link0, link, block, c, n);
        link := link[block + HEADER + i := block + HEADER + i + sz];
        i := i + sz;
        n := n + 1;
      }
      CutLast(link0, link, block, c, n);
      CutChainEnd(link0, link, block, c, n);
      link := link[block + HEADER + DATA - sz := NULL];
    }

    /** A buddy block, of the order of a request of `size` bytes that is a power of two. */
    method GetLarge(size: nat) returns (p: int)
      requires allocator.Valid() && 4096 <= size <= MAX_POW2
      modifies allocator`lists, allocator`live, allocator`tree, allocator.freeLists, allocator.link
      ensures allocator.Valid()
      ensures p == NULL <==> Refuses(old(allocator.State()), old(allocator.Order(size, 4096)))
      ensures p == NULL ==> allocator.live == old(allocator.live)
      ensures p != NULL ==> 0 <= p && p % PAGE == 0 && p + size <= allocator.heapLen
      ensures p != NULL ==> allocator.live == old(allocator.live) + {BuddyTree.Block(allocator.SizeLog(size, 4096), p)}
                            && BuddyTree.Block(allocator.SizeLog(size, 4096), p) !in old(allocator.live)
    {
      hide BuddySpec.SplitDown, BuddySpec.Rep, Buddy.Threaded, CeilLog, Pow2, FloorLog;
      p := allocator.AllocBytes(size);
      RefusedIs(old(allocator.State()), old(allocator.tree), old(allocator.Order(size, 4096)), p);
      LiveAfter(old(allocator.State()), allocator.State(), allocator.Order(size, 4096), p);
    }

    /** A page for slots of class `c`, cut up; null when the buddy allocator has none. */
    method MakeBlock(sz: int, c: int) returns (block: int)
      requires Valid() && Class(c) && sz == Sz(c)
      modifies this`headers, this`link, allocator`lists, allocator`live, allocator`tree, allocator.freeLists, allocator.link
      ensures allocator.Valid()
      ensures block == NULL <==> Refuses(old(allocator.State()), old(PageOrder()))
      ensures block == NULL ==> headers == old(headers) && link == old(link) && allocator.live == old(allocator.live)
      ensures block != NULL ==> 0 <= block && block % PAGE == 0 && block !in old(headers)
      ensures block != NULL ==> allocator.live == old(allocator.live) + {BuddyTree.Block(PageLog(), block)}
                                && BuddyTree.Block(PageLog(), block) !in old(allocator.live)
      ensures block != NULL ==> Housed(old(headers).Keys + {block}, allocator.live, big, PageLog())
      ensures block != NULL ==> SameOutside(old(link), link, block) && Cut(link, block, c)
      ensures block != NULL ==> headers == old(headers)[block := Header(SlotAddr(block, c, 0), 0, Slots(c), NULL)]
    {
      hide SlabOk, BuddySpec.Rep, Buddy.Threaded, SlotAddr, Slots, Cut, SameOutside, CeilLog, Housed;
      ghost var headers0, live0 := headers, allocator.live;
      block := GetLarge(4096);
      if block == NULL { return; }
      var nelem := DATA / sz;
      CutPage(block, sz, c);
      headers := headers[block := Header(block + HEADER, 0, nelem, NULL)];
      FirstSlot(block, c);
      MoreHoused(headers0.Keys, live0, big, PageLog(), block);
    }

    /** Puts a page just made at the front of the partial list of its class. */
    method PutFirst(block: int, c: nat, ghost s: Slab)
      requires partialBlocks.Length == fullBlocks.Length == 12 && partialBlocks != fullBlocks && |pl| == 12 && Class(c)
      requires headers == s.headers[block := Header(SlotAddr(block, c, 0), 0, Slots(c), NULL)]
      requires s == S().(headers := s.headers, link := s.link)
      modifies this`headers, this`cls, this`chains, this`outs, this`was, this`pl, partialBlocks
      ensures S() == Added(s, block, c, link) && headers.Keys == s.headers.Keys + {block} && partialBlocks[c] == block
    {
      hide SlotAddr, Slots, UpTo;
      headers := headers[block := headers[block].(next := partialBlocks[c])];
      partialBlocks[c] := block;
      cls, chains, outs := cls[block := c], chains[block := UpTo(Slots(c))], outs[block := {}];
      was, pl := was - {block}, pl[c := [block] + pl[c]];
      assert headers == Added(s, block, c, link).headers && partialBlocks[..] == s.partial[c := block];
    }

    /** A new page for class `c`, first on its partial list. */
    method NewPage(sz: int, c: nat) returns (block: int)
      requires Valid() && Class(c) && sz == Sz(c)
      modifies this`headers, this`link, this`cls, this`chains, this`outs, this`was, this`pl, partialBlocks
      modifies allocator`lists, allocator`live, allocator`tree, allocator.freeLists, allocator.link
      ensures Valid()
      ensures block == NULL <==> Refuses(old(allocator.State()), old(PageOrder()))
      ensures SameClasses(old(cls), cls)
      ensures block == NULL ==> outs == old(outs)
      ensures block != NULL ==> partialBlocks[c] == block && forall q, m :: Out(S(), q, m) <==> Out(old(S()), q, m)
    {
      hide SlabOk, BuddySpec.Rep, Buddy.Threaded, SlotAddr, Slots, Cut, SameOutside, CeilLog, Pow2, Out, Refuses,
        Sz, Class, Housed, SameClasses, UpTo, Buddy.BuddyAlloc.Valid;
      ghost var s := S();
      SlabParts(s);
      block := MakeBlock(sz, c);
      if block == NULL {
        ClassesSelf(cls);
        return NULL;
      }
      AddedOk(s, block, c, link);
      PutFirst(block, c, s);
      AddedSame(s, S(), block, c);
    }

    /** A slot of class `c`, from a new page when no page has one free. */
    method AllocSlot(sz: int, c: nat) returns (r: int, ghost p: int, ghost k: int)
      requires Valid() && Class(c) && sz == Sz(c)
      modifies this`headers, this`link, this`cls, this`chains, this`outs, this`was, this`pl, this`fl
      modifies partialBlocks, fullBlocks
      modifies allocator`lists, allocator`live, allocator`tree, allocator.freeLists, allocator.link
      ensures Valid()
      ensures r == NULL <==> old(partialBlocks[c]) == NULL && Refuses(old(allocator.State()), old(PageOrder()))
      ensures SameClasses(old(cls), cls)
      ensures r == NULL ==> outs == old(outs)
      ensures r != NULL ==> SlotGiven(old(S()), S(), p, k, r, c)
    {
      hide SlabOk, BuddySpec.Rep, Buddy.Threaded, SlotAddr, Slots, CeilLog, Pow2;
      p, k := 0, 0;
      ghost var s0 := S();
      SlabParts(s0);
      var block := partialBlocks[c];
      if block == NULL {
        block := NewPage(sz, c);
        if block == NULL { return NULL, 0, 0; }
      }
      ghost var s := S();
      PartialHead(s, c);
      p, k := block, chains[block][0];
      r := AllocInto(block, c);
      SlotNotNull(S(), block, c, k, r);
      OutMore(s0, s, S(), p, k);
    }

    /** Memory for `size0` bytes: a free slot of the class of that size, or a whole buddy block
        when the class would take a page or more. */
    method Alloc(size0: nat) returns (r: int, ghost p: int, ghost k: int)
      requires Valid() && size0 <= MAX_POW2
      modifies this`headers, this`link, this`cls, this`chains, this`outs, this`was, this`pl, this`fl, this`big
      modifies partialBlocks, fullBlocks
      modifies allocator`lists, allocator`live, allocator`tree, allocator.freeLists, allocator.link
      ensures Valid()
      ensures r == NULL <==> NoSpace(old(S()), old(allocator.State()), ClassOf(size0), old(LargeLog(size0)), old(PageLog()))
      ensures SameClasses(old(cls), cls)
      ensures r == NULL ==> big == old(big) && outs == old(outs)
      ensures r != NULL && ClassOf(size0) >= 12 ==> r >= 0 && r % PAGE == 0 && r + size0 <= allocator.heapLen && outs == old(outs)
      ensures r != NULL && ClassOf(size0) >= 12 ==> var b := BuddyTree.Block(LargeLog(size0), r);
        b !in old(allocator.live) && big == old(big) + {b}
      ensures r != NULL && ClassOf(size0) < 12 ==> big == old(big) && SlotGiven(old(S()), S(), p, k, r, ClassOf(size0))
    {
      hide SlabOk, BuddySpec.Rep, Buddy.Threaded, CeilLog, Pow2, ClassOf, SlotGiven;
      p, k := 0, 0;
      SmallClass(size0);
      var sz := if size0 < 8 then 8 else size0;
      SizeBound(size0);
      sz := Pow2Ceil(sz);
      ClassIs(size0);
      if sz >= PAGE {
        r := GetLarge(sz);
        if r != NULL { big := big + {BuddyTree.Block(LargeLog(size0), r)}; }
        return;
      }
      var nblk := Log2(sz);
      LogOfPow2(ClassOf(size0), nblk);
      r, p, k := AllocSlot(sz, nblk);
    }

    /** `val` is being used for a request of `size` bytes: a large block, or slot `k` of page `p`. */
    ghost predicate InUse(val: int, size: nat, p: int, k: int)
      reads this, partialBlocks, fullBlocks, allocator
    {
      Using(S(), big, LargeLog(size), val, size, p, k)
    }

    /** Takes memory back.  The address alone tells which layer it came from, and the size as
        requested gives the order the buddy allocator used. */
    method Free(val: int, size: nat, ghost p: int, ghost k: int)
      requires Valid() && size <= MAX_POW2 && (val != NULL ==> InUse(val, size, p, k))
      modifies this`headers, this`link, this`chains, this`outs, this`big
      modifies allocator`lists, allocator`live, allocator`tree, allocator.freeLists, allocator.link
      ensures Valid()
      ensures val == NULL ==> S() == old(S()) && big == old(big) && allocator.State() == old(allocator.State())
      ensures val != NULL && ClassOf(size) >= 12 ==>
        var b := BuddyTree.Block(old(LargeLog(size)), val);
        S() == old(S()) && big == old(big) - {b} && allocator.live == old(allocator.live) - {b}
      ensures val != NULL && ClassOf(size) < 12 ==>
        && big == old(big) && allocator.State() == old(allocator.State())
        && forall q, m :: Out(S(), q, m) <==> Out(old(S()), q, m) && !(q == p && m == k)
    {
      hide SlabOk, BuddySpec.Rep, SlotAddr, Slots, CeilLog, Pow2, ClassOf, BuddySpec.MergeUp, Buddy.BuddyAlloc.Valid;
      if val == NULL { return; }
      Routed(val, size, p, k);
      if val % PAGE == 0 {
        FreeLarge(val, size);
        return;
      }
      FreeSlot(val, p, k);
    }

    /** Puts a slot in front of the free chain of its page, found by rounding the address down. */
    method FreeSlot(val: int, ghost p: int, ghost k: int)
      requires Valid() && Out(S(), p, k) && p in headers && p in cls && val == SlotAddr(p, cls[p], k)
      requires val - val % PAGE == p
      modifies this`headers, this`link, this`chains, this`outs
      ensures Valid() && S() == Given(old(S()), p, k)
      ensures forall q, m :: Out(S(), q, m) <==> Out(old(S()), q, m) && !(q == p && m == k)
    {
      hide SlabOk, BuddySpec.Rep, SlotAddr, Slots, CeilLog, Pow2, ClassOf, Buddy.BuddyAlloc.Valid;
      var hdr := val - val % PAGE;
      GivenOk(S(), p, k);
      var h := headers[hdr].(alloc := headers[hdr].alloc - 1);
      link := link[val := h.freeHead];
      headers := headers[hdr := h.(freeHead := val)];
      ghost var s := old(S());
      chains, outs := chains[p := [k] + chains[p]], outs[p := outs[p] - {k}];
      assert S() == Given(s, p, k);
    }

    method FreeLarge(val: nat, size: nat)
      requires allocator.Valid() && size <= MAX_POW2 && ClassOf(size) >= 12
      requires BuddyTree.Block(LargeLog(size), val) in big && big <= allocator.live
      modifies this`big, allocator`lists, allocator`live, allocator`tree, allocator.freeLists, allocator.link
      ensures allocator.Valid()
      ensures big == old(big) - {BuddyTree.Block(old(LargeLog(size)), val)}
      ensures allocator.live == old(allocator.live) - {BuddyTree.Block(old(LargeLog(size)), val)}
    {
      hide BuddySpec.Rep, Buddy.Threaded, CeilLog, Pow2, ClassOf, BuddySpec.MergeUp;
      SameOrder(size, allocator.minLog);
      ghost var b := BuddyTree.Block(LargeLog(size), val);
      allocator.FreeBytes(val, size);
      big := big - {b};
    }

    /** The address tells the layer: a slot never lies on a page boundary, a large block always
        does. */
    lemma Routed(val: int, size: nat, p: int, k: int)
      requires Valid() && InUse(val, size, p, k)
      ensures val % PAGE == 0 <==> ClassOf(size) >= 12
      ensures ClassOf(size) < 12 ==> p in headers && val - val % PAGE == p
    {
      hide CeilLog, Pow2, ClassOf, SlotAddr, Slots;
      if ClassOf(size) < 12 {
        assert PageOk(headers[p], link, p, cls[p], chains[p], outs[p]);
        SlotInside(p, cls[p], k);
      }
    }

    /** When a request fails, in bytes. */
    lemma NoSpaceIs(size: nat)
      requires Valid()
      ensures NoSpace(S(), allocator.State(), ClassOf(size), LargeLog(size), PageLog()) <==>
              Nothing(S(), allocator.live, allocator.heapLen, allocator.minBlockSize, size)
    {
      hide Pow2, CeilLog, ClassOf, SlabOk, BuddySpec.Rep, Buddy.Threaded, NoSpace, Nothing, Buddy.Least;
      SlabParts(S());
      LogsAbove(allocator.minLog, LargeLog(size), Pow2(ClassOf(size)));
      LogsAbove(allocator.minLog, PageLog(), PAGE);
      NothingIs(S(), allocator.State(), LargeLog(size), PageLog(), size);
    }

    lemma LogsAbove(min: nat, lg: nat, size: nat)
      requires Valid() && min == allocator.minLog && lg == allocator.SizeLog(size, 4096)
      ensures min <= lg && Buddy.Least(Pow2(lg), size, PAGE, Pow2(min))
    {
      hide Pow2, CeilLog, SlabOk, BuddySpec.Rep, Buddy.Threaded, Buddy.BuddyAlloc.SizeLog;
      allocator.SizeLogLeast(size, 4096);
      if lg < min {
        Pow2Monotone(lg + 1, min);
        PowNext(lg);
        Buddy.PowPositive(lg);
      }
    }

    lemma PageLive(q: int)
      requires Pages() && q in headers
      ensures q >= 0 && BuddyTree.Block(PageLog(), q) in allocator.live && BuddyTree.Block(PageLog(), q) !in big
    {
    }

    lemma PageHolds()
      ensures PAGE <= Pow2(PageLog())
    {
      hide CeilLog, Pow2;
    }

    /** A large block shares no byte with a slot that is handed out, nor with its page. */
    lemma LargeApart(b: BuddyTree.Block, p: int, k: int)
      requires Valid() && b in big && Out(S(), p, k) && p in cls
      ensures b.off + Pow2(b.log) <= p || p + PAGE <= b.off
      ensures b.off + Pow2(b.log) <= SlotAddr(p, cls[p], k) || SlotAddr(p, cls[p], k) + Sz(cls[p]) <= b.off
    {
      hide BuddySpec.Rep, Buddy.Threaded, CeilLog, Pow2, SlotAddr, Slots, Sz;
      assert PageOk(headers[p], link, p, cls[p], chains[p], outs[p]);
      PageHolds();
      PageApart(allocator.State(), allocator.tree, b, PageLog(), p);
      SlotInside(p, cls[p], k);
    }

    lemma LargesApart(b: BuddyTree.Block, c: BuddyTree.Block)
      requires Valid() && b in big && c in big && b != c
      ensures !b.Overlaps(c)
    {
      hide BuddySpec.Rep, Buddy.Threaded, SlabOk;
      BuddySpec.RepTiles(allocator.State(), allocator.tree);
    }

    lemma LargeHolds(size: nat)
      requires ClassOf(size) >= 12
      ensures size <= Pow2(LargeLog(size))
    {
      hide CeilLog, Pow2;
      SmallClass(size);
    }

    /** What is in use by two holders shares no byte, whichever layer served each. */
    lemma InUseApart(v: int, n: nat, p: int, k: int, w: int, m: nat, q: int, l: int)
      requires Valid() && InUse(v, n, p, k) && InUse(w, m, q, l)
      requires ClassOf(n) >= 12 && ClassOf(m) >= 12 ==>
                 BuddyTree.Block(LargeLog(n), v) != BuddyTree.Block(LargeLog(m), w)
      requires ClassOf(n) < 12 && ClassOf(m) < 12 ==> (p, k) != (q, l)
      ensures v != w && (v + n <= w || w + m <= v)
    {
      hide Valid, SlabOk, CeilLog, Pow2, ClassOf, SlotAddr, Slots, Sz, LargeLog, PageLog;
      SmallClass(n);
      SmallClass(m);
      if ClassOf(n) >= 12 { LargeHolds(n); }
      if ClassOf(m) >= 12 { LargeHolds(m); }
      if ClassOf(n) >= 12 && ClassOf(m) >= 12 {
        LargesApart(BuddyTree.Block(LargeLog(n), v), BuddyTree.Block(LargeLog(m), w));
      } else if ClassOf(n) >= 12 {
        LargeApart(BuddyTree.Block(LargeLog(n), v), q, l);
      } else if ClassOf(m) >= 12 {
        LargeApart(BuddyTree.Block(LargeLog(m), w), p, k);
      } else {
        OutApart(S(), p, k, q, l) by { Layer(); }
      }
    }

    lemma Layer()
      requires Valid()
      ensures SlabOk(S())
    {
    }

    /** A holder may overwrite its large block: neither the free chains of this layer nor the free
        lists below run through it. */
    method UserStoreLarge(ghost b: BuddyTree.Block, a: nat, v: int)
      requires Valid() && b in big && b.Holds(a)
      modifies this`link, allocator.link
      ensures Valid() && link == old(link)[a := v] && allocator.State() == old(allocator.State())
    {
      hide SlabOk, BuddySpec.Rep, Buddy.Threaded, CeilLog, Pow2;
      ghost var s := S();
      PageHolds();
      forall q | q in headers ensures !(q <= a < q + PAGE) {
        PageLive(q);
        PageApart(allocator.State(), allocator.tree, b, PageLog(), q);
      }
      OutsideStoreOk(s, a, v);
      allocator.UserStore(b, a, v);
      link := link[a := v];
      assert S() == s.(link := s.link[a := v]);
    }

    /** A holder may overwrite its own slot: the free chains do not run through it. */
    method UserStore(p: int, k: int, a: int, v: int)
      requires Valid() && Out(S(), p, k) && p in cls && SlotAddr(p, cls[p], k) <= a < SlotAddr(p, cls[p], k) + Sz(cls[p])
      modifies this`link, allocator.link
      ensures Valid() && link == old(link)[a := v] && allocator.State() == old(allocator.State())
    {
      hide SlabOk, BuddySpec.Rep, Buddy.Threaded, SlotAddr, Slots, Out, CeilLog, Pow2;
      ghost var s := S();
      StoreOk(s, p, k, a, v);
      SlotIn(s, p, k);
      PageHolds();
      PageLive(p);
      allocator.UserStore(BuddyTree.Block(PageLog(), p), a, v);
      link := link[a := v];
      assert S() == s.(link := s.link[a := v]);
    }
  }

  ghost predicate Using(s: Slab, big: set<BuddyTree.Block>, large: nat, val: int, size: nat, p: int, k: int) {
    if ClassOf(size) >= 12 then val >= 0 && BuddyTree.Block(large, val) in big
    else Out(s, p, k) && p in s.cls && s.cls[p] == ClassOf(size) && val == SlotAddr(p, s.cls[p], k)
  }

  /** What is in use in `s` is in use in `t`. */
  ghost predicate Kept(s: Slab, big: set<BuddyTree.Block>, t: Slab, big': set<BuddyTree.Block>) {
    SameClasses(s.cls, t.cls) && big <= big' && forall q, m :: Out(s, q, m) ==> Out(t, q, m)
  }

  lemma UsingKept(s: Slab, big: set<BuddyTree.Block>, t: Slab, big': set<BuddyTree.Block>,
                  large: nat, val: int, size: nat, p: int, k: int)
    requires Using(s, big, large, val, size, p, k) && Kept(s, big, t, big')
    ensures Using(t, big', large, val, size, p, k)
  {
    hide SlotAddr, ClassOf, Out;
  }

  lemma SlotKept(s: Slab, big: set<BuddyTree.Block>, t: Slab, p: int, k: int, r: int, size: nat, large: nat)
    requires SlotGiven(s, t, p, k, r, ClassOf(size)) && SameClasses(s.cls, t.cls) && ClassOf(size) < 12
    ensures Kept(s, big, t, big) && Using(t, big, large, r, size, p, k) && !Out(s, p, k)
  {
    hide SlotAddr, Slots, ClassOf, Out;
  }

  lemma OutKept(s: Slab, big: set<BuddyTree.Block>, t: Slab, big': set<BuddyTree.Block>)
    requires t.outs == s.outs && SameClasses(s.cls, t.cls) && big <= big'
    ensures Kept(s, big, t, big')
  {
  }

  /** A request as callers see it: the memory given shares no byte with any in use, and all that
      was in use still is. */
  method Request(a: BlockAlloc, size: nat) returns (r: int, ghost p: int, ghost k: int)
    requires a.Valid() && size <= MAX_POW2
    modifies a`headers, a`link, a`cls, a`chains, a`outs, a`was, a`pl, a`fl, a`big, a.partialBlocks, a.fullBlocks
    modifies a.allocator`lists, a.allocator`live, a.allocator`tree, a.allocator.freeLists, a.allocator.link
    ensures a.Valid() && (r != NULL ==> a.InUse(r, size, p, k))
    ensures r == NULL <==>
              Nothing(old(a.S()), old(a.allocator.live), a.allocator.heapLen, a.allocator.minBlockSize, size)
    ensures forall v: int, n: nat, i: int, j: int :: old(a.InUse(v, n, i, j)) ==>
              a.InUse(v, n, i, j) && (r != NULL ==> v != r && (r + size <= v || v + n <= r))
  {
    hide BlockAlloc.Valid, NoSpace, Nothing, ClassOf, SlotAddr, Slots, SlotGiven, Using, Kept, CeilLog, Pow2,
      SameClasses, Out;
    ghost var s, big, live := a.S(), a.big, a.allocator.live;
    BigLive(a);
    a.NoSpaceIs(size);
    r, p, k := a.Alloc(size);
    if r != NULL && ClassOf(size) < 12 {
      SlotKept(s, big, a.S(), p, k, r, size, a.LargeLog(size));
    } else {
      OutKept(s, big, a.S(), a.big);
      if r != NULL { NewLarge(a.S(), a.big, a.LargeLog(size), r, size, p, k); }
    }
    forall v: int, n: nat, i: int, j: int | old(a.InUse(v, n, i, j))
      ensures a.InUse(v, n, i, j) && (r != NULL ==> v != r && (r + size <= v || v + n <= r))
    {
      UsingKept(s, big, a.S(), a.big, a.LargeLog(n), v, n, i, j);
      if r != NULL {
        UsingIs(s, big, a.LargeLog(n), v, n, i, j);
        a.InUseApart(r, size, p, k, v, n, i, j);
      }
    }
  }

  lemma NewLarge(s: Slab, big: set<BuddyTree.Block>, large: nat, val: int, size: nat, p: int, k: int)
    requires ClassOf(size) >= 12 && val >= 0 && BuddyTree.Block(large, val) in big
    ensures Using(s, big, large, val, size, p, k)
  {
  }

  lemma UsingIs(s: Slab, big: set<BuddyTree.Block>, large: nat, val: int, size: nat, p: int, k: int)
    requires Using(s, big, large, val, size, p, k)
    ensures if ClassOf(size) >= 12 then val >= 0 && BuddyTree.Block(large, val) in big
            else Out(s, p, k) && p in s.cls && s.cls[p] == ClassOf(size) && val == SlotAddr(p, s.cls[p], k)
  {
  }

  lemma BigLive(a: BlockAlloc)
    requires a.Valid()
    ensures a.big <= a.allocator.live
  {
  }

  /** Memory given back by its holder: all else that was in use still is. */
  method Return(a: BlockAlloc, val: int, size: nat, ghost p: int, ghost k: int)
    requires a.Valid() && size <= MAX_POW2 && (val != NULL ==> a.InUse(val, size, p, k))
    modifies a`headers, a`link, a`chains, a`outs, a`big
    modifies a.allocator`lists, a.allocator`live, a.allocator`tree, a.allocator.freeLists, a.allocator.link
    ensures a.Valid()
    ensures forall v: int, n: nat, i: int, j: int ::
              old(a.InUse(v, n, i, j)) && (val != NULL ==> v != val) ==> a.InUse(v, n, i, j)
  {
    hide BlockAlloc.Valid, ClassOf, SlotAddr, Slots, Using, CeilLog, Pow2, Out;
    ghost var s, big := a.S(), a.big;
    if val != NULL { UsingIs(s, big, a.LargeLog(size), val, size, p, k); }
    a.Free(val, size, p, k);
    forall v: int, n: nat, i: int, j: int | old(a.InUse(v, n, i, j)) && (val != NULL ==> v != val)
      ensures a.InUse(v, n, i, j)
    {
      UsingIs(s, big, a.LargeLog(n), v, n, i, j);
      StillUsing(a.S(), a.big, a.LargeLog(n), v, n, i, j);
    }
  }

  lemma StillUsing(s: Slab, big: set<BuddyTree.Block>, large: nat, val: int, size: nat, p: int, k: int)
    requires if ClassOf(size) >= 12 then val >= 0 && BuddyTree.Block(large, val) in big
             else Out(s, p, k) && p in s.cls && s.cls[p] == ClassOf(size) && val == SlotAddr(p, s.cls[p], k)
    ensures Using(s, big, large, val, size, p, k)
  {
  }

  /** Two requests of any sizes, one after the other, and the first given back: the two shared no
      byte, and the second is in use like all that was before. */
  method TwoRequests(a: BlockAlloc, x: nat, y: nat) returns (r: int, s: int, ghost q: int, ghost m: int)
    requires a.Valid() && x <= MAX_POW2 && y <= MAX_POW2
    modifies a`headers, a`link, a`cls, a`chains, a`outs, a`was, a`pl, a`fl, a`big, a.partialBlocks, a.fullBlocks
    modifies a.allocator`lists, a.allocator`live, a.allocator`tree, a.allocator.freeLists, a.allocator.link
    ensures a.Valid()
    ensures r != NULL && s != NULL ==> (s + y <= r || r + x <= s)
    ensures s != NULL ==> a.InUse(s, y, q, m)
    ensures forall v: int, n: nat, i: int, j: int :: old(a.InUse(v, n, i, j)) ==> a.InUse(v, n, i, j)
  {
    hide BlockAlloc.Valid, BlockAlloc.InUse;
    ghost var p, k;
    r, p, k := Request(a, x);
    s, q, m := Request(a, y);
    Return(a, r, x, p, k);
  }

  /** Each page is a buddy block in use, and not one of the large ones. */
  ghost predicate Housed(pages: set<int>, live: set<BuddyTree.Block>, big: set<BuddyTree.Block>, log: nat) {
    forall p: int :: p in pages ==> p >= 0 && BuddyTree.Block(log, p) in live && BuddyTree.Block(log, p) !in big
  }

  lemma MoreHoused(pages: set<int>, live: set<BuddyTree.Block>, big: set<BuddyTree.Block>, log: nat, p: nat)
    requires Housed(pages, live, big, log) && big <= live && BuddyTree.Block(log, p) !in live
    ensures p !in pages && Housed(pages + {p}, live + {BuddyTree.Block(log, p)}, big, log)
  {
  }

  lemma StoreOk(s: Slab, p: int, k: int, a: int, v: int)
    requires SlabOk(s) && Out(s, p, k) && p in s.cls && SlotAddr(p, s.cls[p], k) <= a < SlotAddr(p, s.cls[p], k) + Sz(s.cls[p])
    ensures SlabOk(s.(link := s.link[a := v]))
  {
    hide PagesOk, ListOk;
    StorePages(s, p, k, a, v);
  }

  lemma StorePages(s: Slab, p: int, k: int, a: int, v: int)
    requires PagesOk(s) && Out(s, p, k) && p in s.cls && SlotAddr(p, s.cls[p], k) <= a < SlotAddr(p, s.cls[p], k) + Sz(s.cls[p])
    ensures PagesOk(s.(link := s.link[a := v]))
  {
    hide PageOk, SlotAddr, Slots, Sz;
    var t := s.(link := s.link[a := v]);
    forall q | q in t.headers ensures PageOk(t.headers[q], t.link, q, t.cls[q], t.chains[q], t.outs[q]) {
      ChainApart(s, p, k, a, q);
      PageFrame(s.headers[q], s.link, q, s.cls[q], s.chains[q], s.outs[q], a, v);
    }
  }

  lemma ChainApart(s: Slab, p: int, k: int, a: int, q: int)
    requires PagesOk(s) && Out(s, p, k) && p in s.cls && q in s.headers
    requires SlotAddr(p, s.cls[p], k) <= a < SlotAddr(p, s.cls[p], k) + Sz(s.cls[p])
    ensures forall m :: m in s.chains[q] ==> SlotAddr(q, s.cls[q], m) != a
  {
    hide SlotAddr, Slots;
    forall m | m in s.chains[q] ensures SlotAddr(q, s.cls[q], m) != a {
      SlotsApart(p, s.cls[p], k, q, s.cls[q], m);
    }
  }

  /** Slots handed out do not overlap. */
  lemma OutApart(s: Slab, p: int, k: int, q: int, m: int)
    requires SlabOk(s) && Out(s, p, k) && Out(s, q, m) && p in s.cls && q in s.cls
    ensures (p, k) != (q, m) ==>
      SlotAddr(p, s.cls[p], k) + Sz(s.cls[p]) <= SlotAddr(q, s.cls[q], m)
      || SlotAddr(q, s.cls[q], m) + Sz(s.cls[q]) <= SlotAddr(p, s.cls[p], k)
  {
    SlotsApart(p, s.cls[p], k, q, s.cls[q], m);
  }

  /** Two live buddy blocks, one of them a page's. */
  lemma PageApart(h: BuddySpec.Heap, t: BuddyTree.Tree, b: BuddyTree.Block, log: nat, p: int)
    requires BuddySpec.Rep(h, t) && b in h.live && PAGE <= Pow2(log)
    requires p >= 0 && BuddyTree.Block(log, p) in h.live && BuddyTree.Block(log, p) != b
    ensures b.off + Pow2(b.log) <= p || p + PAGE <= b.off
  {
    hide BuddySpec.Rep;
    BuddySpec.RepTiles(h, t);
    assert !b.Overlaps(BuddyTree.Block(log, p));
  }

  lemma OutsidePages(s: Slab, a: int, v: int)
    requires SlabOk(s) && forall q :: q in s.headers ==> !(q <= a < q + PAGE)
    ensures PagesOk(s.(link := s.link[a := v]))
  {
    hide PageOk, SlotAddr, Slots, ListsOk;
    var t := s.(link := s.link[a := v]);
    forall q | q in t.headers ensures PageOk(t.headers[q], t.link, q, t.cls[q], t.chains[q], t.outs[q]) {
      PageLinks(s, q);
      PageFrame(s.headers[q], s.link, q, s.cls[q], s.chains[q], s.outs[q], a, v);
    }
  }

  /** Outside all pages nothing is a link of this layer. */
  lemma OutsideStoreOk(s: Slab, a: int, v: int)
    requires SlabOk(s) && forall q :: q in s.headers ==> !(q <= a < q + PAGE)
    ensures SlabOk(s.(link := s.link[a := v]))
  {
    hide PagesOk, ListOk;
    OutsidePages(s, a, v);
  }

  lemma SlotIn(s: Slab, p: int, k: int)
    requires SlabOk(s) && Out(s, p, k)
    ensures p in s.headers && p in s.cls && p >= 0
    ensures p <= SlotAddr(p, s.cls[p], k) && SlotAddr(p, s.cls[p], k) + Sz(s.cls[p]) <= p + PAGE
  {
    hide SlotAddr, Slots;
    SlotInside(p, s.cls[p], k);
  }

  lemma PageLinks(s: Slab, q: int)
    requires SlabOk(s) && q in s.headers
    ensures q in s.cls && q in s.chains && q in s.outs
    ensures forall m :: m in s.chains[q] ==> q <= SlotAddr(q, s.cls[q], m) < q + PAGE
  {
    hide SlotAddr, Slots;
    forall m | m in s.chains[q] ensures q <= SlotAddr(q, s.cls[q], m) < q + PAGE {
      assert 0 <= m < Slots(s.cls[q]);
      SlotInside(q, s.cls[q], m);
    }
  }

  /** Slot `k` of page `p`, at address `r`, was free and is now handed out; nothing else is. */
  ghost predicate SlotGiven(s: Slab, t: Slab, p: int, k: int, r: int, c: int) {
    && !Out(s, p, k) && Out(t, p, k) && Class(c) && 0 <= k < Slots(c) && r == SlotAddr(p, c, k)
    && p in t.cls && t.cls[p] == c
    && forall q, m :: Out(t, q, m) <==> Out(s, q, m) || (q == p && m == k)
  }

  lemma SlotNotNull(s: Slab, p: int, c: int, k: int, r: int)
    requires SlabOk(s) && p in s.headers && p in s.cls && s.cls[p] == c && r == SlotAddr(p, c, k) && 0 <= k < Slots(c)
    ensures r >= 0
  {
    SlotInside(p, c, k);
  }

  /** A new page hands out no slot and leaves the pages there are as they were. */
  lemma AddedSame(s: Slab, t: Slab, p: int, c: int)
    requires SlabOk(s) && p !in s.headers && t.outs == s.outs[p := {}] && t.cls == s.cls[p := c]
    ensures SameClasses(s.cls, t.cls) && forall q, m :: Out(t, q, m) <==> Out(s, q, m)
  {
  }

  lemma ClassesSelf(cls: map<int, int>)
    ensures SameClasses(cls, cls)
  {
  }

  /** Every page keeps its class, hence every slot its address. */
  ghost predicate SameClasses(cls: map<int, int>, cls': map<int, int>) {
    forall q :: q in cls ==> q in cls' && cls'[q] == cls[q]
  }

  lemma OutMore(s0: Slab, s: Slab, t: Slab, p: int, k: int)
    requires forall q, m :: Out(s, q, m) <==> Out(s0, q, m)
    requires p in s.outs && t.outs == s.outs[p := s.outs[p] + {k}]
    ensures forall q, m :: Out(t, q, m) <==> Out(s0, q, m) || (q == p && m == k)
  {
  }

  lemma SizeBound(size: nat)
    requires size <= MAX_POW2
    ensures (if size < 8 then 8 else size) <= MAX_POW2
    ensures Pow2(CeilLog(if size < 8 then 8 else size)) <= MAX_POW2
  {
    WordPowers();
    hide Pow2, CeilLog;
    CeilLogLeast(if size < 8 then 8 else size, 63);
    Pow2Monotone(CeilLog(if size < 8 then 8 else size), 63);
  }

  lemma SlabParts(s: Slab)
    requires SlabOk(s)
    ensures |s.pl| == |s.fl| == |s.partial| == |s.full| == 12
    ensures s.cls.Keys == s.chains.Keys == s.outs.Keys == s.headers.Keys
  {
  }

  lemma ClassIs(size: nat)
    ensures ClassOf(size) == CeilLog(if size < 8 then 8 else size)
  {
  }

  lemma FirstSlot(p: int, c: int)
    ensures SlotAddr(p, c, 0) == p + HEADER && Slots(c) == DATA / Sz(c)
  {
  }

  /** The buddy heap has no aligned, wholly free run of `order`, or no such order at all. */
  ghost predicate Refuses(h: BuddySpec.Heap, order: int) {
    order >= 0 && (order < |h.lists| ==> forall off: nat :: !BuddySpec.FreeRun(h, order, off))
  }

  /** A request of class `c` cannot be served: its buddy block (for a small class without a partly
      free page, a whole page) has no free run. */
  ghost predicate NoSpace(s: Slab, h: BuddySpec.Heap, c: nat, large: nat, page: nat) {
    if c >= 12 then Refuses(h, large - h.min)
    else c < |s.partial| && s.partial[c] == NULL && Refuses(h, page - h.min)
  }

  /** In bytes: there is no run of the least size that serves the request, which for a small one is
      that of a page. */
  ghost predicate Nothing(s: Slab, live: set<BuddyTree.Block>, len: nat, min: nat, size: nat) {
    if size > 2048 then Buddy.NoRoom(live, len, size, PAGE, min)
    else ClassOf(size) < |s.partial| && s.partial[ClassOf(size)] == NULL && Buddy.NoRoom(live, len, PAGE, PAGE, min)
  }

  lemma RefusesBytes(h: BuddySpec.Heap, lg: nat, size: nat, align: nat)
    requires |h.lists| > 0 && h.min <= lg && Buddy.Least(Pow2(lg), size, align, Pow2(h.min))
    ensures Refuses(h, lg - h.min) <==> Buddy.NoRoom(h.live, Pow2(h.Height()), size, align, Pow2(h.min))
  {
    hide Pow2, Buddy.Least, Buddy.FreeBytes, BuddySpec.FreeRun;
    var k, len := lg - h.min, Pow2(h.Height());
    forall x: nat, off: nat | Buddy.Least(x, size, align, Pow2(h.min)) && Buddy.FreeBytes(h.live, len, x, off)
      ensures k < |h.lists| && BuddySpec.FreeRun(h, k, off)
    {
      Buddy.LeastOne(x, Pow2(lg), size, align, Pow2(h.min));
      if k >= |h.lists| { Buddy.TooLong(h.live, h.Height(), lg, off); }
      Buddy.RunBytes(h, k, off);
    }
    if k < |h.lists| {
      forall off: nat | BuddySpec.FreeRun(h, k, off) ensures Buddy.FreeBytes(h.live, len, Pow2(lg), off) {
        Buddy.RunBytes(h, k, off);
      }
    }
  }

  /** A large request and its rounded size have the same least block. */
  lemma SameLeast(x: nat, size: nat, min: nat)
    requires ClassOf(size) >= 12
    ensures Buddy.Least(x, Pow2(ClassOf(size)), PAGE, min) <==> Buddy.Least(x, size, PAGE, min)
  {
    hide Pow2, ClassOf;
    forall y: nat ensures Buddy.Enough(y, Pow2(ClassOf(size)), PAGE, min) <==> Buddy.Enough(y, size, PAGE, min) {
      ClassLeast(size);
      if exists e: nat :: y == Pow2(e) {
        var e: nat :| y == Pow2(e);
        if Pow2(ClassOf(size)) <= y { assert size <= Pow2(ClassOf(size)); }
        if size <= y && 4096 <= y {
          if e < 3 { Big(); Pow2Monotone(e, 11); }
          Pow2Monotone(ClassOf(size), e);
        }
      }
    }
  }

  lemma NothingIs(s: Slab, h: BuddySpec.Heap, large: nat, page: nat, size: nat)
    requires |h.lists| > 0 && h.min <= large && h.min <= page && |s.partial| == 12
    requires Buddy.Least(Pow2(large), Pow2(ClassOf(size)), PAGE, Pow2(h.min))
    requires Buddy.Least(Pow2(page), PAGE, PAGE, Pow2(h.min))
    ensures NoSpace(s, h, ClassOf(size), large, page) <==> Nothing(s, h.live, Pow2(h.Height()), Pow2(h.min), size)
  {
    hide Pow2, ClassOf, Refuses, Buddy.NoRoom, Buddy.Least;
    ClassLeast(size);
    if ClassOf(size) >= 12 {
      SameLeast(Pow2(large), size, Pow2(h.min));
      RefusesBytes(h, large, size, PAGE);
    } else {
      RefusesBytes(h, page, PAGE, PAGE);
    }
  }

  lemma RefusedIs(h: BuddySpec.Heap, t: BuddyTree.Tree, k: int, p: int)
    requires BuddySpec.Rep(h, t) && k >= 0
    requires k >= |h.lists| ==> p == Buddy.NULL
    requires k < |h.lists| ==> var r := BuddySpec.Alloc(h, k).1; p == if r.Some? then r.value else Buddy.NULL
    ensures p == NULL <==> Refuses(h, k)
  {
    hide BuddySpec.SplitDown, BuddySpec.FreeRun, BuddySpec.Rep;
    if k < |h.lists| { BuddySpec.AllocFailsIff(h, k); }
  }

  /** What the buddy allocator's answer means for the blocks in use. */
  lemma LiveAfter(h: BuddySpec.Heap, h': BuddySpec.Heap, k: int, p: int)
    requires k >= |h.lists| ==> p == Buddy.NULL && h' == h
    requires 0 <= k < |h.lists| ==> var (g, r) := BuddySpec.Alloc(h, k); h' == g && p == if r.Some? then r.value else Buddy.NULL
    requires 0 <= k
    ensures p == Buddy.NULL ==> h'.live == h.live
    ensures p != Buddy.NULL ==> p >= 0 && h'.live == h.live + {BuddyTree.Block(h.min + k, p)}
  {
    hide BuddySpec.SplitDown;
  }

  lemma CutStart(link: map<int, int>, p: int, c: int)
    ensures CutTo(link, p, c, 0) && SameOutside(link, link, p) && SameLink(link, link, SlotAddr(p, c, Slots(c)))
  {
  }

  lemma CutMore(link0: map<int, int>, link: map<int, int>, p: int, c: int, n: int)
    requires Class(c) && 0 <= n && n * Sz(c) < DATA - Sz(c) && CutTo(link, p, c, n) && SameOutside(link0, link, p)
    ensures var l := link[p + HEADER + n * Sz(c) := p + HEADER + n * Sz(c) + Sz(c)];
      CutTo(l, p, c, n + 1) && SameOutside(link0, l, p)
    ensures n * Sz(c) + Sz(c) == (n + 1) * Sz(c)
  {
    var l := link[p + HEADER + n * Sz(c) := p + HEADER + n * Sz(c) + Sz(c)];
    NextSlot(p, c, n);
    hide SlotAddr;
    forall k | 0 <= k < n + 1 ensures SlotAddr(p, c, k) in l && l[SlotAddr(p, c, k)] == SlotAddr(p, c, k + 1) {
      if k < n { SlotDiffers(p, c, k, n); }
    }
  }

  lemma NextSlot(p: int, c: int, n: int)
    ensures SlotAddr(p, c, n) == p + HEADER + n * Sz(c) && SlotAddr(p, c, n + 1) == p + HEADER + n * Sz(c) + Sz(c)
    ensures n * Sz(c) + Sz(c) == (n + 1) * Sz(c)
    ensures Class(c) && n >= 0 ==> n * Sz(c) >= 0 && Sz(c) > 0
  {
  }

  lemma CutLast(link0: map<int, int>, link: map<int, int>, p: int, c: int, n: int)
    requires Class(c) && CutTo(link, p, c, n) && SameOutside(link0, link, p)
    requires 0 <= n && n * Sz(c) >= DATA - Sz(c) && (n > 0 ==> (n - 1) * Sz(c) < DATA - Sz(c))
    ensures var l := link[p + HEADER + DATA - Sz(c) := NULL]; Cut(l, p, c) && SameOutside(link0, l, p)
  {
    CutEnd(link, p, c, n);
  }

  lemma CutBelow(link0: map<int, int>, link: map<int, int>, p: int, c: int, n: int)
    requires Class(c) && 0 <= n && n * Sz(c) < DATA - Sz(c) && SameLink(link0, link, SlotAddr(p, c, Slots(c)))
    ensures var a := p + HEADER + n * Sz(c); SameLink(link0, link[a := a + Sz(c)], SlotAddr(p, c, Slots(c)))
  {
    assert n < Slots(c) by { SlotCount(c, n); }
    SlotDiffers(p, c, n, Slots(c));
    hide Slots, Sz;
    assert SlotAddr(p, c, n) == p + HEADER + n * Sz(c);
  }

  lemma CutChainEnd(link0: map<int, int>, link: map<int, int>, p: int, c: int, n: int)
    requires Class(c) && CutTo(link, p, c, n) && SameLink(link0, link, SlotAddr(p, c, Slots(c)))
    requires 0 < n && n * Sz(c) >= DATA - Sz(c) && (n - 1) * Sz(c) < DATA - Sz(c)
    ensures ChainEnd(link0, link[p + HEADER + DATA - Sz(c) := NULL], p, c)
  {
    CutCount(c, n);
    NullPlace(p, c);
    hide Slots, Sz, SlotAddr;
    if c != 3 { assert SlotAddr(p, c, n - 1) in link; }
  }

  lemma PartialHead(s: Slab, c: nat)
    requires SlabOk(s) && c < 12 && |s.partial| == 12 && s.partial[c] != NULL
    ensures |s.pl| == |s.full| == |s.fl| == 12 && s.pl[c] != [] && s.pl[c][0] == s.partial[c]
    ensures var p := s.partial[c];
      && p in s.headers && p in s.cls && p in s.chains && p in s.outs && s.cls[p] == c && s.chains[p] != []
  {
    hide ListOk, PageOk;
    ListHead(s.headers, s.partial[c], s.pl[c]);
    assert s.pl[c][0] in s.pl[c];
  }

  lemma ChainLength(s: Slab, p: int)
    requires PagesOk(s) && p in s.headers
    ensures p in s.chains && |s.chains[p]| == s.headers[p].total - s.headers[p].alloc
  {
  }
}
