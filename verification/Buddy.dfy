/** The buddy allocator: in-place free lists threaded through the free blocks themselves. */
module Buddy {
  import opened Bits
  import opened BuddySpec
  import opened BuddyTree
  import opened Seqs

  const NULL: int := -1
  /** The largest heap whose sizes `OrderSize`, a 32-bit shift, gives right (`Bits.ShiftExact`). */
  const MAX_HEAP: nat := 0x4000_0000
  const MIN_HEAP_ALIGN: nat := 4096

  ghost function HeadOf(xs: seq<nat>): int {
    if xs == [] then NULL else xs[0]
  }

  /** Following `link` from `head` visits `xs` and ends in null. */
  ghost predicate Chain(link: seq<int>, head: int, xs: seq<nat>) {
    && head == HeadOf(xs)
    && forall i :: 0 <= i < |xs| ==>
         xs[i] < |link| && link[xs[i]] == HeadOf(xs[i + 1..])
  }

  lemma HalfSize(k: nat)
    requires k > 0
    ensures Pow2(k) / 2 == Pow2(k - 1)
  {
  }

  /** No block offset is on two free lists. */
  ghost predicate Separate(lists: Lists) {
    && (forall o :: 0 <= o < |lists| ==> Distinct(lists[o]))
    && forall o, p, x: nat :: 0 <= o < |lists| && 0 <= p < |lists| && o != p && x in lists[o] ==> x !in lists[p]
  }

  ghost predicate Inside(lists: Lists, len: nat) {
    forall o, x: nat :: 0 <= o < |lists| && x in lists[o] ==> x < len
  }

  /** The list heads and the links in memory spell out the free lists.  The top list holds
      at most the whole heap, and the link inside that block is never read. */
  ghost predicate Threaded(link: seq<int>, heads: seq<int>, lists: Lists) {
    && 0 < |lists| == |heads|
    && Separate(lists) && Inside(lists, |link|) && |lists[|lists| - 1]| <= 1
    && (forall o :: 0 <= o < |lists| - 1 ==> Chain(link, heads[o], lists[o]))
    && heads[|lists| - 1] == HeadOf(lists[|lists| - 1])
  }

  lemma {:induction false} ListIsChain(link: seq<int>, heads: seq<int>, lists: Lists, o: nat)
    requires Threaded(link, heads, lists) && o < |lists| - 1
    ensures Chain(link, heads[o], lists[o])
  {
  }

  lemma {:induction false} ChainFrame(link: seq<int>, head: int, xs: seq<nat>, a: nat, v: int)
    requires Chain(link, head, xs) && a < |link| && a !in xs
    ensures Chain(link[a := v], head, xs)
  {
  }

  /** Writing one link word and one head keeps every other list. */
  lemma {:induction false} ThreadedUpdate(link: seq<int>, heads: seq<int>, lists: Lists,
                                          o: nat, a: nat, v: int, head: int, ys: seq<nat>)
    requires Threaded(link, heads, lists) && o < |lists| && a < |link|
    requires forall p :: 0 <= p < |lists| && p != o ==> a !in lists[p]
    requires Distinct(ys) && forall y :: y in ys ==> y in lists[o] || y == a
    requires head == HeadOf(ys)
    requires if o < |lists| - 1 then Chain(link[a := v], head, ys) else |ys| <= 1
    ensures Threaded(link[a := v], heads[o := head], lists[o := ys])
  {
    var link', heads', lists' := link[a := v], heads[o := head], lists[o := ys];
    forall p | 0 <= p < |lists| - 1 ensures Chain(link', heads'[p], lists'[p]) {
      if p != o { ChainFrame(link, heads[p], lists[p], a, v); }
    }
    forall p | 0 <= p < |lists'| ensures Distinct(lists'[p]) {}
    forall p, q, x: nat | 0 <= p < |lists'| && 0 <= q < |lists'| && p != q && x in lists'[p]
      ensures x !in lists'[q]
    {
      assert x in ys ==> x in lists[o] || x == a;
    }
    forall p, x: nat | 0 <= p < |lists'| && x in lists'[p] ensures x < |link'| {
      if p == o && x != a { assert x in lists[o]; }
    }
  }

  lemma {:induction false} ThreadedPop(link: seq<int>, heads: seq<int>, lists: Lists, o: nat)
    requires Threaded(link, heads, lists) && o < |lists| && lists[o] != []
    ensures 0 <= heads[o] < |link| && heads[o] == lists[o][0]
    ensures Threaded(link, heads[o := if o < |lists| - 1 then link[heads[o]] else NULL], lists[o := lists[o][1..]])
  {
    var xs := lists[o];
    var ys := xs[1..];
    assert xs[0] in xs;
    if o < |lists| - 1 {
      assert Chain(link, heads[o], xs);
      assert link[xs[0]] == HeadOf(ys);
      forall i | 0 <= i < |ys| ensures ys[i] < |link| && link[ys[i]] == HeadOf(ys[i + 1..]) {
        assert ys[i + 1..] == xs[i + 2..];
      }
    }
    ThreadedUpdate(link, heads, lists, o, xs[0], link[xs[0]], HeadOf(ys), ys);
    assert link[xs[0] := link[xs[0]]] == link;
  }

  lemma {:induction false} ThreadedInsert(link: seq<int>, heads: seq<int>, lists: Lists, o: nat, a: nat)
    requires Threaded(link, heads, lists) && o < |lists| && a < |link|
    requires forall p :: 0 <= p < |lists| ==> a !in lists[p]
    requires o == |lists| - 1 ==> lists[o] == []
    ensures Threaded(link[a := heads[o]], heads[o := a], Insert(lists, o, a))
  {
    var xs := lists[o];
    var ys := [a] + xs;
    if o < |lists| - 1 {
      assert Chain(link, heads[o], xs);
      ChainFrame(link, heads[o], xs, a, heads[o]);
      var link' := link[a := heads[o]];
      assert ys[1..] == xs;
      forall i | 0 <= i < |ys| ensures ys[i] < |link'| && link'[ys[i]] == HeadOf(ys[i + 1..]) {
        if i > 0 { assert ys[i + 1..] == xs[i..]; }
      }
    }
    ThreadedUpdate(link, heads, lists, o, a, heads[o], a, ys);
  }

  lemma {:induction false} ChainUnlink(link: seq<int>, head: int, xs: seq<nat>, i: nat)
    requires Chain(link, head, xs) && Distinct(xs) && 0 < i < |xs|
    ensures Chain(link[xs[i - 1] := link[xs[i]]], head, xs[..i] + xs[i + 1..])
  {
    var a, v := xs[i - 1], link[xs[i]];
    var link' := link[a := v];
    var ys := xs[..i] + xs[i + 1..];
    assert v == HeadOf(xs[i + 1..]);
    forall j | 0 <= j < |ys| ensures ys[j] < |link'| && link'[ys[j]] == HeadOf(ys[j + 1..]) {
      if j < i - 1 {
        assert ys[j] == xs[j] && xs[j] != a;
        assert ys[j + 1..][0] == xs[j + 1..][0];
      } else if j == i - 1 {
        assert ys[j + 1..] == xs[i + 1..];
      } else {
        assert ys[j] == xs[j + 1] && xs[j + 1] != a;
        assert ys[j + 1..] == xs[j + 2..];
      }
    }
  }

  /** Unlinking element `i` of a list: the link before it, or the head, skips over it. */
  lemma {:induction false} ThreadedUnlink(link: seq<int>, heads: seq<int>, lists: Lists, o: nat, i: nat)
    requires Threaded(link, heads, lists) && o < |lists| - 1 && i < |lists[o]|
    ensures var xs := lists[o];
      && (forall j :: 0 <= j < |xs| ==> 0 <= xs[j] < |link|)
      && var lists' := lists[o := Minus(xs, xs[i])];
         if i == 0 then Threaded(link, heads[o := link[xs[0]]], lists')
         else Threaded(link[xs[i - 1] := link[xs[i]]], heads, lists')
  {
    var xs := lists[o];
    var ys := xs[..i] + xs[i + 1..];
    forall j | 0 <= j < |xs| ensures 0 <= xs[j] < |link| { assert xs[j] in xs; }
    MinusAt(xs, i);
    if i == 0 {
      assert ys == xs[1..];
      ThreadedPop(link, heads, lists, o);
    } else {
      UnlinkInner(link, heads, lists, o, i);
    }
  }

  lemma {:induction false} UnlinkInner(link: seq<int>, heads: seq<int>, lists: Lists, o: nat, i: nat)
    requires Threaded(link, heads, lists) && o < |lists| - 1 && 0 < i < |lists[o]|
    ensures var xs := lists[o];
      && xs[i - 1] < |link| && xs[i] < |link|
      && Threaded(link[xs[i - 1] := link[xs[i]]], heads, lists[o := xs[..i] + xs[i + 1..]])
  {
    var xs := lists[o];
    var ys := xs[..i] + xs[i + 1..];
    ListIsChain(link, heads, lists, o);
    var a, v := xs[i - 1], link[xs[i]];
    ChainUnlink(link, heads[o], xs, i);
    assert a in xs;
    assert ys[0] == xs[0];
    MinusAt(xs, i);
    MinusDistinct(xs, xs[i]);
    ThreadedUpdate(link, heads, lists, o, a, v, heads[o], ys);
    assert heads[o := heads[o]] == heads;
  }

  lemma {:induction false} RepSeparate(h: Heap, t: Tree)
    requires Rep(h, t)
    ensures Separate(h.lists) && Inside(h.lists, Pow2(h.Height()))
    ensures |h.lists[|h.lists| - 1]| <= 1
  {
    var H := h.Height();
    forall o | 0 <= o < |h.lists| ensures Distinct(h.lists[o]) {
      assert Listing(h.lists[o], h.min + o, Leaves(t, H, 0, Free));
    }
    forall o, p, x: nat | 0 <= o < |h.lists| && 0 <= p < |h.lists| && o != p && x in h.lists[o]
      ensures x !in h.lists[p]
    {
      OnList(h, t, o, x);
      OnList(h, t, p, x);
      if x in h.lists[p] {
        LeavesDisjoint(t, H, 0, Block(h.min + o, x), Block(h.min + p, x));
        assert false;
      }
    }
    forall o, x: nat | 0 <= o < |h.lists| && x in h.lists[o] ensures x < Pow2(H) {
      OnList(h, t, o, x);
      LeafRange(t, H, 0, Free, Block(h.min + o, x));
    }
    var top := h.lists[|h.lists| - 1];
    forall x: nat | x in top ensures x == 0 {
      OnList(h, t, |h.lists| - 1, x);
      LeafRange(t, H, 0, Free, Block(H, x));
    }
    AtMostOne(top, 0);
  }

  lemma {:induction false} HeadNew(xs: seq<nat>, x: nat)
    requires Distinct([x] + xs)
    ensures x !in xs
  {
    forall i | 0 <= i < |xs| ensures xs[i] != x {
      assert ([x] + xs)[0] == x && ([x] + xs)[i + 1] == xs[i];
    }
  }

  /** The block a step is about to list is on no list yet. */
  lemma {:induction false} NewOnLists(lists: Lists, o: nat, x: nat)
    requires o < |lists| && Separate(Insert(lists, o, x))
    ensures forall p :: 0 <= p < |lists| ==> x !in lists[p]
  {
    var after := Insert(lists, o, x);
    assert after[o] == [x] + lists[o];
    HeadNew(lists[o], x);
    forall p | 0 <= p < |lists| ensures x !in lists[p] {
      if p != o {
        assert x in after[o];
        assert after[p] == lists[p];
      }
    }
  }

  // ----- what a request asks for, in bytes

  /** Blocks of `x` bytes can serve the request: a power of two no smaller than the request, the
      alignment and the smallest block. */
  ghost predicate Enough(x: nat, size: nat, align: nat, min: nat) {
    (exists e: nat :: x == Pow2(e)) && size <= x && align <= x && min <= x
  }

  ghost predicate Least(x: nat, size: nat, align: nat, min: nat) {
    Enough(x, size, align, min) && forall y: nat :: Enough(y, size, align, min) ==> x <= y
  }

  /** The `x` bytes from `off` lie in the heap, are aligned to their number, and none is handed out. */
  ghost predicate FreeBytes(live: set<Block>, len: nat, x: nat, off: nat) {
    x > 0 && off % x == 0 && off + x <= len && forall b :: b in live ==> b.off + Pow2(b.log) <= off || off + x <= b.off
  }

  /** Exactly one block was handed out, at `p`, of the least size that serves the request. */
  ghost predicate Given(live: set<Block>, live': set<Block>, len: nat, p: int, size: nat, align: nat, min: nat) {
    p >= 0 && exists e: nat ::
      Least(Pow2(e), size, align, min) && FreeBytes(live, len, Pow2(e), p) && live' == live + {Block(e, p)}
  }

  lemma LeastIs(lg: nat, size: nat, align: nat, min: nat)
    requires lg == CeilLog(if align > size then (if align > min then align else min)
                           else (if size > min then size else min))
    ensures Least(Pow2(lg), size, align, min)
  {
    hide Pow2, CeilLog;
    var m := if align > size then (if align > min then align else min) else (if size > min then size else min);
    CeilLogLeast(m, lg);
    forall y: nat | Enough(y, size, align, min) ensures Pow2(lg) <= y {
      var e: nat :| y == Pow2(e);
      CeilLogLeast(m, e);
      Pow2Monotone(lg, e);
    }
  }

  lemma LeastOne(x: nat, y: nat, size: nat, align: nat, min: nat)
    requires Least(x, size, align, min) && Least(y, size, align, min)
    ensures x == y
  {
  }

  /** A run that the order's allocation finds is a run of bytes. */
  lemma RunBytes(h: Heap, k: nat, off: nat)
    requires k < |h.lists|
    ensures BuddySpec.FreeRun(h, k, off) <==> FreeBytes(h.live, Pow2(h.Height()), Pow2(h.min + k), off)
  {
    hide Pow2;
    if BuddySpec.FreeRun(h, k, off) {
      forall b | b in h.live ensures b.off + Pow2(b.log) <= off || off + Pow2(h.min + k) <= b.off {
        assert !b.Overlaps(Block(h.min + k, off));
      }
    } else if FreeBytes(h.live, Pow2(h.Height()), Pow2(h.min + k), off) {
      forall u | u in h.live ensures !u.Overlaps(Block(h.min + k, off)) {}
    }
  }

  /** No run of the least size that serves the request is free. */
  ghost predicate NoRoom(live: set<Block>, len: nat, size: nat, align: nat, min: nat) {
    forall x: nat, off: nat :: Least(x, size, align, min) ==> !FreeBytes(live, len, x, off)
  }

  /** `p` is the first block on the first list that has a block large enough. */
  ghost predicate Lowest(h: Heap, p: int, size: nat, align: nat) {
    exists o: nat :: o < |h.lists| && h.lists[o] != [] && p == h.lists[o][0] && NoneBelow(h, o, size, align)
  }

  ghost predicate NoneBelow(h: Heap, o: nat, size: nat, align: nat)
    requires o < |h.lists|
  {
    forall j: nat :: j < o ==> h.lists[j] == [] || Pow2(h.min + j) < size || Pow2(h.min + j) < align
  }

  lemma LeastBelow(x: nat, e: nat, size: nat, align: nat, min: nat)
    requires Least(x, size, align, min)
    ensures size <= Pow2(e) && align <= Pow2(e) && min <= Pow2(e) ==> x <= Pow2(e)
  {
    hide Pow2;
    if size <= Pow2(e) && align <= Pow2(e) && min <= Pow2(e) {
      assert Enough(Pow2(e), size, align, min);
    }
  }

  lemma TooSmall(m: nat, lg: nat, size: nat, align: nat, min: nat)
    requires Least(Pow2(lg), size, align, Pow2(min)) && min <= m < lg
    ensures Pow2(m) < size || Pow2(m) < align
  {
    hide Pow2, Least;
    LeastBelow(Pow2(lg), m, size, align, Pow2(min));
    Pow2Monotone(min, m);
    Pow2Monotone(m + 1, lg);
    PowNext(m);
    PowPositive(m);
  }

  lemma LowestIs(h: Heap, lg: nat, size: nat, align: nat)
    requires h.min <= lg < h.min + |h.lists| && Least(Pow2(lg), size, align, Pow2(h.min))
    ensures var o := FirstFit(h.lists, lg - h.min); o < |h.lists| ==> Lowest(h, h.lists[o][0], size, align)
  {
    hide Pow2, Least, FirstFit;
    var o := FirstFit(h.lists, lg - h.min);
    if o < |h.lists| {
      forall j: nat | j < o ensures h.lists[j] == [] || Pow2(h.min + j) < size || Pow2(h.min + j) < align {
        if j < lg - h.min { TooSmall(h.min + j, lg, size, align, h.min); }
      }
      assert NoneBelow(h, o, size, align);
    }
  }

  lemma PowPositive(n: nat)
    ensures Pow2(n) > 0
  {
  }

  /** What an allocation at the right order means in bytes. */
  lemma AnswerBytes(h: Heap, t: Tree, lg: nat, h': Heap, p: int, size: nat, align: nat, min: nat)
    requires Rep(h, t) && |h.lists| > 0 && h.min <= lg && Least(Pow2(lg), size, align, min) && min == Pow2(h.min)
    requires lg - h.min >= |h.lists| ==> p == NULL && h' == h
    requires lg - h.min < |h.lists| ==>
               var (g, r) := Alloc(h, lg - h.min); h' == g && p == if r.Some? then r.value else NULL
    ensures p == NULL <==> NoRoom(h.live, Pow2(h.Height()), size, align, min)
    ensures p == NULL ==> h' == h
    ensures p != NULL ==> Given(h.live, h'.live, Pow2(h.Height()), p, size, align, min) && Lowest(h, p, size, align)
  {
    hide Pow2, Rep, Least, FreeBytes, BuddySpec.FreeRun, SplitDown, Alloc, Lowest;
    var k, len := lg - h.min, Pow2(h.Height());
    forall x: nat, off: nat | Least(x, size, align, min) && FreeBytes(h.live, len, x, off)
      ensures k < |h.lists| && BuddySpec.FreeRun(h, k, off)
    {
      LeastOne(x, Pow2(lg), size, align, min);
      if k >= |h.lists| { TooLong(h.live, h.Height(), lg, off); }
      RunBytes(h, k, off);
    }
    if k < |h.lists| {
      AllocFailsIff(h, k);
      AllocParts(h, k);
      var o := FirstFit(h.lists, k);
      if o < |h.lists| {
        ListedGivesRun(h, t, k, o);
        LowestIs(h, lg, size, align);
        RunBytes(h, k, h.lists[o][0]);
      }
    }
  }

  lemma TooLong(live: set<Block>, height: nat, lg: nat, off: nat)
    requires height < lg
    ensures !FreeBytes(live, Pow2(height), Pow2(lg), off)
  {
    Pow2Monotone(height + 1, lg);
  }

  lemma AllocParts(h: Heap, k: nat)
    requires k < |h.lists|
    ensures var o := FirstFit(h.lists, k);
      if o == |h.lists| then Alloc(h, k) == (h, None)
      else Alloc(h, k).1 == Some(h.lists[o][0]) && Alloc(h, k).0.live == h.live + {Block(h.min + k, h.lists[o][0])}
  {
  }

  class BuddyAlloc {
    const n: nat
    var heapLen: nat
    var minBlockSize: nat
    var minLog: nat
    var freeLists: array<int>
    /** `link[a]` is the `next` field of a `FreeBlock` placed at offset `a` of the heap. */
    var link: array<int>

    ghost var lists: Lists
    ghost var live: set<Block>
    ghost var tree: Tree

    ghost function State(): Heap
      reads this
    {
      Heap(minLog, lists, live)
    }

    ghost predicate Sized()
      reads this
    {
      && n > 0 && 3 <= minLog
      && heapLen == Pow2(minLog + n - 1) && minBlockSize == Pow2(minLog)
      && freeLists != link && freeLists.Length == n && link.Length == heapLen
    }

    ghost predicate Linked()
      reads this, freeLists, link
    {
      Sized() && |lists| == n && Threaded(link[..], freeLists[..], lists)
    }

    ghost predicate Valid()
      reads this, freeLists, link
    {
      Linked() && Rep(State(), tree) && heapLen <= MAX_HEAP
    }

    /** The heap is a power of two and its smallest blocks hold a pointer.  The operations also
        need its size to fit the 32-bit shift in `OrderSize`. */
    constructor (orders: nat, len: nat)
      requires 0 < orders && len == Pow2(FloorLog(len))
      requires 8 * Pow2(orders - 1) <= len
      ensures Linked() && Rep(State(), tree) && (len <= MAX_HEAP ==> Valid())
      ensures n == orders && heapLen == len && fresh(freeLists) && fresh(link)
      ensures Pow2(minLog + orders - 1) == len && State() == Initial(minLog, orders)
    {
      hide Pow2, FloorLog, Rep, Threaded;
      var m, lg := MinBlockSize(len, orders);
      n := orders;
      heapLen := len;
      minBlockSize := m;
      minLog := lg;
      var heads := new int[orders](_ => NULL);
      heads[orders - 1] := 0;
      freeLists := heads;
      link := new int[len];
      lists := Initial(lg, orders).lists;
      live := {};
      tree := Free;
      new;
      InitialRep(minLog, n);
      InitialThreaded(link[..], freeLists[..], minLog, n);
    }

    static lemma InitialThreaded(link: seq<int>, heads: seq<int>, min: nat, n: nat)
      requires n > 0 && |link| == Pow2(min + n - 1) && |heads| == n
      requires forall o :: 0 <= o < n - 1 ==> heads[o] == NULL
      requires heads[n - 1] == 0
      ensures Threaded(link, heads, Initial(min, n).lists)
    {
      InitialRep(min, n);
      RepSeparate(Initial(min, n), Free);
      assert forall o :: 0 <= o < n - 1 ==> Initial(min, n).lists[o] == [];
    }

    /** `heap.length >> (N - 1)` and its logarithm. */
    static method MinBlockSize(len: nat, orders: nat) returns (m: nat, lg: nat)
      requires 0 < orders && len == Pow2(FloorLog(len))
      requires 8 * Pow2(orders - 1) <= len
      ensures 3 <= lg
      ensures m == Pow2(lg) && len == Pow2(lg + orders - 1)
    {
      hide Pow2, FloorLog;
      MinBlock(len, orders);
      m := len / Pow2(orders - 1);
      lg := Log2(m);
      LogOfPow2(FloorLog(len) - (orders - 1), lg);
    }

    static lemma EightTimes(k: nat)
      ensures Pow2(k + 3) == 8 * Pow2(k)
    {
      assert Pow2(k + 3) == 2 * Pow2(k + 2) && Pow2(k + 2) == 2 * Pow2(k + 1);
    }

    static lemma MinBlock(len: nat, orders: nat)
      requires 0 < orders && len == Pow2(FloorLog(len))
      requires 8 * Pow2(orders - 1) <= len
      ensures orders + 2 <= FloorLog(len)
      ensures len / Pow2(orders - 1) == Pow2(FloorLog(len) - (orders - 1))
    {
      hide Pow2, FloorLog;
      var L := FloorLog(len);
      EightTimes(orders - 1);
      if L < orders + 2 { Pow2Monotone(L, orders + 2); }
      Pow2Add(L - (orders - 1), orders - 1);
      DivMulAdd(Pow2(L - (orders - 1)), Pow2(orders - 1), 0);
    }

    /** The size that is served for a request: the least power of two that is large enough. */
    ghost function SizeLog(size: nat, align: nat): nat
      reads this
    {
      CeilLog(if align > size then (if align > minBlockSize then align else minBlockSize)
              else (if size > minBlockSize then size else minBlockSize))
    }

    lemma SizeLogLeast(size: nat, align: nat)
      ensures Least(Pow2(SizeLog(size, align)), size, align, minBlockSize)
    {
      LeastIs(SizeLog(size, align), size, align, minBlockSize);
    }

    ghost function Order(size: nat, align: nat): int
      reads this
    {
      SizeLog(size, align) - minLog
    }

    method AllocationSize(size0: nat, align: nat) returns (ok: bool, size: nat)
      requires Valid() && align <= MIN_HEAP_ALIGN && size0 <= MAX_POW2
      ensures size == Pow2(SizeLog(size0, align)) && minLog <= SizeLog(size0, align)
      ensures ok <==> SizeLog(size0, align) < minLog + n
      // a power of two, enough, the least such, and refused exactly when it exceeds the heap
      ensures Least(size, size0, align, minBlockSize) && (ok <==> size <= heapLen)
    {
      hide Pow2, CeilLog, Rep, Threaded, Least;
      LeastIs(SizeLog(size0, align), size0, align, minBlockSize);
      size := size0;
      if align > size {
        size := align;
      }
      size := if size < minBlockSize then minBlockSize else size;
      RoundedBounds(size, minLog, n);
      Pow2Monotone(minLog, minLog + n - 1);
      size := Pow2Ceil(size);
      ok := !(size > heapLen);
    }

    static lemma RoundedBounds(size: nat, min: nat, n: nat)
      requires Pow2(min) <= size && n > 0
      ensures min <= CeilLog(size)
      ensures Pow2(CeilLog(size)) <= Pow2(min + n - 1) <==> CeilLog(size) < min + n
    {
      hide Pow2, CeilLog;
      var lg := CeilLog(size);
      if lg < min { Pow2Monotone(lg, min); }
      if lg < min + n { Pow2Monotone(lg, min + n - 1); } else { Pow2Monotone(min + n - 1, lg); }
    }

    method AllocationOrder(size0: nat, align: nat) returns (ok: bool, order: nat)
      requires Valid() && align <= MIN_HEAP_ALIGN && size0 <= MAX_POW2
      ensures ok <==> Order(size0, align) < n
      ensures ok ==> order == Order(size0, align)
    {
      hide Pow2, CeilLog;
      var size;
      ok, size := AllocationSize(size0, align);
      order := 0;
      if ok {
        var lg := Log2(size);
        LogOfPow2(SizeLog(size0, align), lg);
        order := lg - minLog;
      }
    }

    /** `1 << (min_block_size_log2 + order)`, the one being a 32-bit int. */
    function OrderSize(order: nat): nat
      reads this
    {
      Widen(Shift32(minLog + order, 0))
    }

    lemma OrderSizeIs(order: nat)
      requires n > 0 && heapLen == Pow2(minLog + n - 1) && heapLen <= MAX_HEAP && order < n
      ensures OrderSize(order) == Pow2(minLog + order)
    {
      WordPowers();
      if minLog + n - 1 > 30 { Pow2Monotone(31, minLog + n - 1); }
      ShiftExact(minLog + order, 0);
    }

    /** The three list operations take the abstract heap they lead to as ghost arguments. */
    method FreeListPop(order: nat, ghost h: Heap, ghost t: Tree) returns (fb: int)
      requires Valid() && order < n
      requires lists[order] != [] ==> Rep(h, t) && h.min == minLog && h.lists == lists[order := lists[order][1..]]
      modifies this`lists, this`live, this`tree, freeLists
      ensures Valid()
      ensures fb == HeadOf(old(lists[order]))
      ensures fb == NULL ==> State() == old(State()) && tree == old(tree)
      ensures fb != NULL ==> State() == h && tree == t
    {
      fb := freeLists[order];
      ghost var xs, heads := lists[order], freeLists[..];
      assert fb == HeadOf(xs) by {
        if order < n - 1 { assert Chain(link[..], heads[order], xs); }
      }
      if fb != NULL {
        ThreadedPop(link[..], heads, lists, order);
        if order != freeLists.Length - 1 {
          freeLists[order] := link[fb];
        } else {
          freeLists[order] := NULL;
        }
        lists, live, tree := h.lists, h.live, t;
        assert freeLists[..] == heads[order := freeLists[order]];
      }
    }

    method FreeListInsert(order: nat, block: nat, ghost h: Heap, ghost t: Tree)
      requires Valid() && order < n
      requires Rep(h, t) && h.min == minLog && h.lists == Insert(lists, order, block)
      modifies this`lists, this`live, this`tree, freeLists, link
      ensures Valid() && State() == h && tree == t
    {
      RepSeparate(h, t);
      NewOnLists(lists, order, block);
      assert h.lists[order][0] == block;
      assert block in h.lists[order];
      ThreadedInsert(link[..], freeLists[..], lists, order, block);
      link[block] := freeLists[order];
      freeLists[order] := block;
      lists, live, tree := h.lists, h.live, t;
      assert link[..] == old(link[..])[block := old(freeLists[..])[order]];
      assert freeLists[..] == old(freeLists[..])[order := block];
    }

    /** Walks the list through a pointer to the current link: `at` is the block whose `next`
        field that is, or null while it is the list head itself. */
    method FreeListRemove(order: nat, block: nat, ghost h: Heap, ghost t: Tree) returns (found: bool)
      requires Valid() && order < n - 1
      requires block in lists[order] ==>
                 Rep(h, t) && h.min == minLog && h.lists == lists[order := Minus(lists[order], block)]
      modifies this`lists, this`live, this`tree, freeLists, link
      ensures Valid()
      ensures found <==> block in old(lists[order])
      ensures found ==> State() == h && tree == t
      ensures !found ==> State() == old(State()) && tree == old(tree)
    {
      hide Rep, Threaded, Minus, Pow2;
      ghost var xs := lists[order];
      ghost var i := 0;
      ghost var links, heads := link[..], freeLists[..];
      var at := NULL;
      var checking := freeLists[order];
      ListIsChain(links, heads, lists, order);
      while checking != NULL
        invariant 0 <= i <= |xs| && at == (if i == 0 then NULL else xs[i - 1])
        invariant checking == HeadOf(xs[i..])
        invariant block !in xs[..i]
        invariant unchanged(this) && link[..] == links && freeLists[..] == heads
        decreases |xs| - i
      {
        assert checking == xs[i] && links[xs[i]] == HeadOf(xs[i + 1..]);
        if checking == block {
          Unlink(order, at, checking, i, h, t);
          return true;
        }
        at := checking;
        checking := link[checking];
        i := i + 1;
      }
      assert xs[..i] == xs;
      return false;
    }

    /** Leads the pointer that was being checked, the head of the list or the link at `at`, past
        the block. */
    method Unlink(order: nat, at: int, block: nat, ghost i: nat, ghost h: Heap, ghost t: Tree)
      requires Valid() && order < n - 1 && i < |lists[order]| && block == lists[order][i]
      requires at == if i == 0 then NULL else lists[order][i - 1]
      requires Rep(h, t) && h.min == minLog && h.lists == lists[order := Minus(lists[order], block)]
      modifies this`lists, this`live, this`tree, freeLists, link
      ensures Valid() && State() == h && tree == t
    {
      hide Rep, Threaded, Minus, Pow2;
      ghost var xs, links, heads := lists[order], link[..], freeLists[..];
      ThreadedUnlink(links, heads, lists, order, i);
      if at == NULL {
        freeLists[order] := link[block];
        assert freeLists[..] == heads[order := links[xs[0]]];
      } else {
        link[at] := link[block];
        assert link[..] == links[xs[i - 1] := links[xs[i]]];
      }
      lists, live, tree := h.lists, h.live, t;
    }

    method SplitFreeBlock(block: nat, order0: nat, orderNeeded: nat)
      requires Valid() && orderNeeded <= order0 < n && Block(minLog + order0, block) in live
      modifies this`lists, this`live, this`tree, freeLists, link
      ensures Valid()
      ensures State() == Cut(old(State()), order0, orderNeeded, block)
    {
      hide SplitDown, Rep, Pow2, Threaded, Widen, Shift32;
      var order := order0;
      OrderSizeIs(order);
      var sizeToSplit := OrderSize(order);
      while order > orderNeeded
        invariant Valid() && orderNeeded <= order <= order0 && sizeToSplit == Pow2(minLog + order)
        invariant Block(minLog + order, block) in live
        invariant Cut(State(), order, orderNeeded, block) == Cut(old(State()), order0, orderNeeded, block)
      {
        ghost var h, t := CutNext(State(), tree, order, orderNeeded, block);
        HalfSize(minLog + order);
        sizeToSplit := sizeToSplit / 2;
        order := order - 1;
        var split := block + sizeToSplit;
        FreeListInsert(order, split, h, t);
      }
      CutDone(State(), order, block);
    }

    /** Serves a request exactly as `BuddySpec.Alloc` says, or fails when it exceeds the heap. */
    method Allocate(size: nat, align: nat) returns (p: int)
      requires Valid() && align <= MIN_HEAP_ALIGN && size <= MAX_POW2
      modifies this`lists, this`live, this`tree, freeLists, link
      ensures Valid()
      ensures Order(size, align) >= n ==> p == NULL && State() == old(State())
      ensures 0 <= Order(size, align)
      ensures Order(size, align) < n ==>
                var (h, r) := Alloc(old(State()), Order(size, align));
                State() == h && p == if r.Some? then r.value else NULL
      // null exactly when no free run of the least size is left, else one new block of that size
      ensures p == NULL <==> NoRoom(old(live), heapLen, size, align, minBlockSize)
      ensures p == NULL ==> State() == old(State())
      ensures p != NULL ==> Given(old(live), live, heapLen, p, size, align, minBlockSize)
      ensures p != NULL ==> Lowest(old(State()), p, size, align)
      ensures p != NULL ==> p + size <= heapLen
      ensures p != NULL ==> Block(SizeLog(size, align), p) in live && Block(SizeLog(size, align), p) !in old(live)
      ensures p != NULL && align == Pow2(FloorLog(align)) ==> p % align == 0
    {
      hide SplitDown, Rep, Pow2, Threaded, Cut, CeilLog, FloorLog, Widen, Shift32, Alloc, FirstFit,
        NoRoom, Given, Least, Lowest;
      var ok, sz := AllocationSize(size, align);
      ghost var h0, t0 := State(), tree;
      var orderNeeded;
      ok, orderNeeded := AllocationOrder(size, align);
      if !ok {
        AnswerBytes(h0, t0, SizeLog(size, align), h0, NULL, size, align, minBlockSize);
        return NULL;
      }
      for order := orderNeeded to freeLists.Length
        invariant Valid() && State() == h0 && tree == t0
        invariant freeLists == old(freeLists) && link == old(link)
        invariant forall j :: orderNeeded <= j < order ==> lists[j] == []
      {
        var block := AllocateAt(order, orderNeeded);
        if block != NULL {
          HeldFits(State(), tree, Block(minLog + orderNeeded, block), size, align);
          AnswerBytes(h0, t0, SizeLog(size, align), State(), block, size, align, minBlockSize);
          return block;
        }
      }
      FitAt(lists, orderNeeded, n);
      NoneServed(h0, orderNeeded);
      AnswerBytes(h0, t0, SizeLog(size, align), h0, NULL, size, align, minBlockSize);
      return NULL;
    }

    /** One turn of the search: the first block of `order`, if there is one, cut down to the order
        needed; the orders between have none. */
    method AllocateAt(order: nat, orderNeeded: nat) returns (block: int)
      requires Valid() && orderNeeded <= order < n && forall j :: orderNeeded <= j < order ==> lists[j] == []
      modifies this`lists, this`live, this`tree, freeLists, link
      ensures Valid()
      ensures block == NULL ==> old(lists)[order] == [] && State() == old(State()) && tree == old(tree)
      ensures block != NULL ==> Alloc(old(State()), orderNeeded) == (State(), Some(block))
      ensures block != NULL ==>
                Block(minLog + orderNeeded, block) in live && Block(minLog + orderNeeded, block) !in old(live)
    {
      hide SplitDown, Rep, Threaded, Cut, Alloc, FirstFit;
      FitAt(lists, orderNeeded, order);
      ghost var h0 := State();
      ghost var h, t := h0, tree;
      if lists[order] != [] {
        h, t := PopThenCut(h0, tree, order, orderNeeded);
        HeadNotLive(h0, tree, order, orderNeeded);
        ServedAt(h0, orderNeeded, order);
      }
      block := FreeListPop(order, h, t);
      if block != NULL {
        if order > orderNeeded {
          SplitFreeBlock(block, order, orderNeeded);
        } else {
          CutDone(h, order, block);
        }
      }
    }

    static lemma ServedAt(h: Heap, k: nat, o: nat)
      requires k <= o < |h.lists| && FirstFit(h.lists, k) == o
      ensures Alloc(h, k).1 == Some(h.lists[o][0])
      ensures Block(h.min + k, h.lists[o][0]) in Alloc(h, k).0.live
    {
    }

    static lemma NoneServed(h: Heap, k: nat)
      requires k < |h.lists| && FirstFit(h.lists, k) == |h.lists|
      ensures Alloc(h, k) == (h, None)
    {
    }

    static lemma FitAt(lists: Lists, k: nat, o: nat)
      requires k <= o <= |lists| && forall j :: k <= j < o ==> lists[j] == []
      ensures o == |lists| || lists[o] != [] ==> FirstFit(lists, k) == o
    {
    }

    static lemma HeldFits(h: Heap, t: Tree, b: Block, size: nat, align: nat)
      requires Rep(h, t) && b in h.live && size <= Pow2(b.log) && align <= Pow2(b.log)
      ensures b.off + size <= Pow2(h.Height())
      ensures align > 0 && align == Pow2(FloorLog(align)) ==> b.off % align == 0
    {
      hide Rep, Pow2, FloorLog;
      LiveFits(h, t, b);
      AlignedTo(b.off, align, b.log);
    }

    static lemma AlignedTo(off: nat, align: nat, log: nat)
      requires off % Pow2(log) == 0 && align <= Pow2(log)
      ensures align > 0 && align == Pow2(FloorLog(align)) ==> off % align == 0
    {
      if align > 0 && align == Pow2(FloorLog(align)) {
        if FloorLog(align) > log { Pow2Monotone(log, FloorLog(align)); }
        CoarserAligned(off, FloorLog(align), log);
      }
    }

    function BuddyPtr(order: nat, block: nat): int
      reads this
    {
      if OrderSize(order) >= heapLen then NULL else Xor(block, OrderSize(order))
    }

    /** Gives back a block, merging it with free buddies exactly as `BuddySpec.Dealloc` says. */
    method Dealloc(ptr: nat, size: nat, align: nat)
      requires Valid() && align <= MIN_HEAP_ALIGN && size <= MAX_POW2
      requires Block(SizeLog(size, align), ptr) in live
      modifies this`lists, this`live, this`tree, freeLists, link
      ensures Valid()
      ensures 0 <= Order(size, align) < n
      ensures State() == BuddySpec.Dealloc(old(State()), Order(size, align), ptr)
    {
      hide MergeUp, Rep, Xor, Pow2, Minus, Threaded, CeilLog, Widen, Shift32, Insert;
      var fits, sz := AllocationSize(size, align);
      LiveNode(State(), tree, Block(SizeLog(size, align), ptr));
      var ok, initialOrder := AllocationOrder(size, align);
      assert ok;
      var block: nat := ptr;
      for order := initialOrder to freeLists.Length
        invariant Valid() && initialOrder <= order < n
        invariant Block(minLog + order, block) in live
        invariant BuddySpec.Dealloc(State(), order, block) == BuddySpec.Dealloc(old(State()), initialOrder, ptr)
      {
        TopOrder(minLog, order, n);
        OrderSizeIs(order);
        ghost var h, t := State(), tree;
        if BuddyListed(h, order, block) {
          h, t := MergeNext(h, t, order, block);
        }
        var b := BuddyPtr(order, block);
        if b != NULL {
          var found := FreeListRemove(order, b, h, t);
          if found {
            block := if b < block then b else block;
            continue;
          }
        }
        h, t := InsertNext(State(), tree, order, block);
        FreeListInsert(order, block, h, t);
        return;
      }
      assert false;
    }

    static lemma TopOrder(min: nat, order: nat, n: nat)
      requires order < n
      ensures Pow2(min + order) >= Pow2(min + n - 1) <==> order == n - 1
    {
      Pow2Monotone(min + order, min + n - 1);
    }

    function Alignment(size: nat): nat {
      if size >= 4096 then 4096 else 16
    }

    method AllocBytes(size: nat) returns (p: int)
      requires Valid() && size <= MAX_POW2
      modifies this`lists, this`live, this`tree, freeLists, link
      ensures Valid() && 0 <= Order(size, Alignment(size))
      ensures Order(size, Alignment(size)) >= n ==> p == NULL && State() == old(State())
      ensures Order(size, Alignment(size)) < n ==>
                var (h, r) := Alloc(old(State()), Order(size, Alignment(size)));
                State() == h && p == if r.Some? then r.value else NULL
      ensures p == NULL <==> NoRoom(old(live), heapLen, size, if size >= 4096 then 4096 else 16, minBlockSize)
      ensures p != NULL ==> Given(old(live), live, heapLen, p, size, if size >= 4096 then 4096 else 16, minBlockSize)
      ensures p != NULL ==> p + size <= heapLen && p % Alignment(size) == 0
      ensures p != NULL ==> p % 16 == 0 && (size >= 4096 ==> p % 4096 == 0)
      ensures p != NULL ==> Block(SizeLog(size, Alignment(size)), p) in live
      ensures p != NULL ==> Block(SizeLog(size, Alignment(size)), p) !in old(live)
    {
      hide SplitDown, Rep, Pow2, Threaded, CeilLog, FloorLog, Alloc, NoRoom, Given, Lowest;
      PageAlignments();
      p := Allocate(size, Alignment(size));
      if p != NULL { PageIsAligned(p); }
    }

    static lemma PageAlignments()
      ensures Pow2(FloorLog(16)) == 16 && Pow2(FloorLog(4096)) == 4096
    {
      assert Pow2(4) == 16;
      hide Pow2, FloorLog;
      Pow2Add(4, 4);
      Pow2Add(8, 4);
      LogOfPow2(4, FloorLog(16));
      LogOfPow2(12, FloorLog(4096));
    }

    static lemma PageIsAligned(p: int)
      ensures p % 4096 == 0 ==> p % 16 == 0
    {
    }

    method FreeBytes(ptr: nat, size: nat)
      requires Valid() && size <= MAX_POW2
      requires Block(SizeLog(size, Alignment(size)), ptr) in live
      modifies this`lists, this`live, this`tree, freeLists, link
      ensures Valid() && 0 <= Order(size, Alignment(size)) < n
      ensures State() == BuddySpec.Dealloc(old(State()), Order(size, Alignment(size)), ptr)
    {
      Dealloc(ptr, size, Alignment(size));
    }

    /** A holder may overwrite any word of its own block: the free lists do not live there. */
    method UserStore(ghost b: Block, a: nat, v: int)
      requires Valid() && b in live && b.Holds(a)
      modifies link
      ensures Valid() && State() == old(State())
    {
      hide Rep, Threaded, Pow2;
      LiveFits(State(), tree, b);
      HeldNotListed(State(), tree, b, a);
      ThreadedScribble(link[..], freeLists[..], lists, a, v);
      link[a] := v;
      assert link[..] == old(link[..])[a := v];
    }

    static lemma HeldNotListed(h: Heap, t: Tree, b: Block, a: nat)
      requires Rep(h, t) && b in h.live && b.Holds(a)
      ensures forall p :: 0 <= p < |h.lists| ==> a !in h.lists[p]
    {
      forall p | 0 <= p < |h.lists| ensures a !in h.lists[p] {
        if a in h.lists[p] {
          OnList(h, t, p, a);
          LeafKinds(t, h.Height(), 0, b);
          LeavesDisjoint(t, h.Height(), 0, b, Block(h.min + p, a));
          assert false;
        }
      }
    }
  }

  lemma {:induction false} ThreadedScribble(link: seq<int>, heads: seq<int>, lists: Lists, a: nat, v: int)
    requires Threaded(link, heads, lists) && a < |link|
    requires forall p :: 0 <= p < |lists| ==> a !in lists[p]
    ensures Threaded(link[a := v], heads, lists)
  {
    var top := |lists| - 1;
    ThreadedUpdate(link, heads, lists, top, a, v, heads[top], lists[top]);
    assert heads[top := heads[top]] == heads && lists[top := lists[top]] == lists;
  }
}
