/** The K&R allocator: an address-ordered circular free list threaded through block headers.
    Addresses are in units of one header. */
module Kr {
  import opened Bits
  import opened KrArena
  import opened KrSpec
  import opened Seqs

  const NULL: int := 0

  /** Units for a request of `nbytes`: its header and the units for the bytes.  The sum is one of
      64-bit words. */
  function UnitsFor(nbytes: nat, header: nat): (n: nat)
    requires header > 0
    ensures n >= 1
  {
    (nbytes + header - 1) % WORD / header + 1
  }

  /** The units hold the bytes exactly when the sum does not wrap, and then no unit is too many;
      when it wraps, one unit with no room at all is served. */
  lemma UnitsEnough(nbytes: nat, header: nat)
    requires 0 < header < WORD && nbytes < WORD
    ensures var n := UnitsFor(nbytes, header);
      && ((n - 1) * header >= nbytes <==> nbytes + header - 1 < WORD)
      && (nbytes + header - 1 < WORD ==> n == 1 || (n - 2) * header < nbytes)
      && (nbytes + header - 1 >= WORD ==> n == 1)
  {
    var sum := nbytes + header - 1;
    if sum >= WORD {
      assert sum % WORD == sum - WORD < header;
      Small(sum - WORD, header);
    } else {
      assert sum == sum / header * header + sum % header;
    }
  }

  lemma Small(r: nat, m: nat)
    requires r < m
    ensures r / m == 0
  {
  }

  /** Only the headers of `fs` and of `b` may have changed. */
  ghost predicate KeptSizes(fs: seq<Block>, b: Block, old_: map<int, int>, new_: map<int, int>) {
    forall a :: a in old_ && a != b.at && NotIn(fs, a) ==> a in new_ && new_[a] == old_[a]
  }

  ghost predicate NotIn(fs: seq<Block>, a: int) {
    forall i :: 0 <= i < |fs| ==> fs[i].at != a
  }

  /** Going round from behind place `j`, block `i` is the first with `n` units or more. */
  ghost predicate FirstFit(fs: seq<Block>, j: nat, i: nat, n: int) {
    && i < |fs| && j < |fs| && fs[i].size >= n
    && Seen(fs, j, i, n)
  }

  /** The blocks passed on the way round from behind place `j` to `i` are too small. */
  ghost predicate Seen(fs: seq<Block>, j: nat, i: nat, n: int)
    requires i < |fs| && j < |fs|
  {
    forall m :: 0 <= m < |fs| && Dist(m, j, |fs|) > Dist(i, j, |fs|) ==> fs[m].size < n
  }

  lemma SeenStart(fs: seq<Block>, j: nat, n: int)
    requires j < |fs|
    ensures Seen(fs, j, After(j, |fs|), n)
  {
  }

  /** A block of free list `fs`, or new memory above it when none fits, or nothing. */
  ghost predicate Served(fs: seq<Block>, us: seq<Block>, hi: int, end: int, n: nat, j: nat, i: nat,
                         fs': seq<Block>, us': seq<Block>, hi': int, ap: int)
  {
    if exists m :: 0 <= m < |fs| && fs[m].size >= n then
      && FirstFit(fs, j, i, n) && fs' == Carved(fs, i, n) && hi' == hi
      && us' == us + [Cut(fs[i], n)] && ap == Cut(fs[i], n).at + 1
      // the last `n` units of the block, behind their own header
      && ap + n == fs[i].at + fs[i].size + 1
    else if hi < end then
      fs' == fs && hi' == hi + n && us' == us + [Block(hi, n)] && ap == hi + 1
    else
      fs' == fs && hi' == hi && us' == us && ap == NULL
  }

  /** When block `i` of the list served the request, the next search starts behind the block before
      it, which is the served one when that was only cut. */
  ghost predicate NextFit(fs: seq<Block>, n: nat, i: nat, freep: int) {
    i < |fs| && (exists m :: 0 <= m < |fs| && fs[m].size >= n) ==> freep == fs[if i == 0 then |fs| - 1 else i - 1].at
  }

  lemma NextFitIs(fs: seq<Block>, n: nat, i: nat)
    requires i < |fs|
    ensures NextFit(fs, n, i, fs[Prior(i, |fs|)].at)
  {
  }

  lemma NoFit(fs: seq<Block>, n: nat, i: nat, freep: int)
    requires forall m :: 0 <= m < |fs| ==> fs[m].size < n
    ensures NextFit(fs, n, i, freep)
  {
  }

  ghost predicate State(free: seq<Block>, used: seq<Block>, ptr: map<int, int>, size: map<int, int>, freep: int,
                        base: int, lo: int, hi: int)
  {
    && Arena(free, used, base, lo, hi)
    && Cycle(free, ptr) && Sizes(free, size) && Sizes(used, size)
    && exists j :: 0 <= j < |free| && free[j].at == freep
  }

  class KrAlloc {
    const header: nat       // bytes in a header
    const base: int         // address of the empty block
    const heapStart: int
    const heapEnd: int
    var ptr: map<int, int>  // the headers' two fields
    var size: map<int, int>
    var freep: int
    var heap: int
    ghost var free: seq<Block>
    ghost var used: seq<Block>

    ghost predicate Valid()
      reads this
    {
      && 0 < header && 0 < heapStart <= heap && base != NULL
      && (freep == NULL ==> free == [] && used == [] && heap == heapStart)
      && (freep != NULL ==> State(free, used, ptr, size, freep, base, heapStart, heap))
    }

    /** The `base` block neither lies in nor touches the first `n` units past the break. */
    ghost predicate BaseClear(n: nat)
      reads this
    {
      !(heapStart <= base <= heap + n)
    }

    /** The free list the next call starts from. */
    ghost function List(): seq<Block>
      reads this
    {
      if freep == NULL then [Block(base, 0)] else free
    }

    constructor (header: nat, base: int, heapStart: int, heapEnd: int)
      requires 0 < header && 0 < heapStart && base != NULL
      ensures Valid() && freep == NULL && heap == heapStart && used == []
      ensures this.base == base && this.heapStart == heapStart && this.heapEnd == heapEnd && this.header == header
    {
      this.header := header;
      this.base := base;
      this.heapStart := heapStart;
      this.heapEnd := heapEnd;
      ptr, size := map[], map[];
      freep := NULL;
      heap := heapStart;
      free, used := [], [];
    }

    method Sbrk(increment: nat) returns (p: int)
      modifies this`heap
      ensures p == if old(heap) >= heapEnd then NULL else old(heap)
      ensures heap == if old(heap) >= heapEnd then old(heap) else old(heap) + increment
    {
      if heap >= heapEnd { return NULL; }
      p := heap;
      heap := heap + increment;
    }

    /** Links the block at `bp` to what follows `p`, absorbing that if the two touch. */
    method JoinUpper(p: int, bp: int)
      requires p in ptr && bp in size && ptr[p] in ptr && ptr[p] in size
      modifies this`ptr, this`size
      ensures Headers(ptr, size) == SpliceUp(old(Headers(ptr, size)), p, bp)
    {
      if bp + size[bp] == ptr[p] {
        size := size[bp := size[bp] + size[ptr[p]]];
        ptr := ptr[bp := ptr[ptr[p]]];
      } else {
        ptr := ptr[bp := ptr[p]];
      }
    }

    /** Links `p` to the block at `bp`, or absorbs it if the two touch. */
    method JoinLower(p: int, bp: int)
      requires p in size && bp in ptr && bp in size
      modifies this`ptr, this`size
      ensures Headers(ptr, size) == SpliceDown(old(Headers(ptr, size)), p, bp)
    {
      if p + size[p] == bp {
        size := size[p := size[p] + size[bp]];
        ptr := ptr[p := ptr[bp]];
      } else {
        ptr := ptr[p := bp];
      }
    }

    /** Puts the block headed at `bp` back into the ring, joined with the neighbours it touches. */
    method FreeInternal(ap: int, ghost b: Block)
      requires freep != NULL && Ring(free, base, heapStart, heap)
      requires Cycle(free, ptr) && Sizes(free, size)
      requires exists j :: 0 <= j < |free| && free[j].at == freep
      requires Piece(b, base, heapStart, heap) && b.size > 0
      requires forall i :: 0 <= i < |free| ==> Apart(free[i], b) && free[i].at != b.at
      requires ap == b.at + 1 && b.at in size && size[b.at] == b.size
      modifies this`ptr, this`size, this`freep, this`free
      ensures free == Freed(old(free), b) && Ring(free, base, heapStart, heap)
      ensures Cycle(free, ptr) && Sizes(free, size)
      ensures old(free) != [] && freep == old(free)[Prior(Place(old(free), b.at), |old(free)|)].at
      ensures KeptSizes(old(free), b, old(size), size)
    {
      hide Gapped, Pieces, Cycle, Sizes, Place, Splits, Joined, Apart, SpliceUp, SpliceDown, KeptSizes;
      var bp := ap - 1;
      var p := freep;
      ghost var i :| 0 <= i < |free| && free[i].at == freep;
      ghost var k, n := Place(free, bp), |free|;
      ghost var h := Headers(ptr, size);
      SpliceIsFreed(free, h, b, base, heapStart, heap);
      FreedRing(free, b, base, heapStart, heap);
      NextIn(free, h, i);
      LinkAt(free, ptr, i);
      while !(bp > p && bp < ptr[p])
        invariant 0 <= i < n && p == free[i].at && p in ptr && ptr[p] == free[After(i, n)].at
        modifies {}
        decreases Dist(i, Prior(k, n), n)
      {
        StopsAtPlace(free, k, bp, i);
        if p >= ptr[p] && (bp > p || bp < ptr[p]) {
          break;
        }
        p := ptr[p];
        i := After(i, n);
        LinkAt(free, ptr, i);
      }
      StopsAtPlace(free, k, bp, i);
      SpliceKeeps(free, h, b, p);
      JoinUpper(p, bp);
      JoinLower(p, bp);
      freep := p;
      free := Freed(free, b);
    }

    /** Takes `n` units off block `i` of the ring; `prevp` is the block before it. */
    method Take(p0: int, prevp: int, n: nat, ghost i: nat) returns (ap: int)
      requires freep != NULL && Ring(free, base, heapStart, heap) && base != NULL
      requires Cycle(free, ptr) && Sizes(free, size)
      requires i < |free| && free[i].size >= n > 0
      requires p0 == free[i].at && prevp == free[Prior(i, |free|)].at && prevp != NULL
      modifies this`ptr, this`size, this`freep, this`free
      ensures ap == Cut(old(free)[i], n).at + 1
      ensures free == Carved(old(free), i, n) && freep == prevp
      ensures Cycle(free, ptr) && Sizes(free, size)
      ensures Cut(old(free)[i], n).at in size && size[Cut(old(free)[i], n).at] == n
      ensures KeptSizes(old(free), Cut(old(free)[i], n), old(size), size)
      ensures exists j :: 0 <= j < |free| && free[j].at == freep
    {
      hide Gapped, Pieces, Cycle, Sizes;
      var p := p0;
      LinkAt(free, ptr, i);
      SizeAt(free, size, i);
      CarvedHeaders(free, Headers(ptr, size), i, n, base, heapStart, heap);
      PriorStays(free, i, n);
      if size[p] == n {
        ptr := ptr[prevp := ptr[p]];
      } else {
        size := size[p := size[p] - n];
        p := p + size[p];
        size := size[p := n];
      }
      freep := prevp;
      free := Carved(free, i, n);
      return p + 1;
    }

    /** Makes the ring of the empty block alone, before the first allocation. */
    method Begin(ghost n: nat)
      requires Valid() && BaseClear(n)
      modifies this`ptr, this`size, this`freep, this`free
      ensures free == old(List()) && freep != NULL && (old(freep) != NULL ==> freep == old(freep))
      ensures State(free, used, ptr, size, freep, base, heapStart, heap)
    {
      hide State;
      if freep == NULL {
        ptr, size := ptr[base := base], size[base := 0];
        freep := base;
        free := [Block(base, 0)];
        FirstRing(ptr, size, base, heap, n);
      }
    }

    /** Hands out block `i` of the ring `fs`, or of what it became with new memory at `hi`. */
    method HandOut(p: int, prevp: int, n: nat, ghost i: nat, ghost grown: bool,
                   ghost fs: seq<Block>, ghost hi: int, ghost s0: map<int, int>, ghost j: nat)
      returns (ap: int)
      requires freep != NULL && 0 < heapStart <= hi && base != NULL && n > 0 && !(heapStart <= base <= hi + n)
      requires Ring(free, base, heapStart, heap) && Cycle(free, ptr) && Sizes(free, size)
      requires i < |free| && free[i].size >= n
      requires p == free[i].at && prevp == free[Prior(i, |free|)].at && prevp != NULL
      requires Arena(fs, used, base, heapStart, hi) && Sizes(used, s0) && j < |fs|
      requires !grown ==> free == fs && heap == hi && size == s0 && Seen(fs, j, i, n)
      requires grown ==> hi < heapEnd && Grown(fs, hi, n, free, heap, s0, size) && i == TopIndex(fs, hi)
      modifies this
      ensures freep == prevp && State(free, used, ptr, size, freep, base, heapStart, heap)
      ensures heap == old(heap)
      ensures Served(fs, old(used), hi, heapEnd, n, j, i, free, used, heap, ap) && NextFit(fs, n, i, freep)
    {
      hide Pieces, Gapped, Cycle, Sizes, Freed, Carved, Seen, KeptSizes, TopIndex, Arena, Ring, State, Served, Passed,
        Grown, NextFit, Prior;
      if grown {
        GrownParts(fs, hi, n, free, heap, s0, size);
        TopRestored(fs, base, heapStart, hi, n) by { ArenaRing(fs, used, base, heapStart, hi); }
      }
      ghost var s1, us := size, used;
      ap := Take(p, prevp, n, i);
      if grown {
        GrownUsed(fs, us, base, heapStart, hi, n, s0, s1, size);
        GrowArena(fs, us, n, base, heapStart, hi);
        ServedNew(fs, us, hi, heapEnd, n, j, i);
        NoFit(fs, n, i, freep);
        used := us + [Block(hi, n)];
      } else {
        CarvedUsed(fs, us, i, n, base, heapStart, hi, s0, size);
        CarveArena(fs, us, i, n, base, heapStart, hi);
        ServedFit(fs, us, hi, heapEnd, n, j, i);
        NextFitIs(fs, n, i);
        used := us + [Cut(fs[i], n)];
      }
      StateFrom(free, used, ptr, size, freep, base, heapStart, heap);
    }

    /** The search wrapped around without a fit: obtain new memory and go on behind it. */
    method Refill(n: nat) returns (p: int, ghost jc: nat)
      requires freep != NULL && State(free, used, ptr, size, freep, base, heapStart, heap)
      requires n >= 1 && 0 < heapStart <= heap && base != NULL && BaseClear(n)
      requires forall m :: 0 <= m < |free| ==> free[m].size < n
      modifies this`ptr, this`size, this`freep, this`free, this`heap
      ensures old(heap) >= heapEnd ==> p == NULL && unchanged(this)
      ensures old(heap) < heapEnd ==> p == freep && p != NULL && jc < |free| && free[jc].at == p
      ensures old(heap) < heapEnd ==> Ring(free, base, heapStart, heap) && Cycle(free, ptr) && Sizes(free, size)
      ensures old(heap) < heapEnd ==> Grown(old(free), old(heap), n, free, heap, old(size), size)
      ensures old(heap) < heapEnd ==> Passed(true, old(free), old(heap), free, jc, After(jc, |free|), n)
    {
      hide Gapped, Pieces, Cycle, Sizes, Place, Splits, Freed, Carved, Seen, KeptSizes, TopIndex, Arena, Ring, State, Passed,
        Grown, Prior, After, Dist;
      ghost var fs, hi, s0 := free, heap, size;
      StateParts(free, used, ptr, size, freep, base, heapStart, heap);
      ArenaRing(fs, used, base, heapStart, heap);
      p, jc := Morecore(n);
      if p != NULL {
        GrownFrom(fs, hi, n, s0, size);
        TopOnly(fs, base, heapStart, hi, n, jc, free, heap, s0, size);
        PassedNew(fs, hi, free, jc, n);
      }
    }

    /** A block for `nbytes` bytes: the first in the ring that is large enough, from behind the
        last search on; new memory when none is; null when there is none to be had. */
    method Alloc(nbytes: nat) returns (ap: int, ghost j: nat, ghost i: nat)
      requires Valid() && BaseClear(UnitsFor(nbytes, header))
      modifies this
      ensures Valid()
      ensures j < |old(List())| && (old(freep) != NULL ==> old(List())[j].at == old(freep))
      ensures Served(old(List()), old(used), old(heap), heapEnd, UnitsFor(nbytes, header), j, i, free, used, heap, ap)
      ensures ap != NULL ==> NextFit(old(List()), UnitsFor(nbytes, header), i, freep)
    {
      hide Gapped, Pieces, Cycle, Sizes, Place, Splits, Freed, Carved, Seen, KeptSizes, TopIndex, Arena, Ring, State, Served,
        Passed, Grown, Prior, After, Dist, UnitsFor, NextFit;
      var n := UnitsFor(nbytes, header);
      assert n >= 1;
      Begin(n);
      ghost var fs, hi, s0 := free, heap, size;
      StateParts(free, used, ptr, size, freep, base, heapStart, heap);
      j :| 0 <= j < |fs| && fs[j].at == freep;
      ghost var jc: nat := j;
      ghost var grown := false;
      ArenaRing(fs, used, base, heapStart, heap);
      LinkAt(free, ptr, j);
      var prevp, p := freep, ptr[freep];
      i := After(j, |fs|);
      SeenStart(fs, j, n);
      PriorAfter(j, |fs|);
      assert Passed(grown, fs, hi, free, jc, i, n) by { PassedStart(fs, hi, j, i, n); }
      while true
        invariant used == old(used) && freep != NULL
        invariant Ring(free, base, heapStart, heap) && Cycle(free, ptr) && Sizes(free, size)
        invariant jc < |free| && i < |free| && freep == free[jc].at
        invariant p == free[i].at && prevp == free[Prior(i, |free|)].at && prevp != NULL
        invariant !grown ==> State(free, used, ptr, size, freep, base, heapStart, heap)
        invariant !grown ==> free == fs && heap == hi && size == s0 && jc == j
        invariant grown ==> hi < heapEnd && Grown(fs, hi, n, free, heap, s0, size)
        invariant Passed(grown, fs, hi, free, jc, i, n)
        decreases if grown then 0 else 1, Dist(i, jc, |free|)
      {
        LinkAt(free, ptr, i);
        SizeAt(free, size, i);
        if grown { TopOnly(fs, base, heapStart, hi, n, i, free, heap, s0, size); }
        if size[p] >= n {
          PassedFit(grown, fs, hi, free, jc, i, n);
          ap := HandOut(p, prevp, n, i, grown, fs, hi, s0, j);
          return;
        }
        if p == freep {
          SameHeader(free, i, jc, base, heapStart, heap);
          PassedAll(grown, fs, hi, free, jc, n);
          p, jc := Refill(n);
          if p == NULL {
            ServedNone(fs, used, hi, heapEnd, n, j, i);
            return NULL, j, i;
          }
          grown := true;
          i := jc;
        } else {
          PassedStep(grown, fs, hi, free, jc, i, n);
        }
        LinkAt(free, ptr, i);
        NotNull(free, i, base, heapStart, heap);
        PriorAfter(i, |free|);
        prevp, p := p, ptr[p];
        i := After(i, |free|);
      }
    }

    /** Takes back a block that was handed out; null is ignored. */
    method Free(ap: int, ghost j: nat)
      requires Valid() && (ap != NULL ==> j < |used| && ap == used[j].at + 1)
      modifies this
      ensures Valid() && heap == old(heap)
      ensures ap == NULL ==> unchanged(this)
      ensures ap != NULL ==> free == Freed(old(free), old(used)[j]) && used == Without(old(used), j)
      ensures ap != NULL ==>
                old(free) != [] && freep == old(free)[Prior(Place(old(free), old(used)[j].at), |old(free)|)].at
    {
      hide Gapped, Pieces, Cycle, Sizes, Place, Splits, Freed, Without, KeptSizes, Arena;
      if ap == NULL { return; }
      ghost var b, fs, s0 := used[j], free, size;
      ArenaRing(fs, used, base, heapStart, heap);
      UsedApart(fs, used, j, base, heapStart, heap);
      SizeAt(used, size, j);
      FreeInternal(ap, b);
      FreedUsed(fs, used, j, base, heapStart, heap, s0, size);
      FreeArena(fs, used, j, base, heapStart, heap);
      PriorFreed(fs, b, base, heapStart, heap);
      NotNull(fs, Prior(Place(fs, b.at), |fs|), base, heapStart, heap);
      used := Without(used, j);
    }

    /** Gets at least `nu` more units from `sbrk` and frees them into the ring. */
    method Morecore(nu: nat) returns (p: int, ghost j: nat)
      requires freep != NULL && Ring(free, base, heapStart, heap) && nu >= 1 && 0 < heapStart <= heap && base != NULL
      requires Cycle(free, ptr) && Sizes(free, size)
      requires exists i :: 0 <= i < |free| && free[i].at == freep
      requires BaseClear(nu)
      modifies this`ptr, this`size, this`freep, this`free, this`heap
      ensures old(heap) >= heapEnd ==> p == NULL && unchanged(this)
      ensures old(heap) < heapEnd ==> p == freep && p != NULL && heap == old(heap) + nu
      ensures old(heap) < heapEnd ==> free == Freed(old(free), Block(old(heap), nu)) && Ring(free, base, heapStart, heap)
      ensures old(heap) < heapEnd ==> Cycle(free, ptr) && Sizes(free, size)
      ensures old(heap) < heapEnd ==> var t := TopIndex(old(free), old(heap));
        0 <= t < |free| && j < |free| && free[j].at == freep && (j == t || After(j, |free|) == t)
      ensures old(heap) < heapEnd ==> KeptSizes(old(free), Block(old(heap), nu), old(size), size)
    {
      hide Gapped, Pieces, Cycle, Sizes, Place, Splits, Freed, Apart, TopIndex;
      ghost var fs, hi := free, heap;
      var up := Sbrk(nu);
      j := 0;
      if up == NULL {
        return NULL, 0;
      }
      ghost var b := Block(up, nu);
      TopPlace(fs, base, heapStart, hi, nu);
      WiderPieces(fs, base, heapStart, hi, nu);
      SizesKept(fs, size, up, nu);
      size := size[up := nu];
      FreeInternal(up + 1, b);
      j := TopNext(fs, base, heapStart, hi, nu);
      NotNull(free, j, base, heapStart, heap);
      return freep, j;
    }
  }

  lemma SpliceKeeps(fs: seq<Block>, h: Headers, b: Block, p: int)
    requires p in h.ptr && p in h.size && h.ptr[p] in h.ptr && h.ptr[p] in h.size && b.at in h.size
    requires exists i :: 0 <= i < |fs| && fs[i].at == p
    ensures var g := SpliceUp(h, p, b.at);
      && p in g.size && b.at in g.ptr && b.at in g.size
      && KeptSizes(fs, b, h.size, SpliceDown(g, p, b.at).size)
  {
  }

  lemma FirstRing(ptr: map<int, int>, size: map<int, int>, base: int, at: int, n: nat)
    requires base in ptr && ptr[base] == base && base in size && size[base] == 0 && !(at <= base <= at + n)
    ensures State([Block(base, 0)], [], ptr, size, base, base, at, at)
  {
    var fs := [Block(base, 0)];
    assert fs[0] == Block(base, 0);
    UnitsOne(fs[0]);
  }

  /** Memory was added because no block of `fs` is large enough. */
  ghost predicate Grown(fs: seq<Block>, hi: int, n: nat, free: seq<Block>, heap: int, s0: map<int, int>, size: map<int, int>)
  {
    && free == Freed(fs, Block(hi, n)) && heap == hi + n
    && (forall m :: 0 <= m < |fs| ==> fs[m].size < n) && KeptSizes(fs, Block(hi, n), s0, size)
  }

  lemma GrownFrom(fs: seq<Block>, hi: int, n: nat, s0: map<int, int>, size: map<int, int>)
    requires (forall m :: 0 <= m < |fs| ==> fs[m].size < n) && KeptSizes(fs, Block(hi, n), s0, size)
    ensures Grown(fs, hi, n, Freed(fs, Block(hi, n)), hi + n, s0, size)
  {
  }

  lemma GrownParts(fs: seq<Block>, hi: int, n: nat, free: seq<Block>, heap: int, s0: map<int, int>, size: map<int, int>)
    requires Grown(fs, hi, n, free, heap, s0, size)
    ensures free == Freed(fs, Block(hi, n)) && heap == hi + n
    ensures (forall m :: 0 <= m < |fs| ==> fs[m].size < n) && KeptSizes(fs, Block(hi, n), s0, size)
  {
  }

  /** What the search knows: the blocks passed are too small; new memory is still ahead. */
  ghost predicate Passed(grown: bool, fs: seq<Block>, hi: int, free: seq<Block>, jc: nat, i: nat, n: nat)
  {
    && jc < |free| && i < |free|
    && (!grown ==> free == fs && Seen(fs, jc, i, n))
    && (grown ==> 0 <= TopIndex(fs, hi) < |free| && free[TopIndex(fs, hi)].size >= n
                  && Dist(TopIndex(fs, hi), jc, |free|) <= Dist(i, jc, |free|))
  }

  lemma PriorAfter(i: nat, n: nat)
    requires i < n
    ensures 0 <= After(i, n) < n && Prior(After(i, n), n) == i
    ensures Dist(i, i, n) == 0
  {
  }

  lemma PassedStart(fs: seq<Block>, hi: int, j: nat, i: nat, n: nat)
    requires j < |fs| && i < |fs| && Seen(fs, j, i, n)
    ensures Passed(false, fs, hi, fs, j, i, n)
  {
  }

  lemma PassedFit(grown: bool, fs: seq<Block>, hi: int, free: seq<Block>, jc: nat, i: nat, n: nat)
    requires Passed(grown, fs, hi, free, jc, i, n)
    ensures !grown ==> Seen(fs, jc, i, n)
  {
  }

  lemma PassedAll(grown: bool, fs: seq<Block>, hi: int, free: seq<Block>, jc: nat, n: nat)
    requires Passed(grown, fs, hi, free, jc, jc, n) && free[jc].size < n
    ensures !grown && forall m :: 0 <= m < |fs| ==> fs[m].size < n
  {
  }

  lemma PassedStep(grown: bool, fs: seq<Block>, hi: int, free: seq<Block>, jc: nat, i: nat, n: nat)
    requires Passed(grown, fs, hi, free, jc, i, n) && i != jc && free[i].size < n
    ensures Passed(grown, fs, hi, free, jc, After(i, |free|), n)
    ensures Dist(After(i, |free|), jc, |free|) < Dist(i, jc, |free|)
  {
  }

  lemma PassedNew(fs: seq<Block>, hi: int, free: seq<Block>, j: nat, n: nat)
    requires var t := TopIndex(fs, hi);
      0 <= t < |free| && free[t].size >= n && j < |free| && (j == t || After(j, |free|) == t)
    ensures Passed(true, fs, hi, free, j, After(j, |free|), n)
  {
  }

  /** Once memory was added, only the block that holds it is large enough. */
  lemma TopOnly(fs: seq<Block>, base: int, lo: int, hi: int, n: int, i: nat, free: seq<Block>, heap: int,
                s0: map<int, int>, size: map<int, int>)
    requires Ring(fs, base, lo, hi) && n > 0 && !(lo <= base <= hi + n)
    requires Grown(fs, hi, n, free, heap, s0, size) && i < |free|
    ensures heap == hi + n && free == Freed(fs, Block(hi, n))
    ensures 0 <= TopIndex(fs, hi) < |free| && free[TopIndex(fs, hi)].size >= n
    ensures free[i].size >= n <==> i == TopIndex(fs, hi)
  {
    hide Freed, TopIndex, Ring, KeptSizes;
    TopRestored(fs, base, lo, hi, n);
  }

  lemma StateParts(free: seq<Block>, used: seq<Block>, ptr: map<int, int>, size: map<int, int>, freep: int,
                   base: int, lo: int, hi: int)
    requires State(free, used, ptr, size, freep, base, lo, hi)
    ensures Arena(free, used, base, lo, hi)
    ensures Cycle(free, ptr) && Sizes(free, size) && Sizes(used, size)
    ensures exists j :: 0 <= j < |free| && free[j].at == freep
  {
  }

  lemma StateFrom(free: seq<Block>, used: seq<Block>, ptr: map<int, int>, size: map<int, int>, freep: int,
                  base: int, lo: int, hi: int)
    requires Arena(free, used, base, lo, hi)
    requires Cycle(free, ptr) && Sizes(free, size) && Sizes(used, size)
    requires exists j :: 0 <= j < |free| && free[j].at == freep
    ensures State(free, used, ptr, size, freep, base, lo, hi)
  {
  }

  lemma ServedFit(fs: seq<Block>, us: seq<Block>, hi: int, end: int, n: nat, j: nat, i: nat)
    requires i < |fs| && j < |fs| && fs[i].size >= n && Seen(fs, j, i, n)
    ensures Served(fs, us, hi, end, n, j, i, Carved(fs, i, n), us + [Cut(fs[i], n)], hi, Cut(fs[i], n).at + 1)
  {
  }

  lemma ServedNew(fs: seq<Block>, us: seq<Block>, hi: int, end: int, n: nat, j: nat, i: nat)
    requires (forall m :: 0 <= m < |fs| ==> fs[m].size < n) && hi < end
    ensures Served(fs, us, hi, end, n, j, i, fs, us + [Block(hi, n)], hi + n, hi + 1)
  {
  }

  lemma ServedNone(fs: seq<Block>, us: seq<Block>, hi: int, end: int, n: nat, j: nat, i: nat)
    requires (forall m :: 0 <= m < |fs| ==> fs[m].size < n) && hi >= end
    ensures Served(fs, us, hi, end, n, j, i, fs, us, hi, NULL)
  {
  }

  lemma ArenaRing(fs: seq<Block>, us: seq<Block>, base: int, lo: int, hi: int)
    requires Arena(fs, us, base, lo, hi)
    ensures Ring(fs, base, lo, hi)
  {
  }

  lemma SameHeader(fs: seq<Block>, i: nat, j: nat, base: int, lo: int, hi: int)
    requires Ring(fs, base, lo, hi) && i < |fs| && j < |fs| && fs[i].at == fs[j].at
    ensures i == j
  {
    if i < j { Ends(fs, i, j); } else if j < i { Ends(fs, j, i); }
  }

  lemma NotNull(fs: seq<Block>, i: nat, base: int, lo: int, hi: int)
    requires Ring(fs, base, lo, hi) && i < |fs| && lo > 0 && base != NULL
    ensures fs[i].at != NULL
  {
    PieceOf(fs, i, base, lo, hi);
  }

  /** Handing out a piece of a free block leaves the headers of the blocks in use alone. */
  lemma CarvedUsed(fs: seq<Block>, us: seq<Block>, i: nat, n: int, base: int, lo: int, hi: int,
                   s0: map<int, int>, s1: map<int, int>)
    requires Arena(fs, us, base, lo, hi) && i < |fs| && 0 < n <= fs[i].size && Sizes(us, s0)
    requires KeptSizes(fs, Cut(fs[i], n), s0, s1) && Cut(fs[i], n).at in s1 && s1[Cut(fs[i], n).at] == n
    ensures Sizes(us + [Cut(fs[i], n)], s1)
  {
    hide Arena;
    forall j | 0 <= j < |us| ensures us[j].at in s1 && s1[us[j].at] == us[j].size {
      UsedApart(fs, us, j, base, lo, hi);
      assert Apart(fs[i], us[j]) && NotIn(fs, us[j].at);
    }
  }

  lemma GrownUsed(fs: seq<Block>, us: seq<Block>, base: int, lo: int, hi: int, n: int,
                  s0: map<int, int>, s1: map<int, int>, s2: map<int, int>)
    requires Arena(fs, us, base, lo, hi) && n > 0 && !(lo <= base <= hi + n) && Sizes(us, s0)
    requires KeptSizes(fs, Block(hi, n), s0, s1)
    requires KeptSizes(Freed(fs, Block(hi, n)), Block(hi, n), s1, s2) && hi in s2 && s2[hi] == n
    ensures Sizes(us + [Block(hi, n)], s2)
  {
    hide Arena, Freed;
    forall j | 0 <= j < |us| ensures us[j].at in s2 && s2[us[j].at] == us[j].size {
      UsedApart(fs, us, j, base, lo, hi);
      assert NotIn(fs, us[j].at);
      TopAts(fs, base, lo, hi, n) by { ArenaRing(fs, us, base, lo, hi); }
      assert NotIn(Freed(fs, Block(hi, n)), us[j].at);
    }
  }

  lemma TopAts(fs: seq<Block>, base: int, lo: int, hi: int, n: int)
    requires Ring(fs, base, lo, hi) && n > 0 && !(lo <= base <= hi + n)
    ensures var gs := Freed(fs, Block(hi, n));
      forall i :: 0 <= i < |gs| ==> gs[i].at == hi || exists m :: 0 <= m < |fs| && gs[i].at == fs[m].at
  {
    var gs, k := Freed(fs, Block(hi, n)), Place(fs, hi);
    TopFreed(fs, base, lo, hi, n);
    hide Freed, Ring, Inserted;
    forall i | 0 <= i < |gs| ensures gs[i].at == hi || exists m :: 0 <= m < |fs| && gs[i].at == fs[m].at {
      if TopIndex(fs, hi) < k {
        assert gs[i].at == fs[i].at;
      } else {
        InsertedAt(fs, k, Block(hi, n), i);
        if i != k { assert gs[i].at == fs[Before(i, k)].at; }
      }
    }
  }

  lemma FreedUsed(fs: seq<Block>, us: seq<Block>, j: nat, base: int, lo: int, hi: int,
                  s0: map<int, int>, s1: map<int, int>)
    requires Arena(fs, us, base, lo, hi) && j < |us| && Sizes(us, s0) && KeptSizes(fs, us[j], s0, s1)
    ensures Sizes(Without(us, j), s1)
  {
    hide Without;
    WithoutLength(us, j);
    var r := Without(us, j);
    forall m | 0 <= m < |r| ensures r[m].at in s1 && s1[r[m].at] == r[m].size {
      WithoutAt(us, j, m);
      var o := if m < j then m else m + 1;
      UsedApart(fs, us, o, base, lo, hi);
      assert NotIn(fs, us[o].at);
      assert if o < j then Apart(us[o], us[j]) else Apart(us[j], us[o]);
    }
  }

  /** The block the search stopped at is still in the ring, perhaps longer. */
  lemma PriorFreed(fs: seq<Block>, b: Block, base: int, lo: int, hi: int)
    requires Ring(fs, base, lo, hi) && Piece(b, base, lo, hi) && b.size > 0
    requires forall i :: 0 <= i < |fs| ==> Apart(fs[i], b) && fs[i].at != b.at
    ensures fs != []
    ensures exists i :: 0 <= i < |Freed(fs, b)| && Freed(fs, b)[i].at == fs[Prior(Place(fs, b.at), |fs|)].at
  {
    hide Pieces, Gapped, Inserted, Merged, Splits, Place, Ascending;
    BaseIn(fs, base, lo, hi);
    var k, n := Place(fs, b.at), |fs|;
    FreedRing(fs, b, base, lo, hi);
    var ins := Inserted(fs, k, b);
    InsertedLength(fs, k, b);
    var up := JoinUp(ins, k);
    if k == 0 {
      InsertedAt(fs, k, b, 0);
      InsertedAt(fs, k, b, 1);
      InsertedAt(fs, k, b, n);
      if Touch(ins, 0) {
        Lonely(fs, k, b, base, lo, hi);
        MergedAt(ins, 0, n - 1);
        assert up[n - 1].at == fs[n - 1].at;
      } else {
        assert up[n].at == fs[n - 1].at;
      }
    } else {
      InsertedAt(fs, k, b, k - 1);
      if Touch(ins, k) { MergedAt(ins, k, k - 1); }
      assert up[k - 1].at == fs[k - 1].at;
      if Touch(up, k - 1) { MergedAt(up, k - 1, k - 1); }
      assert JoinUp(up, k - 1)[k - 1].at == fs[k - 1].at;
    }
  }

  /** The block before the one handed out stays in the ring. */
  lemma PriorStays(fs: seq<Block>, i: nat, n: int)
    requires i < |fs| && |fs| > 1 && 0 < n <= fs[i].size
    ensures exists j :: 0 <= j < |Carved(fs, i, n)| && Carved(fs, i, n)[j].at == fs[Prior(i, |fs|)].at
  {
    var h, gs := Prior(i, |fs|), Carved(fs, i, n);
    var j := if fs[i].size == n && h > i then h - 1 else h;
    CarvedAt(fs, i, n, j);
    assert gs[j].at == fs[h].at;
  }

  lemma SizesKept(fs: seq<Block>, size: map<int, int>, a: int, n: int)
    requires Sizes(fs, size) && forall i :: 0 <= i < |fs| ==> fs[i].at != a
    ensures Sizes(fs, size[a := n])
  {
  }
}
