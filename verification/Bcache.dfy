/** The buffer cache: a fixed pool of buffers on one circular list, most recently released
    first. */
module Bcache {
  import BcacheRun
  import opened BcacheSpec
  import opened Seqs

  class BufferCache {
    const bufs: array<Buf>
    const next: array<int>
    const prev: array<int>
    var disk: Disk
    ghost var c: Cache

    ghost predicate Valid()
      reads this, bufs, next, prev
    {
      && bufs.Length == NBUF && next.Length == prev.Length == NBUF + 1 && next != prev
      && c.bufs == bufs[..] && c.disk == disk
      && Ring(next[..], prev[..], c.xs) && Inv(c)
    }

    constructor (disk: Disk)
      ensures Valid() && fresh(bufs) && fresh(next) && fresh(prev)
      ensures BcacheRun.Start(c) && c.disk == disk && c.used == {}
      ensures forall b :: 0 <= b < NBUF ==> !c.bufs[b].valid && c.bufs[b].refcnt == 0
    {
      bufs := new Buf[NBUF](i => Buf(false, 0, 0, 0, []));
      next := new int[NBUF + 1](i => HEAD);
      prev := new int[NBUF + 1](i => HEAD);
      this.disk := disk;
      c := Cache([], [], {}, {}, [], 0, disk);
      new;
      var b := 0;
      ghost var xs := [];
      assert Link(next[..], prev[..], xs, 0);
      while b < NBUF
        invariant 0 <= b <= NBUF && Ring(next[..], prev[..], xs) && |xs| == b
        invariant forall i :: 0 <= i < b ==> xs[i] == b - 1 - i
        modifies next, prev
      {
        InsertRing(Links(next[..], prev[..]), xs, b);
        ghost var l := Links(next[..], prev[..]);
        next[b] := next[HEAD];
        prev[b] := HEAD;
        prev[next[HEAD]] := b;
        next[HEAD] := b;
        assert Links(next[..], prev[..]) == Inserted(l, b);
        xs := [b] + xs;
        b := b + 1;
      }
      c := Cache(bufs[..], xs, {}, {}, seq(NBUF, i => i - NBUF), 0, disk);
      forall x | 0 <= x < NBUF ensures x in xs { assert xs[NBUF - 1 - x] == x; }
    }

    /** Looks for block `(dev, blocknum)` from the front of the list. */
    method FindBlock(dev: int, blocknum: int) returns (b: int)
      requires Valid()
      ensures b == HEAD ==> forall a :: 0 <= a < NBUF ==> Id(c.bufs[a]) != (dev, blocknum)
      ensures b != HEAD ==> 0 <= b < NBUF && Hit(c, (dev, blocknum), b)
    {
      hide Inv, Ring;
      ListShape(next[..], prev[..], c);
      LinkAt(next[..], prev[..], c.xs, 0);
      b := next[HEAD];
      ghost var i := 0;
      while b != HEAD
        invariant 0 <= i <= NBUF && b == At(c.xs, i + 1)
        invariant forall k :: 0 <= k < i ==> !Matches(c, c.xs[k], (dev, blocknum))
        decreases NBUF - i
      {
        if bufs[b].dev == dev && bufs[b].blocknum == blocknum {
          assert c.xs[i] == b && Matches(c, b, (dev, blocknum));
          return;
        }
        LinkAt(next[..], prev[..], c.xs, i + 1);
        b := next[b];
        i := i + 1;
      }
      NoMatch(c, (dev, blocknum));
    }

    /** Looks for an unreferenced buffer from the back of the list. */
    method FindFree() returns (b: int)
      requires Valid()
      ensures b == HEAD ==> forall a :: 0 <= a < NBUF ==> c.bufs[a].refcnt != 0
      ensures b != HEAD ==> 0 <= b < NBUF && Oldest(c, b)
    {
      hide Inv, Ring;
      ListShape(next[..], prev[..], c);
      LinkAt(next[..], prev[..], c.xs, NBUF);
      b := prev[HEAD];
      ghost var i := NBUF;
      while b != HEAD
        invariant 0 <= i <= NBUF && b == At(c.xs, i)
        invariant forall k :: i <= k < NBUF ==> c.bufs[c.xs[k]].refcnt != 0
        decreases i
      {
        if bufs[b].refcnt == 0 {
          LastFree(c, i - 1);
          return;
        }
        LinkAt(next[..], prev[..], c.xs, i - 1);
        b := prev[b];
        i := i - 1;
      }
      AllHeld(c);
    }

    /** A buffer for block `(dev, blocknum)`: the one that has it, else the unreferenced one that
        was released longest ago. */
    method Bget(dev: int, blocknum: int) returns (b: int)
      requires Valid()
      requires exists a :: 0 <= a < NBUF && (Id(c.bufs[a]) == (dev, blocknum) || c.bufs[a].refcnt == 0)
      modifies this`c, bufs
      ensures Valid() && 0 <= b < NBUF && Id(c.bufs[b]) == (dev, blocknum) && b in c.used && c.bufs[b].refcnt > 0
      ensures (exists a :: 0 <= a < NBUF && Id(old(c).bufs[a]) == (dev, blocknum)) ==>
        Hit(old(c), (dev, blocknum), b) && c == Held(old(c), b)
      ensures !(exists a :: 0 <= a < NBUF && Id(old(c).bufs[a]) == (dev, blocknum)) ==>
        Oldest(old(c), b) && c == Recycled(old(c), b, (dev, blocknum))
    {
      hide Inv, Ring;
      b := FindBlock(dev, blocknum);
      if b != HEAD {
        HeldInv(c, (dev, blocknum), b);
        RefPositive(c, b);
        bufs[b] := bufs[b].(refcnt := bufs[b].refcnt + 1);
        c := Held(c, b);
        return;
      }
      b := FindFree();
      if b != HEAD {
        RecycledInv(c, b, (dev, blocknum));
        bufs[b] := Buf(false, dev, blocknum, 1, bufs[b].data);
        c := Recycled(c, b, (dev, blocknum));
        return;
      }
      assert false;
    }

    /** A buffer with block `id`'s contents: what the disk holds, unless a holder changed them. */
    method Bread(dev: int, blocknum: int) returns (b: int)
      requires Valid() && (dev, blocknum) in disk
      requires exists a :: 0 <= a < NBUF && (Id(c.bufs[a]) == (dev, blocknum) || c.bufs[a].refcnt == 0)
      modifies this`c, bufs
      ensures Valid() && 0 <= b < NBUF && disk == old(disk)
      ensures Id(c.bufs[b]) == (dev, blocknum) && c.bufs[b].valid && b in c.used
      ensures c.bufs[b].refcnt == 1 + if Id(old(c).bufs[b]) == (dev, blocknum) then old(c).bufs[b].refcnt else 0
      ensures c.bufs[b].refcnt > 0 && c.xs == old(c).xs && c.when == old(c).when && c.now == old(c).now
      ensures b !in c.dirty ==> c.bufs[b].data == disk[(dev, blocknum)]
      ensures c.dirty == old(c).dirty
      ensures forall a :: 0 <= a < NBUF && a != b ==> c.bufs[a] == old(c).bufs[a]
      ensures old(c).bufs[b].refcnt > 0 ==> Id(old(c).bufs[b]) == (dev, blocknum)
      // another block's buffer is taken only when no buffer has the block, and then the oldest
      ensures Id(old(c).bufs[b]) != (dev, blocknum) ==>
                Oldest(old(c), b) && forall a :: 0 <= a < NBUF ==> Id(old(c).bufs[a]) != (dev, blocknum)
    {
      hide Inv, Ring;
      b := Bget(dev, blocknum);
      BufAt(old(c), b);
      if !bufs[b].valid {
        FilledInv(c, b);
        bufs[b] := bufs[b].(data := disk[(bufs[b].dev, bufs[b].blocknum)]);
        bufs[b] := bufs[b].(valid := true);
        c := Filled(c, b);
      }
      BufAt(c, b);
    }

    /** A holder changes the buffer's bytes. */
    method Modify(b: int, d: Data)
      requires Valid() && 0 <= b < NBUF && c.bufs[b].refcnt > 0
      modifies this`c, bufs
      ensures Valid() && c == Changed(old(c), b, d)
      ensures c.bufs == old(c).bufs[b := old(c).bufs[b].(data := d)] && disk == old(disk) && c.xs == old(c).xs
    {
      hide Inv;
      ChangedInv(c, b, d);
      bufs[b] := bufs[b].(data := d);
      c := Changed(c, b, d);
    }

    method Bwrite(b: int)
      requires Valid() && 0 <= b < NBUF && c.bufs[b].refcnt > 0
      modifies this`c, this`disk
      ensures Valid() && c == WrittenBack(old(c), b)
      ensures disk == old(disk)[Id(c.bufs[b]) := c.bufs[b].data]
      ensures c.dirty == old(c).dirty - {b} && c.bufs == old(c).bufs
    {
      hide Inv;
      WrittenInv(c, b);
      disk := disk[(bufs[b].dev, bufs[b].blocknum) := bufs[b].data];
      c := WrittenBack(c, b);
    }

    /** Gives up a buffer; nobody may leave changes unwritten in it when the last holder goes. */
    method Brelease(b: int, ghost k: int)
      requires Valid() && 0 <= b < NBUF && c.bufs[b].refcnt > 0
      requires 0 <= k < NBUF && c.xs[k] == b
      requires c.bufs[b].refcnt == 1 ==> b !in c.dirty
      modifies this`c, bufs, next, prev
      ensures Valid() && c == Released(old(c), b, k)
      ensures c.bufs == old(c).bufs[b := old(c).bufs[b].(refcnt := old(c).bufs[b].refcnt - 1)]
      ensures c.disk == old(c).disk && c.used == old(c).used && c.dirty == old(c).dirty
      // the last holder makes it the first on the list and the one released last
      ensures old(c).bufs[b].refcnt > 1 ==> c.xs == old(c).xs && c.when == old(c).when
      ensures old(c).bufs[b].refcnt == 1 ==>
                && c.xs == [b] + old(c).xs[..k] + old(c).xs[k + 1..]
                && forall a :: 0 <= a < NBUF && a != b ==> c.when[a] == old(c).when[a] && c.when[a] < c.when[b]
    {
      hide Inv, Ring, Moved;
      ReleasedInv(c, b, k);
      FrontNow(c, b, k);
      ListShape(next[..], prev[..], c);
      bufs[b] := bufs[b].(refcnt := bufs[b].refcnt - 1);
      if bufs[b].refcnt == 0 {
        ghost var l := Links(next[..], prev[..]);
        MoveRing(l, c.xs, k);
        prev[next[b]] := prev[b];
        next[prev[b]] := next[b];
        next[b] := next[HEAD];
        prev[b] := HEAD;
        prev[next[HEAD]] := b;
        next[HEAD] := b;
        assert Links(next[..], prev[..]) == Inserted(Unlinked(l, b), b);
      }
      c := Released(c, b, k);
    }

    method Bpin(b: int)
      requires Valid() && 0 <= b < NBUF && b in c.used
      modifies this`c, bufs
      ensures Valid() && c == Pinned(old(c), b, 1)
      ensures c.bufs == old(c).bufs[b := old(c).bufs[b].(refcnt := old(c).bufs[b].refcnt + 1)] && c.xs == old(c).xs
    {
      hide Inv;
      RefPositive(c, b);
      PinnedInv(c, b, 1);
      bufs[b] := bufs[b].(refcnt := bufs[b].refcnt + 1);
      c := Pinned(c, b, 1);
    }

    method Bunpin(b: int)
      requires Valid() && 0 <= b < NBUF && b in c.used && c.bufs[b].refcnt > 0
      requires c.bufs[b].refcnt == 1 ==> b !in c.dirty
      modifies this`c, bufs
      ensures Valid() && c == Pinned(old(c), b, -1)
      ensures c.bufs == old(c).bufs[b := old(c).bufs[b].(refcnt := old(c).bufs[b].refcnt - 1)] && c.xs == old(c).xs
    {
      hide Inv;
      PinnedInv(c, b, -1);
      bufs[b] := bufs[b].(refcnt := bufs[b].refcnt - 1);
      c := Pinned(c, b, -1);
    }
  }

  /** Two readers of one block have one buffer, and when both have released it, it has as many
      references as before them. */
  method TwoReaders(cache: BufferCache, dev: int, blocknum: int) returns (b: int, a: int)
    requires cache.Valid() && (dev, blocknum) in cache.disk
    requires exists i :: 0 <= i < NBUF && (Id(cache.c.bufs[i]) == (dev, blocknum) || cache.c.bufs[i].refcnt == 0)
    modifies cache, cache.bufs, cache.next, cache.prev
    ensures cache.Valid() && a == b && 0 <= b < NBUF && cache.disk == old(cache.disk)
    ensures cache.c.bufs[b].refcnt ==
              if Id(old(cache.c).bufs[b]) == (dev, blocknum) then old(cache.c).bufs[b].refcnt else 0
  {
    hide Inv, Ring, Moved;
    b := cache.Bread(dev, blocknum);
    assert Id(cache.c.bufs[b]) == (dev, blocknum);
    a := cache.Bread(dev, blocknum);
    if a != b { OneHolder(cache.c, a, b); }
    ghost var k := Position(cache.c, b);
    BufAt(old(cache.c), b);
    cache.Brelease(b, k);
    k := Position(cache.c, b);
    cache.Brelease(a, k);
  }

  /** A block read and released stays in the cache when another one is read, as long as two buffers
      were free: the miss takes the one that was released before. */
  method TwoBlocks(cache: BufferCache, dev: int, n1: int, n2: int, ghost i: int, ghost j: int)
    returns (b1: int, b2: int)
    requires cache.Valid() && n1 != n2 && (dev, n1) in cache.disk && (dev, n2) in cache.disk
    requires 0 <= i < j < NBUF && cache.c.bufs[i].refcnt == 0 && cache.c.bufs[j].refcnt == 0
    modifies cache, cache.bufs, cache.next, cache.prev
    ensures cache.Valid() && 0 <= b1 < NBUF && 0 <= b2 < NBUF && b1 != b2 && cache.disk == old(cache.disk)
    ensures Id(cache.c.bufs[b1]) == (dev, n1) && cache.c.bufs[b1].valid
    ensures Id(cache.c.bufs[b2]) == (dev, n2) && cache.c.bufs[b2].valid
  {
    hide Inv, Ring, Moved;
    b1 := cache.Bread(dev, n1);
    BufAt(old(cache.c), b1);
    ghost var k := Position(cache.c, b1);
    cache.Brelease(b1, k);
    ghost var c, free := cache.c, if i != b1 then i else j;
    assert c.bufs[free].refcnt == 0;
    b2 := cache.Bread(dev, n2);
    BufAt(c, b2);
    k := Position(cache.c, b2);
    cache.Brelease(b2, k);
  }

  lemma Position(c: Cache, b: int) returns (k: int)
    requires Inv(c) && 0 <= b < NBUF
    ensures 0 <= k < NBUF && |c.xs| == NBUF && c.xs[k] == b
  {
    assert b in c.xs;
    k :| 0 <= k < |c.xs| && c.xs[k] == b;
  }

  lemma FrontNow(c: Cache, b: int, k: int)
    requires Inv(c) && 0 <= b < NBUF && 0 <= k < NBUF && c.xs[k] == b
    ensures |c.xs| == |c.when| == NBUF && Moved(c.xs, k) == [b] + c.xs[..k] + c.xs[k + 1..]
    ensures forall a :: 0 <= a < NBUF ==> c.when[a] < c.now + 1
  {
  }

  lemma LinkAt(next: seq<int>, prev: seq<int>, xs: seq<int>, i: int)
    requires Ring(next, prev, xs) && 0 <= i <= |xs|
    ensures Link(next, prev, xs, i)
  {
  }

  lemma ListShape(next: seq<int>, prev: seq<int>, c: Cache)
    requires Ring(next, prev, c.xs) && Inv(c)
    ensures |c.xs| == NBUF == |c.bufs| == |c.when| && forall i :: 0 <= i < NBUF ==> 0 <= c.xs[i] < NBUF
  {
  }

  lemma BufAt(c: Cache, b: int)
    requires Inv(c) && 0 <= b < NBUF
    ensures |c.bufs| == NBUF && BufOk(c, b)
  {
  }

  lemma RefPositive(c: Cache, b: int)
    requires Inv(c) && 0 <= b < NBUF
    ensures |c.bufs| == NBUF && c.bufs[b].refcnt >= 0
  {
    assert BufOk(c, b);
  }

  lemma NoMatch(c: Cache, id: (int, int))
    requires Inv(c) && forall k :: 0 <= k < NBUF ==> !Matches(c, c.xs[k], id)
    ensures forall a :: 0 <= a < NBUF ==> Id(c.bufs[a]) != id
  {
    forall a | 0 <= a < NBUF ensures Id(c.bufs[a]) != id {
      assert a in c.xs;
      var k :| 0 <= k < |c.xs| && c.xs[k] == a;
      assert !Matches(c, c.xs[k], id);
    }
  }

  lemma LastFree(c: Cache, i: int)
    requires Inv(c) && 0 <= i < NBUF && c.bufs[c.xs[i]].refcnt == 0
    requires forall k :: i < k < NBUF ==> c.bufs[c.xs[k]].refcnt != 0
    ensures Oldest(c, c.xs[i])
  {
    forall a | 0 <= a < NBUF && c.bufs[a].refcnt == 0 ensures c.when[c.xs[i]] <= c.when[a] {
      assert a in c.xs;
      var k :| 0 <= k < |c.xs| && c.xs[k] == a;
    }
  }

  lemma AllHeld(c: Cache)
    requires Inv(c) && forall k :: 0 <= k < NBUF ==> c.bufs[c.xs[k]].refcnt != 0
    ensures forall a :: 0 <= a < NBUF ==> c.bufs[a].refcnt != 0
  {
    forall a | 0 <= a < NBUF ensures c.bufs[a].refcnt != 0 {
      assert a in c.xs;
      var k :| 0 <= k < |c.xs| && c.xs[k] == a;
    }
  }

  /** Unlinking a buffer and inserting it at the front moves it there. */
  lemma MoveRing(l: Links, xs: seq<int>, k: nat)
    requires Ring(l.next, l.prev, xs) && k < |xs|
    ensures 0 <= xs[k] < NBUF && 0 <= l.next[xs[k]] <= NBUF && 0 <= l.prev[xs[k]] <= NBUF
    ensures 0 <= Unlinked(l, xs[k]).next[HEAD] <= NBUF
    ensures var m := Inserted(Unlinked(l, xs[k]), xs[k]); Ring(m.next, m.prev, Moved(xs, k))
  {
    UnlinkRing(l, xs, k);
    WithoutDistinct(xs, k);
    InsertRing(Unlinked(l, xs[k]), Without(xs, k), xs[k]);
  }
}
