/** The buffer cache's list and what the buffers hold, on values. */
module BcacheSpec {
  import opened Seqs

  const NBUF: int := 30
  const HEAD: int := 30  // the list head's place in the links

  // ----- a circular doubly linked list through HEAD

  function At(xs: seq<int>, i: int): int {
    if 0 < i <= |xs| then xs[i - 1] else HEAD
  }

  ghost predicate Link(next: seq<int>, prev: seq<int>, xs: seq<int>, i: int) {
    && 0 <= At(xs, i) < |next| && 0 <= At(xs, i + 1) < |prev|
    && next[At(xs, i)] == At(xs, i + 1) && prev[At(xs, i + 1)] == At(xs, i)
  }

  /** From HEAD the links lead through `xs` and back, in both directions. */
  ghost predicate Ring(next: seq<int>, prev: seq<int>, xs: seq<int>) {
    && |next| == |prev| == NBUF + 1
    && Distinct(xs) && (forall i :: 0 <= i < |xs| ==> 0 <= xs[i] < NBUF)
    && forall i :: 0 <= i <= |xs| ==> Link(next, prev, xs, i)
  }

  datatype Links = Links(next: seq<int>, prev: seq<int>)

  function Inserted(l: Links, b: int): Links
    requires |l.next| == |l.prev| == NBUF + 1 && 0 <= b < NBUF && 0 <= l.next[HEAD] <= NBUF
  {
    var f := l.next[HEAD];
    Links(l.next[b := f][HEAD := b], l.prev[b := HEAD][f := b])
  }

  function Unlinked(l: Links, b: int): Links
    requires |l.next| == |l.prev| == NBUF + 1 && 0 <= b < NBUF && 0 <= l.next[b] <= NBUF && 0 <= l.prev[b] <= NBUF
  {
    Links(l.next[l.prev[b] := l.next[b]], l.prev[l.next[b] := l.prev[b]])
  }

  lemma AtDiffers(xs: seq<int>, i: int, j: int)
    requires Distinct(xs) && (forall k :: 0 <= k < |xs| ==> 0 <= xs[k] < NBUF)
    requires 0 <= i <= |xs| && 0 <= j <= |xs| && i != j
    ensures At(xs, i) != At(xs, j)
  {
  }

  lemma InsertRing(l: Links, xs: seq<int>, b: int)
    requires Ring(l.next, l.prev, xs) && 0 <= b < NBUF && b !in xs
    ensures 0 <= l.next[HEAD] <= NBUF
    ensures Ring(Inserted(l, b).next, Inserted(l, b).prev, [b] + xs)
  {
    assert Link(l.next, l.prev, xs, 0);
    var ys, m := [b] + xs, Inserted(l, b);
    hide Distinct;
    forall i | 0 <= i <= |ys| ensures Link(m.next, m.prev, ys, i) {
      if i >= 2 {
        assert At(ys, i) == At(xs, i - 1) && At(ys, i + 1) == At(xs, i);
        assert Link(l.next, l.prev, xs, i - 1);
        AtDiffers(xs, i - 1, 0);
        if i <= |xs| { AtDiffers(xs, i, 1); }
      } else {
        assert At(ys, 0) == HEAD && At(ys, 1) == b && At(ys, 2) == At(xs, 1);
      }
    }
  }

  lemma UnlinkRing(l: Links, xs: seq<int>, k: nat)
    requires Ring(l.next, l.prev, xs) && k < |xs|
    ensures 0 <= l.next[xs[k]] <= NBUF && 0 <= l.prev[xs[k]] <= NBUF
    ensures Ring(Unlinked(l, xs[k]).next, Unlinked(l, xs[k]).prev, Without(xs, k))
  {
    var ys := Without(xs, k);
    assert Link(l.next, l.prev, xs, k) && Link(l.next, l.prev, xs, k + 1);
    WithoutDistinct(xs, k);
    var m := Unlinked(l, xs[k]);
    hide Distinct;
    forall i | 0 <= i <= |ys| ensures Link(m.next, m.prev, ys, i) {
      var a, c := if i <= k then i else i + 1, if i < k then i + 1 else i + 2;
      assert At(ys, i) == At(xs, a) && At(ys, i + 1) == At(xs, c);
      assert Link(l.next, l.prev, xs, a) && Link(l.next, l.prev, xs, c - 1);
      if a != k { AtDiffers(xs, a, k); }
      if c != k + 2 && c <= |xs| && k + 2 <= |xs| { AtDiffers(xs, c, k + 2); }
    }
  }

  // ----- what the buffers hold

  type Data = seq<int>

  datatype Buf = Buf(valid: bool, dev: int, blocknum: int, refcnt: int, data: Data)

  type Disk = map<(int, int), Data>

  function Id(b: Buf): (int, int) {
    (b.dev, b.blocknum)
  }

  /** `used` has the buffers handed out at least once; `dirty` those changed and not written;
      `when` the time each was last released, negative if never. */
  datatype Cache = Cache(bufs: seq<Buf>, xs: seq<int>, used: set<int>, dirty: set<int>, when: seq<int>, now: int, disk: Disk)

  ghost predicate Permutation(xs: seq<int>) {
    |xs| == NBUF && Distinct(xs) && (forall i :: 0 <= i < |xs| ==> 0 <= xs[i] < NBUF)
    && forall b :: 0 <= b < NBUF ==> b in xs
  }

  /** The list runs from the buffer released last to the one released first. */
  ghost predicate Ordered(xs: seq<int>, when: seq<int>, now: int)
    requires Permutation(xs)
  {
    |when| == NBUF && 0 <= now
    && (forall i, j :: 0 <= i < j < |xs| ==> when[xs[i]] > when[xs[j]])
    && (forall b :: 0 <= b < NBUF ==> when[b] <= now)
  }

  ghost predicate BufOk(c: Cache, b: int)
    requires 0 <= b < |c.bufs|
  {
    && c.bufs[b].refcnt >= 0
    && (b !in c.used ==> c.bufs[b].refcnt == 0 && !c.bufs[b].valid && Id(c.bufs[b]) == (0, 0))
    && (b in c.dirty ==> c.bufs[b].refcnt > 0 && b in c.used)
    && (c.bufs[b].valid ==> Id(c.bufs[b]) in c.disk)
    && (c.bufs[b].valid && b !in c.dirty ==> c.bufs[b].data == c.disk[Id(c.bufs[b])])
  }

  ghost predicate Inv(c: Cache) {
    && |c.bufs| == NBUF && Permutation(c.xs) && Ordered(c.xs, c.when, c.now)
    && (forall b :: 0 <= b < NBUF ==> BufOk(c, b))
    && (forall a, b :: a in c.used && b in c.used && 0 <= a < b < NBUF ==> Id(c.bufs[a]) != Id(c.bufs[b]))
    && (forall i, j :: 0 <= i < j < NBUF && c.xs[i] !in c.used && c.xs[j] in c.used ==> Id(c.bufs[c.xs[j]]) != (0, 0))
  }

  /** No block is held by two buffers that are valid or referenced. */
  lemma OneHolder(c: Cache, a: int, b: int)
    requires Inv(c) && 0 <= a < NBUF && 0 <= b < NBUF && a != b
    requires (c.bufs[a].valid || c.bufs[a].refcnt > 0) && (c.bufs[b].valid || c.bufs[b].refcnt > 0)
    ensures Id(c.bufs[a]) != Id(c.bufs[b])
  {
    assert BufOk(c, a) && BufOk(c, b);
    if b < a { assert b in c.used && a in c.used; }
  }

  // ----- the operations

  predicate Matches(c: Cache, b: int, id: (int, int)) {
    0 <= b < |c.bufs| && Id(c.bufs[b]) == id
  }

  /** Looking for `id` from the front of the list finds buffer `b`. */
  ghost predicate Hit(c: Cache, id: (int, int), b: int) {
    exists k :: 0 <= k < |c.xs| && c.xs[k] == b && Matches(c, b, id) && forall i :: 0 <= i < k ==> !Matches(c, c.xs[i], id)
  }

  /** Looking for an unreferenced buffer from the back finds `b`. */
  ghost predicate Oldest(c: Cache, b: int) {
    && 0 <= b < NBUF && |c.bufs| == |c.when| == NBUF
    && c.bufs[b].refcnt == 0
    && forall a :: 0 <= a < NBUF && c.bufs[a].refcnt == 0 ==> c.when[b] <= c.when[a]
  }

  function Held(c: Cache, b: int): Cache
    requires 0 <= b < |c.bufs|
  {
    c.(bufs := c.bufs[b := c.bufs[b].(refcnt := c.bufs[b].refcnt + 1)], used := c.used + {b})
  }

  function Recycled(c: Cache, b: int, id: (int, int)): Cache
    requires 0 <= b < |c.bufs|
  {
    c.(bufs := c.bufs[b := Buf(false, id.0, id.1, 1, c.bufs[b].data)], used := c.used + {b})
  }

  lemma HeldInv(c: Cache, id: (int, int), b: int)
    requires Inv(c) && Hit(c, id, b)
    ensures 0 <= b < NBUF && Inv(Held(c, b))
  {
    var t := Held(c, b);
    var k :| 0 <= k < |c.xs| && c.xs[k] == b && Matches(c, b, id) && forall i :: 0 <= i < k ==> !Matches(c, c.xs[i], id);
    hide Ordered;
    assert BufOk(c, b);
    forall a | 0 <= a < NBUF ensures BufOk(t, a) { assert BufOk(c, a); }
    if b !in c.used {
      forall i | 0 <= i < k ensures c.xs[i] in c.used { assert BufOk(c, c.xs[i]); }
      forall a | a in c.used && 0 <= a < NBUF ensures Id(c.bufs[a]) != (0, 0) {
        UsedAhead(c, k, a);
      }
    }
  }

  /** A used buffer with the first buffers' identity would have been found before. */
  lemma UsedAhead(c: Cache, k: nat, a: int)
    requires Inv(c) && k < NBUF && c.xs[k] !in c.used && a in c.used && 0 <= a < NBUF
    requires forall i :: 0 <= i < k ==> Id(c.bufs[c.xs[i]]) != (0, 0)
    ensures Id(c.bufs[a]) != (0, 0)
  {
    assert a in c.xs;
    var j :| 0 <= j < |c.xs| && c.xs[j] == a;
  }

  lemma RecycledInv(c: Cache, b: int, id: (int, int))
    requires Inv(c) && Oldest(c, b) && forall a :: 0 <= a < NBUF ==> Id(c.bufs[a]) != id
    ensures Inv(Recycled(c, b, id))
  {
    var t := Recycled(c, b, id);
    hide Ordered;
    assert BufOk(c, b);
    forall a | 0 <= a < NBUF ensures BufOk(t, a) { assert BufOk(c, a); }
    assert b in c.xs;
    var k :| 0 <= k < |c.xs| && c.xs[k] == b;
    if id == (0, 0) {
      forall i | 0 <= i < NBUF ensures c.xs[i] in c.used {
        assert BufOk(c, c.xs[i]);
      }
    }
  }

  function Moved(xs: seq<int>, k: nat): seq<int>
    requires k < |xs|
  {
    [xs[k]] + (xs[..k] + xs[k + 1..])
  }

  lemma MovedPermutation(xs: seq<int>, k: nat)
    requires Permutation(xs) && k < |xs|
    ensures Permutation(Moved(xs, k))
  {
    var ys := Moved(xs, k);
    WithoutDistinct(xs, k);
    assert ys == [xs[k]] + Without(xs, k);
    forall i | 0 <= i < NBUF ensures 0 <= ys[i] < NBUF {}
    forall b | 0 <= b < NBUF ensures b in ys { assert b in xs; }
  }

  /** `b` is given up; when nobody holds it any more it becomes the one released last. */
  function Released(c: Cache, b: int, k: nat): Cache
    requires 0 <= b < |c.bufs| && b < |c.when| && k < |c.xs|
  {
    var d := c.(bufs := c.bufs[b := c.bufs[b].(refcnt := c.bufs[b].refcnt - 1)]);
    if c.bufs[b].refcnt == 1 then d.(xs := Moved(c.xs, k), when := c.when[b := c.now + 1], now := c.now + 1) else d
  }

  lemma MovedOrdered(xs: seq<int>, k: nat, when: seq<int>, now: int)
    requires Permutation(xs) && Ordered(xs, when, now) && k < |xs| && Permutation(Moved(xs, k))
    ensures Ordered(Moved(xs, k), when[xs[k] := now + 1], now + 1)
  {
    var ys, w := Moved(xs, k), when[xs[k] := now + 1];
    forall i, j | 0 <= i < j < |ys| ensures w[ys[i]] > w[ys[j]] {
      var b := if j <= k then j - 1 else j;
      assert xs[b] != xs[k];
    }
  }

  lemma ReleasedInv(c: Cache, b: int, k: nat)
    requires Inv(c) && 0 <= b < NBUF && k < NBUF && c.xs[k] == b && c.bufs[b].refcnt > 0
    requires c.bufs[b].refcnt == 1 ==> b !in c.dirty
    ensures Inv(Released(c, b, k))
  {
    var t := Released(c, b, k);
    assert BufOk(c, b);
    forall a | 0 <= a < NBUF ensures BufOk(t, a) { assert BufOk(c, a); }
    if c.bufs[b].refcnt == 1 {
      MovedPermutation(c.xs, k);
      MovedOrdered(c.xs, k, c.when, c.now);
      hide Ordered, Permutation, Moved;
      forall i, j | 0 <= i < j < NBUF && t.xs[i] !in t.used && t.xs[j] in t.used ensures Id(t.bufs[t.xs[j]]) != (0, 0) {}
    }
  }

  // ----- filling, changing and writing a buffer

  function Filled(c: Cache, b: int): Cache
    requires 0 <= b < |c.bufs| && Id(c.bufs[b]) in c.disk
  {
    c.(bufs := c.bufs[b := c.bufs[b].(valid := true, data := c.disk[Id(c.bufs[b])])])
  }

  lemma FilledInv(c: Cache, b: int)
    requires Inv(c) && 0 <= b < NBUF && b in c.used && Id(c.bufs[b]) in c.disk
    ensures Inv(Filled(c, b))
  {
    hide Ordered, Permutation;
    var t := Filled(c, b);
    forall a | 0 <= a < NBUF ensures BufOk(t, a) { assert BufOk(c, a); }
    assert c.xs == t.xs && forall i :: 0 <= i < NBUF ==> 0 <= c.xs[i] < NBUF by { InRange(c); }
  }

  lemma InRange(c: Cache)
    requires Inv(c)
    ensures |c.xs| == NBUF && forall i :: 0 <= i < NBUF ==> 0 <= c.xs[i] < NBUF
  {
  }

  function Changed(c: Cache, b: int, d: Data): Cache
    requires 0 <= b < |c.bufs|
  {
    c.(bufs := c.bufs[b := c.bufs[b].(data := d)], dirty := c.dirty + {b})
  }

  lemma ChangedInv(c: Cache, b: int, d: Data)
    requires Inv(c) && 0 <= b < NBUF && c.bufs[b].refcnt > 0
    ensures Inv(Changed(c, b, d))
  {
    hide Ordered, Permutation;
    InRange(c);
    var t := Changed(c, b, d);
    assert BufOk(c, b);
    forall a | 0 <= a < NBUF ensures BufOk(t, a) { assert BufOk(c, a); }
  }

  function WrittenBack(c: Cache, b: int): Cache
    requires 0 <= b < |c.bufs|
  {
    c.(disk := c.disk[Id(c.bufs[b]) := c.bufs[b].data], dirty := c.dirty - {b})
  }

  lemma WrittenInv(c: Cache, b: int)
    requires Inv(c) && 0 <= b < NBUF && c.bufs[b].refcnt > 0
    ensures Inv(WrittenBack(c, b))
  {
    hide Ordered, Permutation;
    InRange(c);
    var t := WrittenBack(c, b);
    assert BufOk(c, b);
    forall a | 0 <= a < NBUF ensures BufOk(t, a) {
      assert BufOk(c, a);
      if a != b && c.bufs[a].valid { OneHolder(c, a, b); }
    }
  }

  /** Pinning and unpinning count without moving the buffer. */
  function Pinned(c: Cache, b: int, n: int): Cache
    requires 0 <= b < |c.bufs|
  {
    c.(bufs := c.bufs[b := c.bufs[b].(refcnt := c.bufs[b].refcnt + n)])
  }

  lemma PinnedInv(c: Cache, b: int, n: int)
    requires Inv(c) && 0 <= b < NBUF && b in c.used && c.bufs[b].refcnt + n >= 0
    requires b in c.dirty ==> c.bufs[b].refcnt + n > 0
    ensures Inv(Pinned(c, b, n))
  {
    hide Ordered, Permutation;
    InRange(c);
    var t := Pinned(c, b, n);
    forall a | 0 <= a < NBUF ensures BufOk(t, a) { assert BufOk(c, a); }
  }
}
