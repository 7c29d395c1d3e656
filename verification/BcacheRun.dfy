/** Whole runs of the buffer cache: which buffer a miss takes, told by the calls alone. */
module BcacheRun {
  import opened BcacheSpec
  import opened Seqs

  datatype Call =
    | Get(id: (int, int), b: int)
    | Fill(b: int)
    | Change(b: int, d: Data)
    | Write(b: int)
    | Release(b: int, k: nat)
    | Pin(b: int)
    | Unpin(b: int)

  ghost predicate Cached(c: Cache, id: (int, int)) {
    exists a :: 0 <= a < NBUF && Matches(c, a, id)
  }

  ghost predicate Enabled(c: Cache, e: Call) {
    |c.bufs| == |c.when| == |c.xs| == NBUF &&
    match e
    case Get(id, b) => if Cached(c, id) then Hit(c, id, b) && 0 <= b < NBUF else Oldest(c, b)
    case Fill(b) => 0 <= b < NBUF && b in c.used && !c.bufs[b].valid && Id(c.bufs[b]) in c.disk
    case Change(b, d) => 0 <= b < NBUF && c.bufs[b].refcnt > 0
    case Write(b) => 0 <= b < NBUF && c.bufs[b].refcnt > 0
    case Release(b, k) =>
      0 <= b < NBUF && k < NBUF && c.xs[k] == b && c.bufs[b].refcnt > 0 && (c.bufs[b].refcnt == 1 ==> b !in c.dirty)
    case Pin(b) => 0 <= b < NBUF && b in c.used
    case Unpin(b) =>
      0 <= b < NBUF && b in c.used && c.bufs[b].refcnt > 0 && (c.bufs[b].refcnt == 1 ==> b !in c.dirty)
  }

  ghost function Next(c: Cache, e: Call): Cache
    requires Enabled(c, e)
  {
    match e
    case Get(id, b) => if Cached(c, id) then Held(c, b) else Recycled(c, b, id)
    case Fill(b) => Filled(c, b)
    case Change(b, d) => Changed(c, b, d)
    case Write(b) => WrittenBack(c, b)
    case Release(b, k) => Released(c, b, k)
    case Pin(b) => Pinned(c, b, 1)
    case Unpin(b) => Pinned(c, b, -1)
  }

  /** The cache at the start. */
  ghost predicate Start(c: Cache) {
    Inv(c) && c.now == 0 && forall b :: 0 <= b < NBUF ==> c.when[b] == b - NBUF
  }

  /** `log` has the buffers in the order in which their last holders released them, `pre` those
      from before the run. */
  ghost predicate Run(c: Cache, pre: seq<int>, es: seq<Call>, log: seq<int>, c': Cache)
    decreases |es|
  {
    if es == [] then c' == c && log == pre
    else Enabled(c, es[0]) && Run(Next(c, es[0]), Logged(c, es[0], pre), es[1..], log, c')
  }

  ghost function Logged(c: Cache, e: Call, pre: seq<int>): seq<int>
    requires Enabled(c, e)
  {
    if e.Release? && c.bufs[e.b].refcnt == 1 then pre + [e.b] else pre
  }

  /** The place of `b`'s last release in the log, counted from one; those never released stand
      before all others, in the order of the buffers. */
  ghost function LastAt(log: seq<int>, b: int): int {
    if log == [] then b - NBUF
    else if log[|log| - 1] == b then |log|
    else LastAt(log[..|log| - 1], b)
  }

  lemma StepInv(c: Cache, e: Call)
    requires Inv(c) && Enabled(c, e)
    ensures Inv(Next(c, e))
  {
    hide Inv, Ring, Moved, Hit, Oldest;
    match e
    case Get(id, b) =>
      if Cached(c, id) {
        HeldInv(c, id, b);
      } else {
        forall a | 0 <= a < NBUF ensures Id(c.bufs[a]) != id { assert !Matches(c, a, id); }
        RecycledInv(c, b, id);
      }
    case Fill(b) => FilledInv(c, b);
    case Change(b, d) => ChangedInv(c, b, d);
    case Write(b) => WrittenInv(c, b);
    case Release(b, k) => ReleasedInv(c, b, k);
    case Pin(b) =>
      assert BufOk(c, b) by { Sound(c, b); }
      PinnedInv(c, b, 1);
    case Unpin(b) => PinnedInv(c, b, -1);
  }

  lemma Sound(c: Cache, b: int)
    requires Inv(c) && 0 <= b < NBUF
    ensures |c.bufs| == NBUF && BufOk(c, b)
  {
  }

  /** The times kept are the places of the last releases. */
  ghost predicate Timed(c: Cache, log: seq<int>) {
    |c.when| == NBUF && c.now == |log| && forall b :: 0 <= b < NBUF ==> c.when[b] == LastAt(log, b)
  }

  lemma StepTimed(c: Cache, e: Call, pre: seq<int>)
    requires Enabled(c, e) && Timed(c, pre)
    ensures Timed(Next(c, e), Logged(c, e, pre))
  {
    hide Moved, Hit, Oldest;
    if e.Release? && c.bufs[e.b].refcnt == 1 {
      assert (pre + [e.b])[..|pre|] == pre;
    }
  }

  /** In every run the time kept for a buffer is the place of its last release. */
  lemma {:induction false} RunTimes(c: Cache, pre: seq<int>, es: seq<Call>, log: seq<int>, c': Cache)
    requires Inv(c) && Timed(c, pre) && Run(c, pre, es, log, c')
    ensures Inv(c') && Timed(c', log)
    decreases |es|
  {
    hide Inv, Timed, Enabled, Next, Logged;
    if es != [] {
      StepInv(c, es[0]);
      StepTimed(c, es[0], pre);
      RunTimes(Next(c, es[0]), Logged(c, es[0], pre), es[1..], log, c');
    }
  }

  /** After any run from the start a miss takes an unreferenced buffer that no other unreferenced
      one was released before, and the list has the buffers from the last released to the first. */
  lemma LeastRecent(c: Cache, es: seq<Call>, log: seq<int>, c': Cache, id: (int, int), b: int)
    requires Start(c) && Run(c, [], es, log, c')
    ensures |c'.xs| == |c'.bufs| == NBUF && forall i :: 0 <= i < NBUF ==> 0 <= c'.xs[i] < NBUF
    ensures forall i, j :: 0 <= i < j < NBUF ==> LastAt(log, c'.xs[i]) > LastAt(log, c'.xs[j])
    ensures Enabled(c', Get(id, b)) && !Cached(c', id) ==>
              && 0 <= b < NBUF && c'.bufs[b].refcnt == 0
              && forall a :: 0 <= a < NBUF && c'.bufs[a].refcnt == 0 ==> LastAt(log, b) <= LastAt(log, a)
  {
    RunTimes(c, [], es, log, c');
    hide LastAt, BufOk;
  }
}
