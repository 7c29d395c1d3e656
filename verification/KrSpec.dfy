/** The address-ordered circular free list, on values.  Addresses count header-sized units;
    a block is its header's address and its length in units, header included. */
module KrSpec {

  datatype Block = Block(at: int, size: int)

  // ----- the units a list of blocks covers

  ghost function Span(at: int, size: int): set<int>
    decreases size
  {
    if size <= 0 then {} else Span(at, size - 1) + {at + size - 1}
  }

  lemma {:induction false} SpanAt(at: int, size: int)
    ensures forall u :: u in Span(at, size) <==> at <= u < at + size
    decreases size
  {
    if size > 0 { SpanAt(at, size - 1); }
  }

  ghost function Units(bs: seq<Block>): set<int> {
    if bs == [] then {} else Span(bs[0].at, bs[0].size) + Units(bs[1..])
  }

  ghost function Total(bs: seq<Block>): int {
    if bs == [] then 0 else bs[0].size + Total(bs[1..])
  }

  ghost predicate Apart(b: Block, c: Block) {
    b.at + b.size <= c.at || c.at + c.size <= b.at
  }

  ghost predicate Disjoint(bs: seq<Block>) {
    forall i, j :: 0 <= i < j < |bs| ==> Apart(bs[i], bs[j])
  }

  ghost predicate Sized(bs: seq<Block>) {
    forall i :: 0 <= i < |bs| ==> bs[i].size >= 0
  }

  lemma {:induction false} UnitsAt(bs: seq<Block>, u: int)
    ensures u in Units(bs) <==> exists i :: 0 <= i < |bs| && bs[i].at <= u < bs[i].at + bs[i].size
  {
    if bs != [] {
      UnitsAt(bs[1..], u);
      SpanAt(bs[0].at, bs[0].size);
      if u in Units(bs[1..]) {
        var i :| 0 <= i < |bs[1..]| && bs[1..][i].at <= u < bs[1..][i].at + bs[1..][i].size;
        assert bs[i + 1].at <= u < bs[i + 1].at + bs[i + 1].size;
      }
      if i :| 0 <= i < |bs| && bs[i].at <= u < bs[i].at + bs[i].size {
        if i > 0 { assert bs[1..][i - 1] == bs[i]; }
      }
    }
  }

  lemma {:induction false} UnitsConcat(a: seq<Block>, b: seq<Block>)
    ensures Units(a + b) == Units(a) + Units(b)
  {
    if a == [] {
      assert a + b == b;
    } else {
      assert (a + b)[1..] == a[1..] + b;
      UnitsConcat(a[1..], b);
    }
  }

  lemma {:induction false} SpanSize(at: int, size: int)
    requires size >= 0
    ensures |Span(at, size)| == size
    decreases size
  {
    if size > 0 {
      SpanSize(at, size - 1);
      SpanAt(at, size - 1);
    }
  }

  /** Disjoint blocks: the units they cover number the sum of their sizes. */
  lemma {:induction false} UnitsCount(bs: seq<Block>)
    requires Disjoint(bs) && Sized(bs)
    ensures |Units(bs)| == Total(bs)
  {
    if bs != [] {
      var t := bs[1..];
      UnitsCount(t);
      SpanSize(bs[0].at, bs[0].size);
      SpanAt(bs[0].at, bs[0].size);
      forall u | u in Span(bs[0].at, bs[0].size) ensures u !in Units(t) {
        UnitsAt(t, u);
        assert forall i :: 0 <= i < |t| ==> t[i] == bs[i + 1] && Apart(bs[0], bs[i + 1]);
      }
      assert Span(bs[0].at, bs[0].size) !! Units(t);
    }
  }

  // ----- the ring

  function After(i: nat, n: nat): nat {
    if i + 1 == n then 0 else i + 1
  }

  /** The headers of `fs` form a cycle in memory, in this order. */
  ghost predicate Cycle(fs: seq<Block>, ptr: map<int, int>) {
    forall i :: 0 <= i < |fs| ==> fs[i].at in ptr && ptr[fs[i].at] == fs[After(i, |fs|)].at
  }

  /** The headers record the lengths of the blocks. */
  ghost predicate Sizes(bs: seq<Block>, size: map<int, int>) {
    forall i :: 0 <= i < |bs| ==> bs[i].at in size && size[bs[i].at] == bs[i].size
  }

  /** Ascending addresses, blocks not overlapping. */
  ghost predicate Ascending(fs: seq<Block>) {
    forall i, j :: 0 <= i < j < |fs| ==> fs[i].at < fs[j].at && fs[i].at + fs[i].size <= fs[j].at
  }

  /** No block ends where another starts. */
  ghost predicate Gapped(fs: seq<Block>) {
    forall i, j :: 0 <= i < j < |fs| ==> fs[i].at < fs[j].at && fs[i].at + fs[i].size < fs[j].at
  }

  /** Every block is the empty base, outside the arena, or a non-empty piece of the arena. */
  ghost predicate Pieces(fs: seq<Block>, base: int, lo: int, hi: int) {
    && lo <= hi && !(lo <= base <= hi)
    && (exists i :: 0 <= i < |fs| && fs[i] == Block(base, 0))
    && forall i :: 0 <= i < |fs| ==> Piece(fs[i], base, lo, hi)
  }

  ghost predicate Piece(b: Block, base: int, lo: int, hi: int) {
    b == Block(base, 0) || (b.size > 0 && lo <= b.at && b.at + b.size <= hi)
  }

  /** The free list: the empty `base` block, outside the arena, and pieces of the arena that do
      not touch, in address order. */
  ghost predicate Ring(fs: seq<Block>, base: int, lo: int, hi: int) {
    Gapped(fs) && Pieces(fs, base, lo, hi)
  }

  ghost predicate Splits(fs: seq<Block>, k: nat, at: int) {
    && k <= |fs|
    && (forall i :: 0 <= i < k ==> fs[i].at < at)
    && (forall i :: k <= i < |fs| ==> at < fs[i].at)
  }

  /** Where a block at `at` belongs: after every block at a lower address. */
  ghost function Place(fs: seq<Block>, at: int): (k: nat)
    ensures k <= |fs|
  {
    if fs == [] || fs[0].at > at then 0 else 1 + Place(fs[1..], at)
  }

  lemma {:induction false} PlaceSplits(fs: seq<Block>, at: int)
    requires Gapped(fs) && forall i :: 0 <= i < |fs| ==> fs[i].at != at
    ensures Splits(fs, Place(fs, at), at)
  {
    if fs != [] && fs[0].at < at {
      var t := fs[1..];
      PlaceSplits(t, at);
      forall i | 0 < i < |fs| ensures fs[i] == t[i - 1] {}
    }
  }

  // ----- putting a block back

  function Inserted(fs: seq<Block>, k: nat, b: Block): seq<Block>
    requires k <= |fs|
  {
    fs[..k] + [b] + fs[k..]
  }

  predicate Touch(fs: seq<Block>, k: nat) {
    k + 1 < |fs| && fs[k].at + fs[k].size == fs[k + 1].at
  }

  function Merged(fs: seq<Block>, k: nat): seq<Block>
    requires k + 1 < |fs|
  {
    fs[..k] + [Block(fs[k].at, fs[k].size + fs[k + 1].size)] + fs[k + 2..]
  }

  function JoinUp(fs: seq<Block>, k: nat): seq<Block> {
    if Touch(fs, k) then Merged(fs, k) else fs
  }

  /** `b` at place `k`, joined with the neighbours it touches. */
  function Joined(fs: seq<Block>, k: nat, b: Block): seq<Block>
    requires k <= |fs|
  {
    var up := JoinUp(Inserted(fs, k, b), k);
    if k > 0 then JoinUp(up, k - 1) else up
  }

  ghost function Freed(fs: seq<Block>, b: Block): seq<Block> {
    Joined(fs, Place(fs, b.at), b)
  }

  /** Where place `j` of the longer list was before block `k` came in. */
  function Before(j: nat, k: nat): int {
    if j < k then j else j - 1
  }

  function InsertedBlock(fs: seq<Block>, k: nat, b: Block, j: nat): Block
    requires k <= |fs| && j <= |fs|
  {
    if j == k then b else fs[Before(j, k)]
  }

  lemma InsertedAt(fs: seq<Block>, k: nat, b: Block, j: nat)
    requires k <= |fs| && j <= |fs|
    ensures |Inserted(fs, k, b)| == |fs| + 1
    ensures Inserted(fs, k, b)[j] == InsertedBlock(fs, k, b, j)
  {
  }

  function MergedBlock(fs: seq<Block>, k: nat, j: nat): Block
    requires k + 1 < |fs| && j < |fs| - 1
  {
    if j < k then fs[j] else if j == k then Block(fs[k].at, fs[k].size + fs[k + 1].size) else fs[j + 1]
  }

  lemma MergedAt(fs: seq<Block>, k: nat, j: nat)
    requires k + 1 < |fs| && j < |fs| - 1
    ensures |Merged(fs, k)| == |fs| - 1
    ensures Merged(fs, k)[j] == MergedBlock(fs, k, j)
  {
  }

  ghost predicate Unique(fs: seq<Block>) {
    forall i, j :: 0 <= i < j < |fs| ==> fs[i].at != fs[j].at
  }

  ghost predicate Link(fs: seq<Block>, ptr: map<int, int>, i: nat)
    requires i < |fs|
  {
    fs[i].at in ptr && ptr[fs[i].at] == fs[After(i, |fs|)].at
  }

  /** Linking a block in behind the one at place `i`. */
  lemma InsertCycle(fs: seq<Block>, ptr: map<int, int>, i: nat, k: nat, b: Block)
    requires Cycle(fs, ptr) && i < |fs| && k <= |fs| && Unique(fs)
    requires forall j :: 0 <= j < |fs| ==> fs[j].at != b.at
    requires i == if k == 0 then |fs| - 1 else k - 1
    ensures Cycle(Inserted(fs, k, b), ptr[b.at := ptr[fs[i].at]][fs[i].at := b.at])
  {
    var gs, p := Inserted(fs, k, b), ptr[b.at := ptr[fs[i].at]][fs[i].at := b.at];
    InsertedAt(fs, k, b, 0);
    hide Inserted, Cycle, InsertedBlock, Link, Unique;
    forall j | 0 <= j < |gs| ensures Link(gs, p, j) {
      InsertLink(fs, ptr, i, k, b, j);
    }
    CycleLinks(gs, p);
  }

  lemma CycleLinks(fs: seq<Block>, ptr: map<int, int>)
    ensures Cycle(fs, ptr) <==> forall j :: 0 <= j < |fs| ==> Link(fs, ptr, j)
  {
    if Cycle(fs, ptr) {
      forall j | 0 <= j < |fs| ensures Link(fs, ptr, j) {}
    } else {
      var j :| 0 <= j < |fs| && !(fs[j].at in ptr && ptr[fs[j].at] == fs[After(j, |fs|)].at);
      assert !Link(fs, ptr, j);
    }
  }

  lemma InsertLink(fs: seq<Block>, ptr: map<int, int>, i: nat, k: nat, b: Block, j: nat)
    requires Cycle(fs, ptr) && i < |fs| && k <= |fs| && Unique(fs) && j <= |fs|
    requires forall m :: 0 <= m < |fs| ==> fs[m].at != b.at
    requires i == if k == 0 then |fs| - 1 else k - 1
    ensures j < |Inserted(fs, k, b)|
    ensures Link(Inserted(fs, k, b), ptr[b.at := ptr[fs[i].at]][fs[i].at := b.at], j)
  {
    hide Cycle, Unique, Inserted;
    InsertedAt(fs, k, b, j);
    InsertedAt(fs, k, b, After(j, |fs| + 1));
    if j == k {
      LinkAt(fs, ptr, i);
    } else {
      var o := Before(j, k);
      LinkAt(fs, ptr, o);
      if o != i { Differ(fs, o, i); }
    }
  }

  lemma LinkAt(fs: seq<Block>, ptr: map<int, int>, i: nat)
    requires Cycle(fs, ptr) && i < |fs|
    ensures Link(fs, ptr, i)
  {
  }

  lemma Differ(fs: seq<Block>, i: nat, j: nat)
    requires Unique(fs) && i < |fs| && j < |fs| && i != j
    ensures fs[i].at != fs[j].at
  {
  }

  /** Absorbing the next block. */
  lemma MergeCycle(fs: seq<Block>, ptr: map<int, int>, k: nat)
    requires Cycle(fs, ptr) && k + 1 < |fs| && Unique(fs)
    ensures Cycle(Merged(fs, k), ptr[fs[k].at := ptr[fs[k + 1].at]])
  {
    var gs, p := Merged(fs, k), ptr[fs[k].at := ptr[fs[k + 1].at]];
    MergedAt(fs, k, 0);
    hide Merged, Cycle, Unique, Link;
    forall j | 0 <= j < |gs| ensures Link(gs, p, j) {
      MergeLink(fs, ptr, k, j);
    }
    CycleLinks(gs, p);
  }

  lemma MergeLink(fs: seq<Block>, ptr: map<int, int>, k: nat, j: nat)
    requires Cycle(fs, ptr) && k + 1 < |fs| && Unique(fs) && j < |fs| - 1
    ensures j < |Merged(fs, k)|
    ensures Link(Merged(fs, k), ptr[fs[k].at := ptr[fs[k + 1].at]], j)
  {
    hide Merged, Cycle, Unique;
    MergedAt(fs, k, j);
    MergedAt(fs, k, After(j, |fs| - 1));
    LinkAt(fs, ptr, k + 1);
    if j != k {
      var o := if j < k then j else j + 1;
      LinkAt(fs, ptr, o);
      Differ(fs, o, k);
    }
  }

  lemma MergeSizes(fs: seq<Block>, size: map<int, int>, k: nat)
    requires Sizes(fs, size) && k + 1 < |fs| && Unique(fs)
    ensures Sizes(Merged(fs, k), size[fs[k].at := fs[k].size + fs[k + 1].size])
  {
    var gs, p := Merged(fs, k), size[fs[k].at := fs[k].size + fs[k + 1].size];
    MergedAt(fs, k, 0);
    hide Merged, Unique;
    forall j | 0 <= j < |gs| ensures gs[j].at in p && p[gs[j].at] == gs[j].size {
      MergedAt(fs, k, j);
      if j != k { Differ(fs, if j < k then j else j + 1, k); }
    }
  }

  /** Gapped, but perhaps not behind the blocks at places `m` and `k`. */
  ghost predicate GappedBut(fs: seq<Block>, m: int, k: int) {
    forall i, j :: 0 <= i < j < |fs| && (j == i + 1 ==> i != m && i != k) ==> fs[i].at + fs[i].size < fs[j].at
  }

  lemma Ends(fs: seq<Block>, i: nat, j: nat)
    requires Gapped(fs) && i < j < |fs|
    ensures fs[i].at < fs[j].at && fs[i].at + fs[i].size < fs[j].at
  {
  }

  lemma Lies(fs: seq<Block>, k: nat, b: Block, i: nat)
    requires Gapped(fs) && Splits(fs, k, b.at) && Sized(fs) && b.size > 0 && i < |fs|
    requires forall i :: 0 <= i < |fs| ==> Apart(fs[i], b)
    ensures i < k ==> fs[i].at < b.at && fs[i].at + fs[i].size <= b.at
    ensures i + 1 < k ==> fs[i].at + fs[i].size < b.at
    ensures i >= k ==> b.at < fs[i].at && b.at + b.size <= fs[i].at
    ensures i > k ==> b.at + b.size < fs[i].at
  {
    assert Apart(fs[i], b);
    if i + 1 < k { Ends(fs, i, k - 1); }
    if i > k { Ends(fs, k, i); assert Apart(fs[k], b); }
  }

  /** A free-standing block fits between its neighbours. */
  lemma InsertAscending(fs: seq<Block>, k: nat, b: Block)
    requires Gapped(fs) && Splits(fs, k, b.at) && Sized(fs) && b.size > 0
    requires forall i :: 0 <= i < |fs| ==> Apart(fs[i], b)
    ensures Ascending(Inserted(fs, k, b)) && GappedBut(Inserted(fs, k, b), k - 1, k)
  {
    var gs := Inserted(fs, k, b);
    InsertedAt(fs, k, b, 0);
    hide Inserted, Gapped, Splits, Sized;
    forall i, j | 0 <= i < j < |gs|
      ensures gs[i].at < gs[j].at && gs[i].at + gs[i].size <= gs[j].at
      ensures (j == i + 1 ==> i != k - 1 && i != k) ==> gs[i].at + gs[i].size < gs[j].at
    {
      InsertedAt(fs, k, b, i);
      InsertedAt(fs, k, b, j);
      if j == k {
        Lies(fs, k, b, i);
      } else if i == k {
        Lies(fs, k, b, j - 1);
      } else {
        Ends(fs, Before(i, k), Before(j, k));
      }
    }
  }

  // ----- joining

  /** A merged list starts and ends blocks only where the old one did. */
  lemma MergedEnds(fs: seq<Block>, k: nat, i: nat)
    requires Touch(fs, k) && i < |fs| - 1
    ensures |Merged(fs, k)| == |fs| - 1
    ensures Merged(fs, k)[i].at == fs[if i <= k then i else i + 1].at
    ensures var e := if i < k then i else i + 1;
      Merged(fs, k)[i].at + Merged(fs, k)[i].size == fs[e].at + fs[e].size
  {
    MergedAt(fs, k, i);
  }

  lemma Apart2(fs: seq<Block>, i: nat, j: nat)
    requires Ascending(fs) && i < j < |fs|
    ensures fs[i].at < fs[j].at && fs[i].at + fs[i].size <= fs[j].at
  {
  }

  lemma Gap(fs: seq<Block>, m: int, k: int, i: nat, j: nat)
    requires GappedBut(fs, m, k) && i < j < |fs| && (j == i + 1 ==> i != m && i != k)
    ensures fs[i].at + fs[i].size < fs[j].at
  {
  }

  /** Joining at `k` closes the touch between places `k` and `k + 1`. */
  lemma JoinGaps(fs: seq<Block>, m: int, k: nat)
    requires Ascending(fs) && k < |fs| && GappedBut(fs, m, k)
    requires m == k || m + 1 == k
    ensures Ascending(JoinUp(fs, k))
    ensures GappedBut(JoinUp(fs, k), if m == k then -1 else m, -1)
  {
    if Touch(fs, k) {
      var gs := Merged(fs, k);
      MergedEnds(fs, k, 0);
      hide Merged, Ascending, GappedBut, Touch;
      var m' := if m == k then -1 else m;
      forall i, j | 0 <= i < j < |gs|
        ensures gs[i].at < gs[j].at && gs[i].at + gs[i].size <= gs[j].at
        ensures (j == i + 1 ==> i != m') ==> gs[i].at + gs[i].size < gs[j].at
      {
        MergedEnds(fs, k, i);
        MergedEnds(fs, k, j);
        var a, e, a' := if i <= k then i else i + 1, if i < k then i else i + 1, if j <= k then j else j + 1;
        Apart2(fs, a, a');
        Apart2(fs, e, a');
        if j == i + 1 ==> i != m' { Gap(fs, m, k, e, a'); }
      }
      AscendingGaps(gs, m');
    } else {
      NoTouch(fs, m, k);
    }
  }

  lemma NoTouch(fs: seq<Block>, m: int, k: nat)
    requires Ascending(fs) && GappedBut(fs, m, k) && !Touch(fs, k)
    ensures GappedBut(fs, if m == k then -1 else m, -1)
  {
  }

  lemma AscendingGaps(gs: seq<Block>, m: int)
    requires forall i, j :: 0 <= i < j < |gs| ==>
        && gs[i].at < gs[j].at && gs[i].at + gs[i].size <= gs[j].at
        && ((j == i + 1 ==> i != m) ==> gs[i].at + gs[i].size < gs[j].at)
    requires m >= -1
    ensures Ascending(gs) && GappedBut(gs, m, -1)
  {
  }

  lemma InsertPieces(fs: seq<Block>, k: nat, b: Block, base: int, lo: int, hi: int)
    requires Pieces(fs, base, lo, hi) && Piece(b, base, lo, hi) && k <= |fs|
    ensures Pieces(Inserted(fs, k, b), base, lo, hi)
  {
    var i :| 0 <= i < |fs| && fs[i] == Block(base, 0);
    var gs := Inserted(fs, k, b);
    InsertedAt(fs, k, b, if i < k then i else i + 1);
    hide Inserted;
    assert gs[if i < k then i else i + 1] == fs[i];
    forall j | 0 <= j < |gs| ensures Piece(gs[j], base, lo, hi) {
      InsertedAt(fs, k, b, j);
    }
  }

  lemma JoinPieces(fs: seq<Block>, k: nat, base: int, lo: int, hi: int)
    requires Pieces(fs, base, lo, hi) && Ascending(fs)
    ensures Pieces(JoinUp(fs, k), base, lo, hi)
  {
    if Touch(fs, k) {
      var i :| 0 <= i < |fs| && fs[i] == Block(base, 0);
      var gs := Merged(fs, k);
      assert Piece(fs[k], base, lo, hi) && Piece(fs[k + 1], base, lo, hi);
      assert i != k && i != k + 1;
      var o := if i < k then i else i - 1;
      MergedAt(fs, k, o);
      hide Merged;
      assert gs[o] == fs[i];
      forall j | 0 <= j < |gs| ensures Piece(gs[j], base, lo, hi) {
        MergedAt(fs, k, j);
      }
    }
  }

  lemma PiecesSized(fs: seq<Block>, base: int, lo: int, hi: int)
    requires Pieces(fs, base, lo, hi)
    ensures Sized(fs)
  {
    forall i | 0 <= i < |fs| ensures fs[i].size >= 0 {
      assert Piece(fs[i], base, lo, hi);
    }
  }

  lemma GappedAscending(fs: seq<Block>)
    ensures Gapped(fs) ==> Ascending(fs)
    ensures Ascending(fs) ==> Unique(fs)
    ensures Ascending(fs) ==> (Gapped(fs) <==> GappedBut(fs, -1, -1))
  {
  }

  /** A freed block keeps the ring a ring, whatever it touches. */
  lemma FreedRing(fs: seq<Block>, b: Block, base: int, lo: int, hi: int)
    requires Ring(fs, base, lo, hi) && Piece(b, base, lo, hi) && b.size > 0
    requires forall i :: 0 <= i < |fs| ==> Apart(fs[i], b) && fs[i].at != b.at
    ensures Ring(Freed(fs, b), base, lo, hi) && Splits(fs, Place(fs, b.at), b.at)
    ensures Ascending(Inserted(fs, Place(fs, b.at), b))
    ensures Ascending(JoinUp(Inserted(fs, Place(fs, b.at), b), Place(fs, b.at)))
  {
    hide Gapped, Pieces, Piece, Inserted, Merged, JoinUp, Splits, Place, Ascending, Sized, Touch, GappedBut, Unique;
    var k: int := Place(fs, b.at);
    PlaceSplits(fs, b.at);
    PiecesSized(fs, base, lo, hi);
    InsertAscending(fs, k, b);
    InsertPieces(fs, k, b, base, lo, hi);
    var ins := Inserted(fs, k, b);
    PiecesSized(ins, base, lo, hi);
    InsertedAt(fs, k, b, 0);
    JoinGaps(ins, k - 1, k);
    JoinPieces(ins, k, base, lo, hi);
    var up := JoinUp(ins, k);
    if k > 0 {
      JoinLength(ins, k);
      PiecesSized(up, base, lo, hi);
      JoinWeak(up, k - 1);
      JoinGaps(up, k - 1, k - 1);
      JoinPieces(up, k - 1, base, lo, hi);
      GappedAscending(JoinUp(up, k - 1));
    } else {
      GappedAscending(up);
    }
  }

  lemma JoinLength(fs: seq<Block>, k: nat)
    requires k < |fs|
    ensures k < |JoinUp(fs, k)|
  {
  }

  lemma JoinWeak(fs: seq<Block>, m: int)
    requires GappedBut(fs, m, -1)
    ensures GappedBut(fs, m, m)
  {
  }

  // ----- the same units, rearranged

  lemma UnitsOne(b: Block)
    ensures Units([b]) == Span(b.at, b.size)
  {
    assert [b][1..] == [];
  }

  lemma InsertUnits(fs: seq<Block>, k: nat, b: Block)
    requires k <= |fs|
    ensures Units(Inserted(fs, k, b)) == Units(fs) + Span(b.at, b.size)
  {
    assert fs == fs[..k] + fs[k..];
    UnitsConcat(fs[..k], fs[k..]);
    UnitsConcat(fs[..k], [b]);
    UnitsConcat(fs[..k] + [b], fs[k..]);
    UnitsOne(b);
  }

  lemma SpanJoin(at: int, m: int, n: int)
    requires m >= 0 && n >= 0
    ensures Span(at, m + n) == Span(at, m) + Span(at + m, n)
  {
    SpanAt(at, m + n);
    SpanAt(at, m);
    SpanAt(at + m, n);
    hide Span;
    forall u: int {:trigger u in Span(at, m + n)}
      ensures u in Span(at, m + n) <==> u in Span(at, m) + Span(at + m, n)
    {
    }
  }

  lemma JoinUnits(fs: seq<Block>, k: nat)
    requires Sized(fs)
    ensures Units(JoinUp(fs, k)) == Units(fs)
  {
    if Touch(fs, k) {
      var a, b, c := fs[..k], [fs[k], fs[k + 1]], fs[k + 2..];
      var m := Block(fs[k].at, fs[k].size + fs[k + 1].size);
      assert fs == a + b + c;
      assert b == [fs[k]] + [fs[k + 1]];
      UnitsConcat([fs[k]], [fs[k + 1]]);
      UnitsOne(fs[k]);
      UnitsOne(fs[k + 1]);
      UnitsOne(m);
      SpanJoin(fs[k].at, fs[k].size, fs[k + 1].size);
      UnitsConcat(a + b, c);
      UnitsConcat(a, b);
      UnitsConcat(a + [m], c);
      UnitsConcat(a, [m]);
    }
  }

  lemma FreedUnits(fs: seq<Block>, b: Block)
    requires Sized(fs) && b.size >= 0
    ensures Units(Freed(fs, b)) == Units(fs) + Span(b.at, b.size)
  {
    hide Units, JoinUp, Place;
    var k := Place(fs, b.at);
    InsertUnits(fs, k, b);
    var ins := Inserted(fs, k, b);
    JoinUnits(ins, k);
    JoinSized(ins, k);
    if k > 0 { JoinUnits(JoinUp(ins, k), k - 1); }
  }

  lemma JoinSized(fs: seq<Block>, k: nat)
    requires Sized(fs)
    ensures Sized(JoinUp(fs, k))
  {
  }

  // ----- what freeing writes

  datatype Headers = Headers(ptr: map<int, int>, size: map<int, int>)

  /** Splicing the block at `bp` in behind the one at `p`, joined with what it touches. */
  ghost function SpliceUp(h: Headers, p: int, bp: int): Headers
    requires p in h.ptr && bp in h.size && (bp + h.size[bp] == h.ptr[p] ==> h.ptr[p] in h.ptr && h.ptr[p] in h.size)
  {
    var q := h.ptr[p];
    if bp + h.size[bp] == q then Headers(h.ptr[bp := h.ptr[q]], h.size[bp := h.size[bp] + h.size[q]])
    else Headers(h.ptr[bp := q], h.size)
  }

  ghost function SpliceDown(h: Headers, p: int, bp: int): Headers
    requires p in h.size && bp in h.ptr && bp in h.size
  {
    if p + h.size[p] == bp then Headers(h.ptr[p := h.ptr[bp]], h.size[p := h.size[p] + h.size[bp]])
    else Headers(h.ptr[p := bp], h.size)
  }

  ghost function Prior(k: nat, n: nat): (p: int)
    ensures 0 < n && k <= n ==> 0 <= p < n
  {
    if k == 0 then n - 1 else k - 1
  }

  /** The block the search stops at: the one the freed block goes behind. */
  lemma InsertHeaders(fs: seq<Block>, h: Headers, b: Block)
    requires Cycle(fs, h.ptr) && Sizes(fs, h.size) && fs != [] && Gapped(fs)
    requires b.at in h.size && h.size[b.at] == b.size
    requires forall i :: 0 <= i < |fs| ==> fs[i].at != b.at
    ensures var k := Place(fs, b.at); var p := fs[Prior(k, |fs|)].at;
      && p in h.ptr && p in h.size && p != b.at
      && h.ptr[p] == fs[if k == |fs| then 0 else k].at && h.size[p] == fs[Prior(k, |fs|)].size
      && Cycle(Inserted(fs, k, b), h.ptr[b.at := h.ptr[p]][p := b.at])
      && Sizes(Inserted(fs, k, b), h.size)
  {
    hide Inserted, Cycle, Gapped, Place, Sizes, InsertedBlock, Unique, Ascending;
    var k := Place(fs, b.at);
    GappedAscending(fs);
    LinkAt(fs, h.ptr, Prior(k, |fs|));
    SizeAt(fs, h.size, Prior(k, |fs|));
    InsertCycle(fs, h.ptr, Prior(k, |fs|), k, b);
    InsertSizes(fs, h.size, k, b);
  }

  lemma SizeAt(fs: seq<Block>, size: map<int, int>, i: nat)
    requires Sizes(fs, size) && i < |fs|
    ensures fs[i].at in size && size[fs[i].at] == fs[i].size
  {
  }

  lemma InsertSizes(fs: seq<Block>, size: map<int, int>, k: nat, b: Block)
    requires Sizes(fs, size) && k <= |fs| && b.at in size && size[b.at] == b.size
    ensures Sizes(Inserted(fs, k, b), size)
  {
    InsertedAt(fs, k, b, 0);
    hide Inserted;
    forall j | 0 <= j <= |fs|
      ensures Inserted(fs, k, b)[j].at in size && size[Inserted(fs, k, b)[j].at] == Inserted(fs, k, b)[j].size
    {
      InsertedAt(fs, k, b, j);
    }
  }

  lemma JoinHeaders(fs: seq<Block>, h: Headers, k: nat)
    requires Cycle(fs, h.ptr) && Sizes(fs, h.size) && Ascending(fs) && k < |fs|
    ensures fs[k].at in h.size && fs[k].size == h.size[fs[k].at]
    ensures Touch(fs, k) ==> fs[k + 1].at in h.ptr && fs[k + 1].at in h.size
    ensures var h' := if Touch(fs, k) then
        Headers(h.ptr[fs[k].at := h.ptr[fs[k + 1].at]], h.size[fs[k].at := h.size[fs[k].at] + h.size[fs[k + 1].at]])
        else h;
      Cycle(JoinUp(fs, k), h'.ptr) && Sizes(JoinUp(fs, k), h'.size)
  {
    hide Cycle, Sizes, Merged, Unique, Ascending;
    SizeAt(fs, h.size, k);
    if Touch(fs, k) {
      LinkAt(fs, h.ptr, k + 1);
      SizeAt(fs, h.size, k + 1);
    }
    GappedAscending(fs);
    if Touch(fs, k) {
      MergeCycle(fs, h.ptr, k);
      MergeSizes(fs, h.size, k);
    }
  }


  /** Linking in first and joining afterwards comes to the same. */
  lemma Composed(h: Headers, p: int, bp: int)
    requires p in h.ptr && p in h.size && bp in h.size && p != bp && h.size[bp] > 0
    requires bp + h.size[bp] == h.ptr[p] ==> h.ptr[p] != p && h.ptr[p] in h.ptr && h.ptr[p] in h.size
    ensures var q, g := h.ptr[p], SpliceUp(h, p, bp);
      var h1 := Headers(h.ptr[bp := q][p := bp], h.size);
      var h2 := if bp + h.size[bp] == q then Headers(h1.ptr[bp := h1.ptr[q]], h1.size[bp := h1.size[bp] + h1.size[q]])
                else h1;
      && bp in g.ptr && bp in g.size && p in g.size
      && SpliceDown(g, p, bp) ==
           if p + h.size[p] == bp then Headers(h2.ptr[p := h2.ptr[bp]], h2.size[p := h2.size[p] + h2.size[bp]])
           else h2
  {
  }

  /** Does the upper neighbour, if any, start where `b` ends? */
  lemma UpTouch(fs: seq<Block>, k: nat, b: Block, q: int)
    requires k <= |fs| && fs != [] && b.size > 0 && Ascending(Inserted(fs, k, b))
    requires q == fs[if k == |fs| then 0 else k].at
    ensures Touch(Inserted(fs, k, b), k) <==> b.at + b.size == q
    ensures Touch(Inserted(fs, k, b), k) ==> k < |fs|
    ensures k < |fs| ==> Inserted(fs, k, b)[k + 1].at == q
    ensures Inserted(fs, k, b)[k] == b
  {
    InsertedAt(fs, k, b, k);
    if k < |fs| {
      InsertedAt(fs, k, b, k + 1);
    } else {
      InsertedAt(fs, k, b, 0);
      assert Inserted(fs, k, b)[0].at < Inserted(fs, k, b)[k].at;
    }
  }

  /** Does the lower neighbour end where the block, perhaps grown upward, starts? */
  lemma DownTouch(fs: seq<Block>, k: nat, b: Block, p: Block)
    requires k <= |fs| && fs != [] && Ascending(Inserted(fs, k, b)) && Splits(fs, k, b.at) && p.size >= 0
    requires p == fs[Prior(k, |fs|)]
    ensures k == 0 ==> p.at + p.size != b.at
    ensures k > 0 ==> k < |JoinUp(Inserted(fs, k, b), k)|
    ensures k > 0 ==> JoinUp(Inserted(fs, k, b), k)[k - 1] == p && JoinUp(Inserted(fs, k, b), k)[k].at == b.at
    ensures k > 0 ==> (Touch(JoinUp(Inserted(fs, k, b), k), k - 1) <==> p.at + p.size == b.at)
  {
    var ins := Inserted(fs, k, b);
    InsertedAt(fs, k, b, k);
    if k > 0 {
      InsertedAt(fs, k, b, k - 1);
      hide Inserted;
      if Touch(ins, k) {
        MergedAt(ins, k, k - 1);
        MergedAt(ins, k, k);
      }
    }
  }

  /** The two joins done at the place of `b` leave headers that spell the merged list. */
  ghost predicate Splices(fs: seq<Block>, h: Headers, b: Block)
    requires fs != []
  {
    var p := fs[Prior(Place(fs, b.at), |fs|)].at;
    && p in h.ptr && p in h.size && h.ptr[p] in h.ptr && h.ptr[p] in h.size && b.at in h.size && p != b.at
    && b.at in SpliceUp(h, p, b.at).ptr
    && var h' := SpliceDown(SpliceUp(h, p, b.at), p, b.at);
       Cycle(Freed(fs, b), h'.ptr) && Sizes(Freed(fs, b), h'.size)
  }

  /** The splice leaves exactly the ring with the block put back. */
  lemma SpliceIsFreed(fs: seq<Block>, h: Headers, b: Block, base: int, lo: int, hi: int)
    requires Ring(fs, base, lo, hi) && Piece(b, base, lo, hi) && b.size > 0
    requires forall i :: 0 <= i < |fs| ==> Apart(fs[i], b) && fs[i].at != b.at
    requires Cycle(fs, h.ptr) && Sizes(fs, h.size) && b.at in h.size && h.size[b.at] == b.size
    ensures fs != [] && Splices(fs, h, b)
  {
    hide Cycle, Sizes, Ascending, Inserted, JoinUp, Gapped, Splits, Place, Touch, Pieces;
    assert fs != [] by { BaseIn(fs, base, lo, hi); }
    var k := Place(fs, b.at);
    var n, at := |fs|, b.at;
    FreedRing(fs, b, base, lo, hi);
    InsertHeaders(fs, h, b);
    var p := fs[Prior(k, n)];
    var q := h.ptr[p.at];
    NextIn(fs, h, if k == n then 0 else k);
    assert p.size >= 0 by { PiecesSized(fs, base, lo, hi); }
    var ins := Inserted(fs, k, b);
    InsertedLength(fs, k, b);
    var h1 := Headers(h.ptr[at := q][p.at := at], h.size);
    UpTouch(fs, k, b, q);
    JoinHeaders(ins, h1, k);
    var up := JoinUp(ins, k);
    var h2 := if Touch(ins, k) then Headers(h1.ptr[at := h1.ptr[q]], h1.size[at := h1.size[at] + h1.size[q]]) else h1;
    assert Cycle(up, h2.ptr) && Sizes(up, h2.size);
    var g := SpliceUp(h, p.at, at);
    DownTouch(fs, k, b, p);
    Lonely(fs, k, b, base, lo, hi);
    Composed(h, p.at, at);
    if k > 0 { JoinHeaders(up, h2, k - 1); }
  }

  lemma Lonely(fs: seq<Block>, k: nat, b: Block, base: int, lo: int, hi: int)
    requires Ring(fs, base, lo, hi) && Piece(b, base, lo, hi) && b.size > 0 && k <= |fs| && fs != []
    requires Splits(fs, k, b.at)
    requires forall i :: 0 <= i < |fs| ==> Apart(fs[i], b)
    ensures b.at + b.size == fs[if k == |fs| then 0 else k].at ==> fs[if k == |fs| then 0 else k].at != fs[Prior(k, |fs|)].at
  {
    var i :| 0 <= i < |fs| && fs[i] == Block(base, 0);
    if |fs| > 1 && 0 < k < |fs| { Ends(fs, k - 1, k); }
    if |fs| > 1 { Ends(fs, 0, |fs| - 1); }
  }

  lemma BaseIn(fs: seq<Block>, base: int, lo: int, hi: int)
    requires Pieces(fs, base, lo, hi)
    ensures exists i :: 0 <= i < |fs| && fs[i] == Block(base, 0)
    ensures fs != []
  {
  }

  lemma NextIn(fs: seq<Block>, h: Headers, i: nat)
    requires Cycle(fs, h.ptr) && Sizes(fs, h.size) && i < |fs|
    ensures fs[i].at in h.ptr && fs[i].at in h.size
  {
  }

  lemma InsertedLength(fs: seq<Block>, k: nat, b: Block)
    requires k <= |fs|
    ensures |Inserted(fs, k, b)| == |fs| + 1
  {
  }
}
