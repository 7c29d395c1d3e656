/** Where every unit of the arena is: in a free block or in one handed out. */
module KrArena {
  import opened KrSpec
  import opened Seqs

  /** Free and handed-out blocks partition the arena `[lo, hi)`, none overlapping. */
  ghost predicate Arena(fs: seq<Block>, us: seq<Block>, base: int, lo: int, hi: int) {
    && Ring(fs, base, lo, hi)
    && Disjoint(us) && Positive(us)
    && Units(fs) !! Units(us)
    && Units(fs) + Units(us) == Span(lo, hi - lo)
  }

  ghost predicate Positive(us: seq<Block>) {
    forall i :: 0 <= i < |us| ==> us[i].size > 0
  }

  /** The two lists hold exactly the units obtained from `sbrk`. */
  lemma Conservation(fs: seq<Block>, us: seq<Block>, base: int, lo: int, hi: int)
    requires Arena(fs, us, base, lo, hi)
    ensures Total(fs) + Total(us) == hi - lo
  {
    PiecesSized(fs, base, lo, hi);
    assert Disjoint(fs) by { GappedDisjoint(fs); }
    UnitsCount(fs);
    UnitsCount(us);
    SpanSize(lo, hi - lo);
    assert |Units(fs) + Units(us)| == |Units(fs)| + |Units(us)|;
  }

  lemma GappedDisjoint(fs: seq<Block>)
    requires Gapped(fs)
    ensures Disjoint(fs)
  {
  }

  lemma UnitIn(bs: seq<Block>, i: nat, u: int)
    requires i < |bs| && bs[i].at <= u < bs[i].at + bs[i].size
    ensures u in Units(bs)
  {
    UnitsAt(bs, u);
  }

  /** A block handed out lies in the arena, apart from every free block. */
  lemma UsedApart(fs: seq<Block>, us: seq<Block>, j: nat, base: int, lo: int, hi: int)
    requires Arena(fs, us, base, lo, hi) && j < |us|
    ensures Piece(us[j], base, lo, hi) && us[j].size > 0
    ensures forall i :: 0 <= i < |fs| ==> Apart(fs[i], us[j]) && fs[i].at != us[j].at
  {
    var b := us[j];
    hide Units, Gapped, Span, Pieces, Disjoint;
    SpanAt(lo, hi - lo);
    UnitIn(us, j, b.at);
    UnitIn(us, j, b.at + b.size - 1);
    forall i | 0 <= i < |fs| ensures Apart(fs[i], b) && fs[i].at != b.at {
      var f := fs[i];
      PieceOf(fs, i, base, lo, hi);
      if f != Block(base, 0) {
        UnitIn(fs, i, f.at);
        if !Apart(f, b) {
          var u := if f.at < b.at then b.at else f.at;
          UnitIn(fs, i, u);
          UnitIn(us, j, u);
        }
      }
    }
  }

  lemma PieceOf(fs: seq<Block>, i: nat, base: int, lo: int, hi: int)
    requires Pieces(fs, base, lo, hi) && i < |fs|
    ensures Piece(fs[i], base, lo, hi) && lo <= hi && !(lo <= base <= hi)
  {
  }

  // ----- freeing

  lemma WithoutSpan(us: seq<Block>, j: nat)
    requires j < |us|
    ensures Units(us) == Units(Without(us, j)) + Span(us[j].at, us[j].size)
  {
    hide Units, Span;
    var a, c := us[..j], us[j + 1..];
    assert us == a + [us[j]] + c;
    UnitsConcat(a, [us[j]]);
    UnitsConcat(a + [us[j]], c);
    UnitsConcat(a, c);
    UnitsOne(us[j]);
  }

  lemma WithoutApart(us: seq<Block>, j: nat)
    requires j < |us| && Disjoint(us) && Positive(us)
    ensures Disjoint(Without(us, j)) && Positive(Without(us, j))
    ensures forall i :: 0 <= i < |Without(us, j)| ==> Apart(Without(us, j)[i], us[j])
  {
    hide Without, Apart;
    var r := Without(us, j);
    WithoutLength(us, j);
    forall m | 0 <= m < |r| ensures r[m] == us[if m < j then m else m + 1] {
      WithoutAt(us, j, m);
    }
    forall m | 0 <= m < |r| ensures Apart(r[m], us[j]) {
      if m >= j { assert Apart(us[j], us[m + 1]); ApartSym(us[j], us[m + 1]); }
    }
  }

  lemma ApartSym(b: Block, c: Block)
    requires Apart(b, c)
    ensures Apart(c, b)
  {
  }

  lemma WithoutUnits(us: seq<Block>, j: nat)
    requires j < |us| && Disjoint(us) && Positive(us)
    ensures Disjoint(Without(us, j)) && Positive(Without(us, j))
    ensures Units(us) == Units(Without(us, j)) + Span(us[j].at, us[j].size)
    ensures Units(Without(us, j)) !! Span(us[j].at, us[j].size)
  {
    hide Without, Units, Span, Disjoint, Positive;
    WithoutSpan(us, j);
    WithoutApart(us, j);
    var r := Without(us, j);
    SpanAt(us[j].at, us[j].size);
    forall u | u in Span(us[j].at, us[j].size) ensures u !in Units(r) {
      UnitsAt(r, u);
      assert forall i :: 0 <= i < |r| ==> Apart(r[i], us[j]);
    }
  }

  lemma FreeArena(fs: seq<Block>, us: seq<Block>, j: nat, base: int, lo: int, hi: int)
    requires Arena(fs, us, base, lo, hi) && j < |us|
    ensures Arena(Freed(fs, us[j]), Without(us, j), base, lo, hi)
  {
    hide Units, Gapped, Span, Pieces, Disjoint, Freed, Positive, Without;
    UsedApart(fs, us, j, base, lo, hi);
    FreedRing(fs, us[j], base, lo, hi);
    PiecesSized(fs, base, lo, hi);
    FreedUnits(fs, us[j]);
    WithoutUnits(us, j);
  }

  // ----- handing out

  /** Block `i` with `n` units cut off its far end; the whole block when that is all it has. */
  function Carved(fs: seq<Block>, i: nat, n: int): seq<Block>
    requires i < |fs|
  {
    if fs[i].size == n then Without(fs, i)
    else fs[i := Block(fs[i].at, fs[i].size - n)]
  }

  function Cut(b: Block, n: int): Block {
    Block(b.at + b.size - n, n)
  }

  /** A block of the carved list: the cut block shorter, the others as they were. */
  lemma CarvedAt(fs: seq<Block>, i: nat, n: int, j: nat)
    requires i < |fs| && j < |Carved(fs, i, n)|
    ensures |Carved(fs, i, n)| == if fs[i].size == n then |fs| - 1 else |fs|
    ensures var o := if fs[i].size == n && j >= i then j + 1 else j;
      Carved(fs, i, n)[j] == if o == i then Block(fs[i].at, fs[i].size - n) else fs[o]
  {
    if fs[i].size == n { WithoutAt(fs, i, j); }
  }

  lemma CarvedRing(fs: seq<Block>, i: nat, n: int, base: int, lo: int, hi: int)
    requires Ring(fs, base, lo, hi) && i < |fs| && 0 < n <= fs[i].size
    ensures Ring(Carved(fs, i, n), base, lo, hi)
  {
    CarvedPieces(fs, i, n, base, lo, hi);
    var gs := Carved(fs, i, n);
    hide Pieces, Piece, Gapped, Carved;
    forall a, b | 0 <= a < b < |gs| ensures gs[a].at < gs[b].at && gs[a].at + gs[a].size < gs[b].at {
      CarvedAt(fs, i, n, a);
      CarvedAt(fs, i, n, b);
      var d := if fs[i].size == n then 1 else 0;
      Ends(fs, if a < i then a else a + d, if b < i then b else b + d);
    }
    GappedIf(gs);
  }

  lemma GappedIf(gs: seq<Block>)
    requires forall a, b :: 0 <= a < b < |gs| ==> gs[a].at < gs[b].at && gs[a].at + gs[a].size < gs[b].at
    ensures Gapped(gs)
  {
  }

  lemma CarvedPieces(fs: seq<Block>, i: nat, n: int, base: int, lo: int, hi: int)
    requires Pieces(fs, base, lo, hi) && i < |fs| && 0 < n <= fs[i].size
    ensures Pieces(Carved(fs, i, n), base, lo, hi)
  {
    var m :| 0 <= m < |fs| && fs[m] == Block(base, 0);
    var gs := Carved(fs, i, n);
    var c := if fs[i].size == n && m > i then m - 1 else m;
    assert |fs| > 1;
    assert |gs| == if fs[i].size == n then |fs| - 1 else |fs|;
    CarvedAt(fs, i, n, c);
    hide Carved;
    assert gs[c] == Block(base, 0);
    forall j | 0 <= j < |gs| ensures Piece(gs[j], base, lo, hi) {
      CarvedAt(fs, i, n, j);
      assert Piece(fs[i], base, lo, hi);
    }
  }

  lemma ShorterUnits(fs: seq<Block>, i: nat, n: int)
    requires i < |fs| && 0 < n < fs[i].size
    ensures Units(fs) == Units(fs[i := Block(fs[i].at, fs[i].size - n)]) + Span(Cut(fs[i], n).at, n)
  {
    hide Units, Span;
    var rest := Block(fs[i].at, fs[i].size - n);
    var gs := fs[i := rest];
    WithoutSpan(fs, i);
    WithoutSpan(gs, i);
    assert Without(fs, i) == Without(gs, i);
    SpanJoin(fs[i].at, fs[i].size - n, n);
  }

  lemma CarvedUnits(fs: seq<Block>, i: nat, n: int)
    requires i < |fs| && 0 < n <= fs[i].size && Gapped(fs)
    ensures Units(fs) == Units(Carved(fs, i, n)) + Span(Cut(fs[i], n).at, n)
    ensures Units(Carved(fs, i, n)) !! Span(Cut(fs[i], n).at, n)
  {
    hide Units, Span, Gapped, Without;
    if fs[i].size == n { WithoutSpan(fs, i); } else { ShorterUnits(fs, i, n); }
    CarvedApart(fs, i, n);
  }

  lemma CarvedApart(fs: seq<Block>, i: nat, n: int)
    requires i < |fs| && 0 < n <= fs[i].size && Gapped(fs)
    ensures Units(Carved(fs, i, n)) !! Span(Cut(fs[i], n).at, n)
  {
    hide Units, Span, Gapped, Carved;
    var gs, cut := Carved(fs, i, n), Cut(fs[i], n);
    SpanAt(cut.at, n);
    forall u | u in Span(cut.at, n) ensures u !in Units(gs) {
      UnitsAt(gs, u);
      forall j | 0 <= j < |gs| ensures !(gs[j].at <= u < gs[j].at + gs[j].size) {
        CarvedAt(fs, i, n, j);
        var o := if fs[i].size == n && j >= i then j + 1 else j;
        if o < i { Ends(fs, o, i); }
        if o > i { Ends(fs, i, o); }
      }
    }
  }

  lemma AppendUnits(us: seq<Block>, b: Block)
    requires Disjoint(us) && Positive(us) && b.size > 0 && Units(us) !! Span(b.at, b.size)
    ensures Disjoint(us + [b]) && Positive(us + [b]) && Units(us + [b]) == Units(us) + Span(b.at, b.size)
  {
    UnitsConcat(us, [b]);
    UnitsOne(b);
    SpanAt(b.at, b.size);
    forall i | 0 <= i < |us| ensures Apart(us[i], b) {
      if !Apart(us[i], b) {
        var u := if us[i].at < b.at then b.at else us[i].at;
        UnitIn(us, i, u);
      }
    }
  }

  lemma CarveArena(fs: seq<Block>, us: seq<Block>, i: nat, n: int, base: int, lo: int, hi: int)
    requires Arena(fs, us, base, lo, hi) && i < |fs| && 0 < n <= fs[i].size
    ensures Arena(Carved(fs, i, n), us + [Cut(fs[i], n)], base, lo, hi)
  {
    hide Units, Gapped, Span, Pieces, Disjoint, Positive, Carved;
    CarvedRing(fs, i, n, base, lo, hi);
    CarvedUnits(fs, i, n);
    AppendUnits(us, Cut(fs[i], n));
  }

  /** New memory at the top, handed out whole. */
  lemma GrowArena(fs: seq<Block>, us: seq<Block>, n: int, base: int, lo: int, hi: int)
    requires Arena(fs, us, base, lo, hi) && n > 0 && !(lo <= base <= hi + n)
    ensures Arena(fs, us + [Block(hi, n)], base, lo, hi + n)
  {
    hide Units, Gapped, Span, Disjoint, Positive;
    PieceOf(fs, 0, base, lo, hi) by { BaseIn(fs, base, lo, hi); }
    SpanJoin(lo, hi - lo, n);
    SpanAt(hi, n);
    SpanAt(lo, hi - lo);
    assert lo + (hi - lo) == hi && (hi - lo) + n == hi + n - lo;
    forall u | u in Span(hi, n) ensures u !in Units(us) && u !in Units(fs) {
      assert u !in Span(lo, hi - lo);
    }
    AppendUnits(us, Block(hi, n));
    WiderPieces(fs, base, lo, hi, n);
  }

  lemma WiderPieces(fs: seq<Block>, base: int, lo: int, hi: int, n: int)
    requires Pieces(fs, base, lo, hi) && n > 0 && !(lo <= base <= hi + n)
    ensures Pieces(fs, base, lo, hi + n)
  {
  }

  // ----- the searches

  /** How many steps round a ring of `n` lead from place `i` to place `j`. */
  function Dist(i: nat, j: nat, n: nat): (d: int)
    ensures i < n && j < n ==> 0 <= d < n
  {
    if i <= j then j - i else j + n - i
  }

  /** The search for the place of `bp` stops at the block it belongs behind, and only there. */
  lemma StopsAtPlace(fs: seq<Block>, k: nat, bp: int, i: nat)
    requires Gapped(fs) && i < |fs| && Splits(fs, k, bp)
    ensures var p, q := fs[i].at, fs[After(i, |fs|)].at;
      ((p < bp && bp < q) || (p >= q && (bp > p || bp < q))) <==> i == Prior(k, |fs|)
  {
    var n := |fs|;
    if i + 1 < n { Ends(fs, i, i + 1); } else if i > 0 { Ends(fs, 0, i); }
  }

  /** Unlinking a block from behind the one before it. */
  lemma RemoveCycle(fs: seq<Block>, ptr: map<int, int>, i: nat)
    requires Cycle(fs, ptr) && Unique(fs) && i < |fs| && |fs| > 1
    ensures fs[i].at in ptr
    ensures Cycle(Without(fs, i), ptr[fs[Prior(i, |fs|)].at := ptr[fs[i].at]])
  {
    var n, h := |fs|, Prior(i, |fs|);
    var gs, p := Without(fs, i), ptr[fs[h].at := ptr[fs[i].at]];
    WithoutAt(fs, i, 0);
    hide Cycle, Unique, Without;
    LinkAt(fs, ptr, i);
    hide Link;
    forall j | 0 <= j < |gs| ensures Link(gs, p, j) {
      RemoveLink(fs, ptr, i, j);
    }
    CycleLinks(gs, p);
  }

  lemma RemoveLink(fs: seq<Block>, ptr: map<int, int>, i: nat, j: nat)
    requires Cycle(fs, ptr) && Unique(fs) && i < |fs| && j < |fs| - 1
    ensures fs[i].at in ptr && |Without(fs, i)| == |fs| - 1
    ensures Link(Without(fs, i), ptr[fs[Prior(i, |fs|)].at := ptr[fs[i].at]], j)
  {
    hide Cycle, Unique, Without;
    var n, h := |fs|, Prior(i, |fs|);
    var o := if j < i then j else j + 1;
    LinkAt(fs, ptr, i);
    LinkAt(fs, ptr, o);
    WithoutAt(fs, i, j);
    WithoutAt(fs, i, After(j, n - 1));
    if o != h { Differ(fs, o, h); }
  }

  lemma CutApart(fs: seq<Block>, i: nat, n: int, j: nat)
    requires Gapped(fs) && i < |fs| && j < |fs| && i != j && 0 < n < fs[i].size
    ensures fs[j].at != fs[i].at && fs[j].at != Cut(fs[i], n).at
  {
    if j < i { Ends(fs, j, i); } else { Ends(fs, i, j); }
  }

  lemma SameCycle(fs: seq<Block>, gs: seq<Block>, ptr: map<int, int>)
    requires Cycle(fs, ptr) && |fs| == |gs| && forall j :: 0 <= j < |fs| ==> fs[j].at == gs[j].at
    ensures Cycle(gs, ptr)
  {
  }

  lemma WithoutSizes(fs: seq<Block>, size: map<int, int>, i: nat)
    requires Sizes(fs, size) && i < |fs|
    ensures Sizes(Without(fs, i), size)
  {
    if |fs| > 1 { WithoutAt(fs, i, 0); }
    var gs := Without(fs, i);
    hide Without;
    forall j | 0 <= j < |gs| ensures gs[j].at in size && size[gs[j].at] == gs[j].size {
      WithoutAt(fs, i, j);
    }
  }

  lemma ShorterSizes(fs: seq<Block>, size: map<int, int>, i: nat, n: int)
    requires Sizes(fs, size) && Gapped(fs) && i < |fs| && 0 < n < fs[i].size
    ensures Sizes(fs[i := Block(fs[i].at, fs[i].size - n)], size[fs[i].at := fs[i].size - n][Cut(fs[i], n).at := n])
  {
    hide Gapped;
    forall j | 0 <= j < |fs| && j != i ensures fs[j].at != fs[i].at && fs[j].at != Cut(fs[i], n).at {
      CutApart(fs, i, n, j);
    }
  }

  lemma Crowded(fs: seq<Block>, base: int, lo: int, hi: int, i: nat)
    requires Pieces(fs, base, lo, hi) && i < |fs| && fs[i].size > 0
    ensures |fs| > 1
  {
  }

  /** What handing out a whole or cut block writes. */
  lemma CarvedHeaders(fs: seq<Block>, h: Headers, i: nat, n: int, base: int, lo: int, hi: int)
    requires Ring(fs, base, lo, hi) && Cycle(fs, h.ptr) && Sizes(fs, h.size) && i < |fs| && 0 < n <= fs[i].size
    ensures fs[i].at in h.ptr && |fs| > 1
    ensures var h' := if fs[i].size == n then Headers(h.ptr[fs[Prior(i, |fs|)].at := h.ptr[fs[i].at]], h.size)
        else Headers(h.ptr, h.size[fs[i].at := fs[i].size - n][Cut(fs[i], n).at := n]);
      && Cycle(Carved(fs, i, n), h'.ptr) && Sizes(Carved(fs, i, n), h'.size)
      && Cut(fs[i], n).at in h'.size && h'.size[Cut(fs[i], n).at] == n
  {
    hide Pieces, Gapped, Ascending, Unique, Cycle, Sizes, Without;
    Crowded(fs, base, lo, hi, i);
    GappedAscending(fs);
    SizeAt(fs, h.size, i);
    LinkAt(fs, h.ptr, i);
    if fs[i].size == n {
      RemoveCycle(fs, h.ptr, i);
      WithoutSizes(fs, h.size, i);
    } else {
      ShorterSizes(fs, h.size, i, n);
      SameCycle(fs, fs[i := Block(fs[i].at, fs[i].size - n)], h.ptr);
    }
  }

  // ----- new memory

  /** The blocks below the top of the arena. */
  lemma TopPlace(fs: seq<Block>, base: int, lo: int, hi: int, n: int)
    requires Ring(fs, base, lo, hi) && n > 0 && !(lo <= base <= hi + n)
    ensures forall i :: 0 <= i < |fs| ==> Apart(fs[i], Block(hi, n)) && fs[i].at != hi
  {
    forall i | 0 <= i < |fs| ensures Apart(fs[i], Block(hi, n)) && fs[i].at != hi {
      assert Piece(fs[i], base, lo, hi);
    }
  }

  /** Place of the block that holds new memory of `n` units at `hi` once it is freed. */
  ghost function TopIndex(fs: seq<Block>, hi: int): int {
    var k := Place(fs, hi);
    if k > 0 && fs[k - 1].at + fs[k - 1].size == hi then k - 1 else k
  }

  /** Nothing follows new memory directly. */
  lemma TopAfter(fs: seq<Block>, base: int, lo: int, hi: int, n: int, k: nat)
    requires Ring(fs, base, lo, hi) && n > 0 && !(lo <= base <= hi + n) && Splits(fs, k, hi)
    ensures !Touch(Inserted(fs, k, Block(hi, n)), k)
  {
    var b := Block(hi, n);
    InsertedAt(fs, k, b, k);
    hide Inserted, Gapped, Pieces;
    if k < |fs| {
      InsertedAt(fs, k, b, k + 1);
      PieceOf(fs, k, base, lo, hi);
    }
  }

  lemma TopBefore(fs: seq<Block>, base: int, lo: int, hi: int, n: int, k: nat)
    requires Ring(fs, base, lo, hi) && n > 0 && !(lo <= base <= hi + n) && Splits(fs, k, hi) && k > 0
    ensures var ins := Inserted(fs, k, Block(hi, n));
      && |ins| == |fs| + 1 && ins[k - 1] == fs[k - 1]
      && (Touch(ins, k - 1) <==> fs[k - 1].at + fs[k - 1].size == hi)
    ensures fs[k - 1].at + fs[k - 1].size == hi ==> fs[k - 1].size > 0
  {
    var b := Block(hi, n);
    InsertedAt(fs, k, b, k);
    InsertedAt(fs, k, b, k - 1);
    hide Inserted, Gapped, Pieces;
    PieceOf(fs, k - 1, base, lo, hi);
  }

  /** The neighbours of new memory: only the block below can touch it. */
  lemma TopNeighbours(fs: seq<Block>, base: int, lo: int, hi: int, n: int)
    requires Ring(fs, base, lo, hi) && n > 0 && !(lo <= base <= hi + n)
    ensures var k, ins := Place(fs, hi), Inserted(fs, Place(fs, hi), Block(hi, n));
      && |ins| == |fs| + 1 && ins[k] == Block(hi, n) && !Touch(ins, k)
      && (k > 0 ==> ins[k - 1] == fs[k - 1] && (Touch(ins, k - 1) <==> fs[k - 1].at + fs[k - 1].size == hi))
      && (k > 0 && fs[k - 1].at + fs[k - 1].size == hi ==> fs[k - 1].size > 0)
  {
    var k, b := Place(fs, hi), Block(hi, n);
    TopPlace(fs, base, lo, hi, n);
    PlaceSplits(fs, hi);
    InsertedAt(fs, k, b, k);
    hide Inserted, Gapped, Place, Pieces, Ring, Splits, Touch;
    TopAfter(fs, base, lo, hi, n, k);
    if k > 0 { TopBefore(fs, base, lo, hi, n, k); }
  }

  /** The ring after new memory is freed: the block below grown by it, or it on its own. */
  lemma TopFreed(fs: seq<Block>, base: int, lo: int, hi: int, n: int)
    requires Ring(fs, base, lo, hi) && n > 0 && !(lo <= base <= hi + n)
    ensures var k, t, gs := Place(fs, hi), TopIndex(fs, hi), Freed(fs, Block(hi, n));
      && 0 <= t <= k <= |fs|
      && (t < k ==> t == k - 1 && fs[t].size > 0 && fs[t].at + fs[t].size == hi
                    && gs == fs[t := Block(fs[t].at, fs[t].size + n)])
      && (t >= k ==> t == k && gs == Inserted(fs, k, Block(hi, n)))
  {
    var k, b := Place(fs, hi), Block(hi, n);
    hide Gapped, Pieces, Piece, Place, Splits;
    TopNeighbours(fs, base, lo, hi, n);
    if TopIndex(fs, hi) < k {
      MergeInserted(fs, k, b);
    }
  }

  lemma MergeInserted(fs: seq<Block>, k: nat, b: Block)
    requires 0 < k <= |fs|
    ensures Merged(Inserted(fs, k, b), k - 1) == fs[k - 1 := Block(fs[k - 1].at, fs[k - 1].size + b.size)]
  {
    var ins := Inserted(fs, k, b);
    var gs, hs := Merged(ins, k - 1), fs[k - 1 := Block(fs[k - 1].at, fs[k - 1].size + b.size)];
    InsertedAt(fs, k, b, k - 1);
    InsertedAt(fs, k, b, k);
    MergedAt(ins, k - 1, 0);
    hide Inserted, Merged;
    forall j | 0 <= j < |fs| ensures gs[j] == hs[j] {
      MergedAt(ins, k - 1, j);
      InsertedAt(fs, k, b, if j < k then j else j + 1);
    }
  }

  ghost predicate SizeIn(fs: seq<Block>, size: int) {
    exists m :: 0 <= m < |fs| && fs[m].size == size
  }

  /** But for block `t`, the blocks of `gs` have sizes of blocks of `fs`. */
  ghost predicate OthersFrom(gs: seq<Block>, t: int, fs: seq<Block>) {
    forall i :: 0 <= i < |gs| && i != t ==> SizeIn(fs, gs[i].size)
  }

  /** New memory, freed and then cut off again, leaves the list as it was. */
  lemma TopRestored(fs: seq<Block>, base: int, lo: int, hi: int, n: int)
    requires Ring(fs, base, lo, hi) && n > 0 && !(lo <= base <= hi + n)
    ensures var gs, t := Freed(fs, Block(hi, n)), TopIndex(fs, hi);
      && 0 <= t < |gs| && gs[t].size >= n && Carved(gs, t, n) == fs && Cut(gs[t], n) == Block(hi, n)
      && OthersFrom(gs, t, fs)
  {
    hide Freed, TopIndex, Inserted, Gapped, Pieces, Piece, Place, Without;
    var gs, t, k, b := Freed(fs, Block(hi, n)), TopIndex(fs, hi), Place(fs, hi), Block(hi, n);
    TopFreed(fs, base, lo, hi, n);
    if t < k {
      assert gs[t := fs[t]] == fs;
      forall i | 0 <= i < |gs| && i != t ensures SizeIn(fs, gs[i].size) {
        assert i < |fs| && gs[i].size == fs[i].size;
      }
    } else {
      InsertedAt(fs, k, b, k);
      InsertWithout(fs, k, b);
      forall i | 0 <= i < |gs| && i != t ensures SizeIn(fs, gs[i].size) {
        InsertedAt(fs, k, b, i);
        var m := Before(i, k);
        assert 0 <= m < |fs| && gs[i].size == fs[m].size;
      }
    }
  }

  lemma InsertWithout(fs: seq<Block>, k: nat, b: Block)
    requires k <= |fs|
    ensures k < |Inserted(fs, k, b)| && Without(Inserted(fs, k, b), k) == fs
  {
  }

  /** The search pointer after new memory is freed stands on or just before its block. */
  lemma TopNext(fs: seq<Block>, base: int, lo: int, hi: int, n: int) returns (j: nat)
    requires Ring(fs, base, lo, hi) && n > 0 && !(lo <= base <= hi + n)
    ensures var gs, t, k := Freed(fs, Block(hi, n)), TopIndex(fs, hi), Place(fs, hi);
      && fs != [] && 0 <= t < |gs|
      && j < |gs| && gs[j].at == fs[Prior(k, |fs|)].at && (j == t || After(j, |gs|) == t)
  {
    hide Freed, TopIndex, Inserted, Gapped, Pieces, Piece, Place, Without;
    var k, b := Place(fs, hi), Block(hi, n);
    TopFreed(fs, base, lo, hi, n);
    BaseIn(fs, base, lo, hi);
    var gs, t := Freed(fs, b), TopIndex(fs, hi);
    if t < k {
      j := t;
    } else {
      j := if k == 0 then |fs| else k - 1;
      InsertedAt(fs, k, b, j);
    }
  }

  // ----- giving back what was just handed out

  lemma {:induction false} PlaceUnique(fs: seq<Block>, k: nat, at: int)
    requires Splits(fs, k, at)
    ensures Place(fs, at) == k
    decreases |fs|
  {
    if fs != [] && k > 0 {
      PlaceUnique(fs[1..], k - 1, at);
    }
  }

  lemma CarvedSplits(fs: seq<Block>, i: nat, n: int)
    requires Gapped(fs) && i < |fs| && 0 < n <= fs[i].size
    ensures Splits(Carved(fs, i, n), if fs[i].size == n then i else i + 1, Cut(fs[i], n).at)
  {
    var gs, at := Carved(fs, i, n), Cut(fs[i], n).at;
    var k := if fs[i].size == n then i else i + 1;
    CarvedLength(fs, i, n);
    hide Carved, Gapped;
    forall j | 0 <= j < |gs| ensures if j < k then gs[j].at < at else at < gs[j].at {
      CarvedAt(fs, i, n, j);
      var o := if fs[i].size == n && j >= i then j + 1 else j;
      if o < i { Ends(fs, o, i); }
      if i < o { Ends(fs, i, o); }
    }
  }

  lemma CarvedLength(fs: seq<Block>, i: nat, n: int)
    requires i < |fs|
    ensures |Carved(fs, i, n)| == if fs[i].size == n then |fs| - 1 else |fs|
  {
  }

  /** A freed block rejoins exactly the block it was cut from, whether whole or in part. */
  lemma FreeUndoesAlloc(fs: seq<Block>, i: nat, n: int)
    requires Gapped(fs) && i < |fs| && 0 < n <= fs[i].size
    ensures Freed(Carved(fs, i, n), Cut(fs[i], n)) == fs
  {
    hide Gapped, Place, Splits, Without;
    var gs, b := Carved(fs, i, n), Cut(fs[i], n);
    CarvedSplits(fs, i, n);
    var k := if fs[i].size == n then i else i + 1;
    PlaceUnique(gs, k, b.at);
    var ins := Inserted(gs, k, b);
    if fs[i].size == n {
      WholeBack(fs, i);
      if i > 0 { Ends(fs, i - 1, i); }
      if i + 1 < |fs| { Ends(fs, i, i + 1); }
    } else {
      PartBack(fs, i, n);
      if i + 1 < |fs| { Ends(fs, i, i + 1); }
    }
  }

  lemma WholeBack(fs: seq<Block>, i: nat)
    requires i < |fs|
    ensures Inserted(Without(fs, i), i, fs[i]) == fs
  {
  }

  lemma PartBack(fs: seq<Block>, i: nat, n: int)
    requires i < |fs| && 0 < n < fs[i].size
    ensures var ins := Inserted(fs[i := Block(fs[i].at, fs[i].size - n)], i + 1, Cut(fs[i], n));
      && |ins| == |fs| + 1 && ins[i + 1] == Cut(fs[i], n) && Touch(ins, i) && Merged(ins, i) == fs
      && (i + 1 < |fs| ==> ins[i + 2] == fs[i + 1])
  {
    var gs, b := fs[i := Block(fs[i].at, fs[i].size - n)], Cut(fs[i], n);
    var ins := Inserted(gs, i + 1, b);
    InsertedAt(gs, i + 1, b, i);
    InsertedAt(gs, i + 1, b, i + 1);
    if i + 1 < |fs| { InsertedAt(gs, i + 1, b, i + 2); }
    MergeInserted(gs, i + 1, b);
    assert fs == gs[i := fs[i]];
  }
}
