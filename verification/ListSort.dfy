/** The benchmark's linked list: in-place bottom-up mergesort, reversal, and removal that can
    be undone.  Nodes are cells of one memory block, so a pointer is an index. */
module ListSort {
  import opened ListSpec
  import opened Seqs

  ghost function Last(xs: seq<int>): int {
    if xs == [] then NULL else xs[|xs| - 1]
  }

  /** A merge in progress: `out` is linked up to `tail`, `a` remains of the first run, and
      `b` is the rest of the second run followed by everything not yet merged. */
  ghost predicate Merging(next: seq<int>, out: seq<int>, a: seq<int>, b: seq<int>) {
    && Distinct(out + a + b)
    && Path(next, out) && Path(next, a) && Path(next, b)
    && (b != [] ==> next[Last(b)] == NULL)
  }

  ghost function Linked(next: seq<int>, tail: int, e: int): seq<int>
    requires tail == NULL || 0 <= tail < |next|
  {
    if tail == NULL then next else next[tail := e]
  }

  lemma PathWrite(next: seq<int>, xs: seq<int>, i: int, v: int)
    requires Path(next, xs) && 0 <= i < |next| && i !in xs
    ensures Path(next[i := v], xs)
  {
  }

  lemma PathExtend(next: seq<int>, out: seq<int>, e: int)
    requires Path(next, out) && Distinct(out) && 0 <= e < |next|
    ensures out != [] ==> 0 <= Last(out) < |next|
    ensures Path(Linked(next, Last(out), e), out + [e])
  {
  }

  lemma PathTail(next: seq<int>, xs: seq<int>)
    requires Path(next, xs) && xs != []
    ensures Path(next, xs[1..])
    ensures 0 <= xs[0] < |next| && (|xs| > 1 ==> next[xs[0]] == xs[1])
  {
  }

  lemma Parts(out: seq<int>, a: seq<int>, b: seq<int>)
    requires Distinct(out + a + b)
    ensures Distinct(out) && Distinct(a) && Distinct(b)
    ensures forall x :: !(x in out && x in a) && !(x in out && x in b) && !(x in a && x in b)
  {
    var s := out + a + b;
    forall i, j | 0 <= i < j < |out| ensures out[i] != out[j] { assert s[i] == out[i] && s[j] == out[j]; }
    forall i, j | 0 <= i < j < |a| ensures a[i] != a[j] { assert s[|out| + i] == a[i] && s[|out| + j] == a[j]; }
    forall i, j | 0 <= i < j < |b| ensures b[i] != b[j] {
      assert s[|out| + |a| + i] == b[i] && s[|out| + |a| + j] == b[j];
    }
    forall i, j | 0 <= i < |out| && 0 <= j < |a| ensures out[i] != a[j] { assert s[i] == out[i] && s[|out| + j] == a[j]; }
    forall i, j | 0 <= i < |out| && 0 <= j < |b| ensures out[i] != b[j] {
      assert s[i] == out[i] && s[|out| + |a| + j] == b[j];
    }
    forall i, j | 0 <= i < |a| && 0 <= j < |b| ensures a[i] != b[j] {
      assert s[|out| + i] == a[i] && s[|out| + |a| + j] == b[j];
    }
  }

  /** The next node comes from the first run. */
  lemma FromP(next: seq<int>, out: seq<int>, a: seq<int>, b: seq<int>)
    requires Merging(next, out, a, b) && a != []
    ensures Last(out) == NULL || 0 <= Last(out) < |next|
    ensures Merging(Linked(next, Last(out), a[0]), out + [a[0]], a[1..], b)
    ensures 0 <= a[0] < |next| && (|a| > 1 ==> next[a[0]] == a[1])
  {
    hide Distinct, Path;
    Parts(out, a, b);
    assert (out + [a[0]]) + a[1..] + b == out + a + b;
    Ends(next, out, a, b);
    PathExtend(next, out, a[0]);
    PathTail(next, a);
    if out != [] {
      PathWrite(next, a[1..], Last(out), a[0]);
      PathWrite(next, b, Last(out), a[0]);
    }
  }

  lemma MergePaths(next: seq<int>, out: seq<int>, a: seq<int>, b: seq<int>)
    requires Merging(next, out, a, b)
    ensures Path(next, out) && Path(next, a) && Path(next, b)
  {
  }

  lemma Ends(next: seq<int>, out: seq<int>, a: seq<int>, b: seq<int>)
    requires Path(next, out) && Path(next, a) && Path(next, b)
    ensures out != [] ==> 0 <= Last(out) < |next| && Last(out) in out
    ensures b != [] ==> 0 <= Last(b) < |next| && Last(b) in b && 0 <= b[0] < |next|
    ensures a != [] ==> 0 <= a[0] < |next|
    ensures a != [] ==> forall x :: x in a[1..] ==> x in a
    ensures b != [] ==> forall x :: x in b[1..] ==> x in b
  {
  }

  /** The next node comes from the second run. */
  lemma FromQ(next: seq<int>, out: seq<int>, a: seq<int>, b: seq<int>)
    requires Merging(next, out, a, b) && b != []
    ensures Last(out) == NULL || 0 <= Last(out) < |next|
    ensures Merging(Linked(next, Last(out), b[0]), out + [b[0]], a, b[1..])
    ensures 0 <= b[0] < |next| && next[b[0]] == Head(b[1..])
  {
    hide Distinct, Path;
    Parts(out, a, b);
    MoveDistinct(out, a, b);
    Ends(next, out, a, b);
    PathExtend(next, out, b[0]);
    PathTail(next, b);
    if out != [] {
      PathWrite(next, a, Last(out), b[0]);
      PathWrite(next, b[1..], Last(out), b[0]);
    }
  }

  lemma MoveDistinct(out: seq<int>, a: seq<int>, b: seq<int>)
    requires Distinct(out + a + b) && b != []
    ensures Distinct(out + [b[0]] + a + b[1..])
  {
    var s, t := out + a + b, out + [b[0]] + a + b[1..];
    assert b == [b[0]] + b[1..];
    assert multiset(s) == multiset(t);
    PermutedDistinct(s, t);
  }

  lemma MergeInside(next: seq<int>, out: seq<int>, a: seq<int>, b: seq<int>, w: nat)
    requires Merging(next, out, a, b)
    ensures Inside(a, |next|) && Inside(b, |next|) && Inside(Take(b, w), |next|)
  {
  }

  lemma Associate(out: seq<int>, e: int, r: seq<int>, s: seq<int>)
    requires s == [e] + r
    ensures (out + [e]) + r == out + s
  {
  }

  lemma MergeFromP(info: seq<int>, cmp: (int, int) -> int, out: seq<int>, a: seq<int>, m: seq<int>)
    requires Inside(a, |info|) && Inside(m, |info|) && a != []
    requires m == [] || cmp(info[a[0]], info[m[0]]) <= 0
    ensures Inside(a[1..], |info|)
    ensures (out + [a[0]]) + Merge(info, cmp, a[1..], m) == out + Merge(info, cmp, a, m)
  {
    if m == [] { MergeNil(info, cmp, a); MergeNil(info, cmp, a[1..]); assert a == [a[0]] + a[1..]; }
    Associate(out, a[0], Merge(info, cmp, a[1..], m), Merge(info, cmp, a, m));
  }

  lemma MergeNil(info: seq<int>, cmp: (int, int) -> int, a: seq<int>)
    requires Inside(a, |info|)
    ensures Merge(info, cmp, a, []) == a && Merge(info, cmp, [], a) == a
  {
  }

  lemma MergeStepQ(info: seq<int>, cmp: (int, int) -> int, out: seq<int>, a: seq<int>, m: seq<int>)
    requires Inside(a, |info|) && Inside(m, |info|) && m != []
    requires a == [] || cmp(info[a[0]], info[m[0]]) > 0
    ensures Inside(m[1..], |info|)
    ensures (out + [m[0]]) + Merge(info, cmp, a, m[1..]) == out + Merge(info, cmp, a, m)
  {
    if a == [] { MergeNil(info, cmp, m); MergeNil(info, cmp, m[1..]); assert m == [m[0]] + m[1..]; }
    Associate(out, m[0], Merge(info, cmp, a, m[1..]), Merge(info, cmp, a, m));
  }

  lemma TakeTail(b: seq<int>, w: nat)
    requires b != [] && w > 0
    ensures Take(b, w) != [] && Take(b, w)[0] == b[0] && Take(b, w)[1..] == Take(b[1..], w - 1)
    ensures Drop(b[1..], w - 1) == Drop(b, w)
  {
  }

  lemma MergeFromQ(info: seq<int>, cmp: (int, int) -> int, out: seq<int>, a: seq<int>, b: seq<int>, w: nat)
    requires Inside(a, |info|) && Inside(Take(b, w), |info|) && b != [] && w > 0 && Inside(b, |info|)
    requires a == [] || cmp(info[a[0]], info[b[0]]) > 0
    ensures Inside(Take(b[1..], w - 1), |info|)
    ensures (out + [b[0]]) + Merge(info, cmp, a, Take(b[1..], w - 1)) == out + Merge(info, cmp, a, Take(b, w))
    ensures Drop(b[1..], w - 1) == Drop(b, w)
  {
    hide Merge, Take, Drop;
    TakeTail(b, w);
    MergeStepQ(info, cmp, out, a, Take(b, w));
  }

  lemma TakeHead(b: seq<int>, w: nat)
    ensures w == 0 || b == [] ==> Take(b, w) == [] && Drop(b, w) == b
    ensures w > 0 && b != [] ==> Take(b, w) != [] && Take(b, w)[0] == b[0]
  {
  }

  lemma LastHead(out: seq<int>, e: int)
    ensures Last(out + [e]) == e
    ensures Head(out + [e]) == if out == [] then e else Head(out)
    ensures Last(out) == NULL || Last(out) in out
  {
  }

  // ----- from one pair to the next, and from one pass to the next

  lemma SplitRest(next: seq<int>, out: seq<int>, rest: seq<int>, w: nat)
    requires Merging(next, out, [], rest) && rest != [] && w > 0
    ensures Merging(next, out, Take(rest, w), Drop(rest, w))
    ensures Take(rest, w) != [] && Take(rest, w)[0] == rest[0]
  {
    hide Distinct;
    assert out + [] + rest == out + Take(rest, w) + Drop(rest, w);
    SplitPath(next, rest, w);
  }

  lemma SplitPath(next: seq<int>, rest: seq<int>, w: nat)
    requires Path(next, rest)
    ensures Path(next, Take(rest, w)) && Path(next, Drop(rest, w))
    ensures Drop(rest, w) != [] ==> Last(Drop(rest, w)) == Last(rest)
  {
    if |rest| > w {
      forall i | 0 <= i < |rest| - w - 1 ensures next[rest[w..][i]] == rest[w..][i + 1] {
        assert next[rest[w + i]] == rest[w + i + 1];
      }
    }
  }

  lemma ListIsMerging(next: seq<int>, head: int, xs: seq<int>)
    requires List(next, head, xs)
    ensures Merging(next, [], [], xs)
  {
    assert [] + [] + xs == xs;
  }

  lemma MergedIsList(next: seq<int>, out: seq<int>)
    requires Merging(next, out, [], []) && out != []
    ensures 0 <= Last(out) < |next|
    ensures List(next[Last(out) := NULL], Head(out), out)
  {
    Parts(out, [], []);
    var n := next[Last(out) := NULL];
    forall i | 0 <= i < |out| - 1 ensures n[out[i]] == out[i + 1] {
      assert out[i] != Last(out);
    }
  }

  /** The pairs merged so far, `k` of them, and what the rest of the pass will add. */
  ghost predicate Progress(info: seq<int>, cmp: (int, int) -> int, cur: seq<int>, w: nat, out: seq<int>, rest: seq<int>, k: nat)
    requires w > 0
  {
    && Inside(cur, |info|) && Inside(rest, |info|)
    && out + Pass(info, cmp, rest, w) == Pass(info, cmp, cur, w)
    && |out| + |rest| == |cur|
    && (k == 0 <==> out == []) && (k == 1 ==> |out| <= 2 * w) && (k > 1 ==> |out| > 2 * w)
    && (k == 1 && rest != [] ==> |out| == 2 * w)
  }

  lemma ProgressStart(next: seq<int>, info: seq<int>, cmp: (int, int) -> int, head: int, cur: seq<int>, w: nat)
    requires w > 0 && List(next, head, cur) && |next| == |info| && cur != []
    ensures Progress(info, cmp, cur, w, [], cur, 0)
  {
    hide Pass;
    assert [] + Pass(info, cmp, cur, w) == Pass(info, cmp, cur, w);
  }

  lemma ProgressDone(info: seq<int>, cmp: (int, int) -> int, cur: seq<int>, w: nat, out: seq<int>, k: nat)
    requires w > 0 && cur != [] && Progress(info, cmp, cur, w, out, [], k)
    ensures Inside(cur, |info|) && out == Pass(info, cmp, cur, w) && out != []
    ensures k <= 1 <==> |cur| <= 2 * w
  {
  }

  /** Merging a pair permutes what is out and what is left. */
  lemma PairElements(info: seq<int>, cmp: (int, int) -> int, out: seq<int>, rest: seq<int>, w: nat)
    requires Inside(rest, |info|) && w > 0
    ensures var a, b := Take(rest, w), Drop(rest, w);
      && out + rest == out + a + b
      && Inside(a, |info|) && Inside(Take(b, w), |info|)
      && forall x :: x in (out + Merge(info, cmp, a, Take(b, w))) + Drop(b, w) ==> x in out + rest
  {
    hide Merge, Take, Drop, Inside;
    var a, b := Take(rest, w), Drop(rest, w);
    TakeDrop(rest, w, |info|);
    TakeDrop(b, w, |info|);
    MergeElements(info, cmp, a, Take(b, w));
    var m := Merge(info, cmp, a, Take(b, w));
    forall x | x in m ensures x in rest {
      assert x in multiset(m);
    }
  }

  lemma HeadNull(next: seq<int>, out: seq<int>, rest: seq<int>)
    requires Merging(next, out, [], rest)
    ensures Head(rest) == NULL <==> rest == []
    ensures rest != [] ==> Head(rest) == rest[0]
    ensures Inside(rest, |next|)
  {
  }

  lemma ProgressStep(info: seq<int>, cmp: (int, int) -> int, cur: seq<int>, w: nat, out: seq<int>, rest: seq<int>, k: nat)
    requires w > 0 && Progress(info, cmp, cur, w, out, rest, k) && rest != []
    ensures var a, b := Take(rest, w), Drop(rest, w);
      && Inside(a, |info|) && Inside(Take(b, w), |info|)
      && Progress(info, cmp, cur, w, out + Merge(info, cmp, a, Take(b, w)), Drop(b, w), k + 1)
  {
    hide Merge, Take, Drop, Inside;
    var a, b := Take(rest, w), Drop(rest, w);
    TakeDrop(rest, w, |info|);
    TakeDrop(b, w, |info|);
    var m, p := Merge(info, cmp, a, Take(b, w)), Pass(info, cmp, Drop(b, w), w);
    assert Pass(info, cmp, rest, w) == m + p;
    assert out + (m + p) == (out + m) + p;
  }

  // ----- removal

  datatype Cells = Cells(next: seq<int>, info: seq<int>)

  ghost function Removed(s: Cells, item: int): Cells
    requires |s.next| == |s.info| && 0 <= item < |s.next| && 0 <= s.next[item] < |s.next|
  {
    var ret := s.next[item];
    Cells(s.next[item := s.next[ret]][ret := NULL], s.info[item := s.info[ret]][ret := s.info[item]])
  }

  ghost function Undone(s: Cells, removed: int, modified: int): Cells
    requires |s.next| == |s.info| && 0 <= removed < |s.next| && 0 <= modified < |s.next|
  {
    Cells(s.next[removed := s.next[modified]][modified := removed],
          s.info[removed := s.info[modified]][modified := s.info[removed]])
  }

  /** Undoing a removal restores every link and every item. */
  lemma UndoRestores(s: Cells, item: int)
    requires |s.next| == |s.info| && 0 <= item < |s.next| && 0 <= s.next[item] < |s.next| && s.next[item] != item
    ensures Undone(Removed(s, item), s.next[item], item) == s
  {
  }

  ghost function Items(info: seq<int>, xs: seq<int>): seq<int>
    requires Inside(xs, |info|)
  {
    seq(|xs|, i requires 0 <= i < |xs| => info[xs[i]])
  }

  lemma Neighbours(next: seq<int>, head: int, xs: seq<int>, k: nat)
    requires List(next, head, xs) && k + 1 < |xs|
    ensures 0 <= xs[k] < |next| && 0 <= xs[k + 1] < |next|
    ensures next[xs[k]] == xs[k + 1] && xs[k] != xs[k + 1]
    ensures next[xs[k + 1]] == if k + 2 < |xs| then xs[k + 2] else NULL
  {
  }

  /** A removal at place `k` takes node `k + 1` out of the chain. */
  lemma RemoveUnlinks(next: seq<int>, head: int, xs: seq<int>, k: nat)
    requires List(next, head, xs) && k + 1 < |xs|
    ensures 0 <= xs[k] < |next| && 0 <= xs[k + 1] < |next|
    ensures List(next[xs[k] := next[xs[k + 1]]][xs[k + 1] := NULL], head, Without(xs, k + 1))
  {
    Neighbours(next, head, xs, k);
    var n := next[xs[k] := next[xs[k + 1]]][xs[k + 1] := NULL];
    var ys := Without(xs, k + 1);
    hide Without;
    forall j | 0 <= j < |ys| ensures n[ys[j]] == if j + 1 < |ys| then ys[j + 1] else NULL {
      WithoutAt(xs, k + 1, j);
      var i := if j < k + 1 then j else j + 1;
      assert ys[j] == xs[i] && xs[i] != xs[k + 1] && (i != k ==> xs[i] != xs[k]);
    }
  }

  /** A removal at place `k` takes item `k` off the list. */
  lemma RemoveItem(info: seq<int>, xs: seq<int>, k: nat)
    requires Distinct(xs) && Inside(xs, |info|) && k + 1 < |xs|
    ensures Inside(Without(xs, k + 1), |info|)
    ensures var i := info[xs[k] := info[xs[k + 1]]][xs[k + 1] := info[xs[k]]];
      Items(i, Without(xs, k + 1)) == Without(Items(info, xs), k)
  {
    var i := info[xs[k] := info[xs[k + 1]]][xs[k + 1] := info[xs[k]]];
    var ys, us, vs := Without(xs, k + 1), Items(i, Without(xs, k + 1)), Without(Items(info, xs), k);
    hide Without;
    forall j | 0 <= j < |ys| ensures us[j] == vs[j] {
      WithoutAt(xs, k + 1, j);
      WithoutAt(Items(info, xs), k, j);
      var p := if j < k + 1 then j else j + 1;
      assert ys[j] == xs[p] && xs[p] != xs[k + 1] && (p != k ==> xs[p] != xs[k]);
    }
  }

  lemma RemoveKeeps(next: seq<int>, info: seq<int>, head: int, xs: seq<int>, k: nat)
    requires List(next, head, xs) && |next| == |info| && k + 1 < |xs|
    ensures 0 <= xs[k] < |next| && next[xs[k]] == xs[k + 1] && 0 <= xs[k + 1] < |next| && xs[k] != xs[k + 1]
    ensures var s := Removed(Cells(next, info), xs[k]);
      && List(s.next, head, Without(xs, k + 1))
      && Inside(xs, |info|) && Inside(Without(xs, k + 1), |s.info|)
      && Items(s.info, Without(xs, k + 1)) == Without(Items(info, xs), k)
  {
    Neighbours(next, head, xs, k);
    RemoveUnlinks(next, head, xs, k);
    RemoveItem(info, xs, k);
    hide Without, Items, Distinct;
  }

  // ----- reversal

  /** The list read from its far end. */
  ghost function Reversed(xs: seq<int>): seq<int> {
    seq(|xs|, i requires 0 <= i < |xs| => xs[|xs| - 1 - i])
  }

  lemma ReversedStep(done: seq<int>, rest: seq<int>)
    requires rest != []
    ensures Reversed(rest) + done == Reversed(rest[1..]) + ([rest[0]] + done)
  {
  }

  lemma ReversedNil(done: seq<int>)
    ensures Reversed([]) + done == done
  {
  }

  /** Reversal under way: `done` is linked backwards from `back`, `rest` forwards. */
  ghost predicate Reversing(next: seq<int>, back: int, done: seq<int>, rest: seq<int>) {
    && Distinct(done + rest) && List(next, back, done) && List(next, Head(rest), rest)
  }

  lemma ReverseStart(next: seq<int>, head: int, xs: seq<int>)
    requires List(next, head, xs)
    ensures Reversing(next, NULL, [], xs) && head == Head(xs)
    ensures Reversed(xs) + [] == Reversed(xs)
  {
    assert [] + xs == xs;
  }

  lemma ReverseDone(next: seq<int>, back: int, done: seq<int>, rest: seq<int>)
    requires Reversing(next, back, done, rest)
    ensures Head(rest) == NULL <==> rest == []
    ensures rest == [] ==> List(next, back, done)
  {
  }

  lemma ReverseDistinct(done: seq<int>, rest: seq<int>)
    requires Distinct(done + rest) && rest != []
    ensures Distinct([rest[0]] + done + rest[1..])
    ensures rest[0] !in done && rest[0] !in rest[1..]
  {
    hide Distinct;
    var e, s := rest[0], done + rest;
    var t := [e] + done + rest[1..];
    assert multiset(t) == multiset(s) by { assert rest == [e] + rest[1..]; }
    PermutedDistinct(s, t);
    Parts([e], done, rest[1..]);
    assert e in [e];
  }

  lemma ListCons(next: seq<int>, back: int, done: seq<int>, e: int)
    requires List(next, back, done) && 0 <= e < |next| && e !in done
    ensures List(next[e := back], e, [e] + done)
  {
    var d, n := [e] + done, next[e := back];
    forall j | 0 <= j < |d| ensures n[d[j]] == if j + 1 < |d| then d[j + 1] else NULL {
      if j > 0 { assert d[j] == done[j - 1]; }
    }
  }

  lemma ListTail(next: seq<int>, rest: seq<int>, v: int)
    requires List(next, Head(rest), rest) && rest != [] && rest[0] !in rest[1..]
    ensures 0 <= rest[0] < |next| && next[rest[0]] == Head(rest[1..])
    ensures List(next[rest[0] := v], Head(rest[1..]), rest[1..])
  {
    var t, n := rest[1..], next[rest[0] := v];
    forall j | 0 <= j < |t| ensures n[t[j]] == if j + 1 < |t| then t[j + 1] else NULL {
      assert t[j] in t && t[j] == rest[j + 1];
    }
  }

  lemma ReverseStep(next: seq<int>, back: int, done: seq<int>, rest: seq<int>)
    requires Reversing(next, back, done, rest) && rest != []
    ensures 0 <= rest[0] < |next| && next[rest[0]] == Head(rest[1..])
    ensures Reversing(next[rest[0] := back], rest[0], [rest[0]] + done, rest[1..])
  {
    hide List, Distinct;
    ReverseDistinct(done, rest);
    ListTail(next, rest, back);
    ListCons(next, back, done, rest[0]);
  }

  class ListMemory {
    const next: array<int>
    const info: array<int>

    constructor (next: array<int>, info: array<int>)
      ensures this.next == next && this.info == info
    {
      this.next := next;
      this.info := info;
    }

    /** Appends `e` to the merged list. */
    method Link(list: int, tail: int, e: int) returns (list': int)
      requires tail == NULL || 0 <= tail < next.Length
      modifies next
      ensures next[..] == Linked(old(next[..]), tail, e)
      ensures forall i :: 0 <= i < next.Length && i != tail ==> next[i] == old(next[i])
      ensures list' == if tail == NULL then e else list
    {
      if tail != NULL {
        next[tail] := e;
        return list;
      } else {
        return e;
      }
    }

    /** Merges one pair of runs onto the output; returns what follows the second run. */
    method MergePair(p0: int, q0: int, psize0: nat, qsize0: nat, list0: int, tail0: int,
                     cmp: (int, int) -> int, ghost out0: seq<int>, ghost a0: seq<int>, ghost b0: seq<int>)
      returns (q: int, list: int, tail: int, ghost out: seq<int>)
      requires next != info && next.Length == info.Length
      requires Merging(next[..], out0, a0, b0) && a0 != [] && psize0 == |a0|
      requires p0 == a0[0] && q0 == Head(b0) && list0 == Head(out0) && tail0 == Last(out0)
      modifies next
      ensures Inside(a0, info.Length) && Inside(Take(b0, qsize0), info.Length)
      ensures out == out0 + Merge(info[..], cmp, a0, Take(b0, qsize0))
      ensures Merging(next[..], out, [], Drop(b0, qsize0))
      ensures q == Head(Drop(b0, qsize0)) && list == Head(out) && tail == Last(out)
      ensures forall i :: 0 <= i < next.Length && i !in out0 + a0 + b0 ==> next[i] == old(next[i])
    {
      hide Distinct, Path, Merge, Linked, Merging, Take, Drop;
      q := q0;
      list := list0;
      tail := tail0;
      var p, psize, qsize := p0, psize0, qsize0;
      out := out0;
      ghost var a, b := a0, b0;
      MergeInside(next[..], out, a, b, qsize0);
      ghost var done := out + Merge(info[..], cmp, a, Take(b, qsize));
      while psize > 0 || (qsize > 0 && q != NULL)
        invariant Merging(next[..], out, a, b) && psize == |a|
        invariant (a != [] ==> p == a[0]) && q == Head(b) && list == Head(out) && tail == Last(out)
        invariant Inside(a, info.Length) && Inside(Take(b, qsize), info.Length)
        invariant out + Merge(info[..], cmp, a, Take(b, qsize)) == done
        invariant Drop(b, qsize) == Drop(b0, qsize0)
        invariant forall x :: x in out + a + b ==> x in out0 + a0 + b0
        invariant forall i :: 0 <= i < next.Length && i !in out0 + a0 + b0 ==> next[i] == old(next[i])
        decreases psize + |b|
      {
        ghost var s := next[..];
        MergeInside(s, out, a, b, qsize);
        TakeHead(b, qsize);
        MergePaths(s, out, a, b);
        Ends(s, out, a, b);
        ghost var w := tail;
        var e;
        if psize > 0 && (qsize == 0 || q == NULL || cmp(info[p], info[q]) <= 0) {
          FromP(s, out, a, b);
          MergeFromP(info[..], cmp, out, a, Take(b, qsize));
          e := p;
          p := next[p];
          psize := psize - 1;
          a := a[1..];
        } else {
          FromQ(s, out, a, b);
          MergeFromQ(info[..], cmp, out, a, b, qsize);
          e := q;
          q := next[q];
          qsize := qsize - 1;
          b := b[1..];
        }
        LastHead(out, e);
        list := Link(list, tail, e);
        tail := e;
        out := out + [e];
      }
      TakeHead(b, qsize);
      MergeNil(info[..], cmp, []);
    }

    /** Steps `insize` places along from `p`, or to the end of the list. */
    method StepAlong(p: int, insize: nat, ghost out: seq<int>, ghost rest: seq<int>) returns (q: int, psize: nat)
      requires Merging(next[..], out, [], rest) && rest != [] && p == rest[0] && insize > 0
      ensures psize == |Take(rest, insize)| && q == Head(Drop(rest, insize))
    {
      q := p;
      psize := 0;
      var i := 0;
      MergePaths(next[..], out, [], rest);
      while i < insize
        invariant 0 <= i <= insize && psize == i < |rest| && q == rest[psize]
        decreases insize - i
      {
        psize := psize + 1;
        assert next[..][rest[i]] == if i + 1 < |rest| then rest[i + 1] else NULL;
        q := next[q];
        if q == NULL {
          assert psize == |rest| by { RestInside(next[..], rest, psize); }
          return;
        }
        i := i + 1;
      }
    }

    static lemma RestInside(next: seq<int>, rest: seq<int>, i: nat)
      requires Path(next, rest) && i <= |rest|
      ensures i < |rest| ==> rest[i] != NULL
    {
    }

    /** One pass over the list: merges neighbouring runs of `insize` nodes in pairs. */
    method PassOnce(list0: int, insize: nat, cmp: (int, int) -> int, ghost cur: seq<int>)
      returns (list: int, nmerges: nat, ghost out: seq<int>)
      requires next != info && next.Length == info.Length && insize > 0
      requires List(next[..], list0, cur) && cur != []
      modifies next
      ensures Inside(cur, info.Length) && out == Pass(info[..], cmp, cur, insize)
      ensures List(next[..], list, out)
      ensures nmerges <= 1 <==> |cur| <= 2 * insize
      ensures forall i :: 0 <= i < next.Length && i !in cur ==> next[i] == old(next[i])
    {
      hide Merge, Pass, Merging, Path, Distinct, Progress, Take, Drop;
      var p := list0;
      list := NULL;
      var tail := NULL;
      nmerges := 0;
      out := [];
      ghost var rest := cur;
      ListIsMerging(next[..], list0, cur);
      ProgressStart(next[..], info[..], cmp, list0, cur, insize);
      while p != NULL
        invariant Merging(next[..], out, [], rest) && p == Head(rest) && list == Head(out) && tail == Last(out)
        invariant Progress(info[..], cmp, cur, insize, out, rest, nmerges)
        invariant forall x :: x in out + rest ==> x in cur
        invariant forall i :: 0 <= i < next.Length && i !in cur ==> next[i] == old(next[i])
        decreases |rest|
      {
        HeadNull(next[..], out, rest);
        nmerges := nmerges + 1;
        var q, psize := StepAlong(p, insize, out, rest);
        var qsize := insize;
        SplitRest(next[..], out, rest, insize);
        PairElements(info[..], cmp, out, rest, insize);
        ProgressStep(info[..], cmp, cur, insize, out, rest, nmerges - 1);
        TakeDrop(rest, insize, info.Length);
        TakeDrop(Drop(rest, insize), insize, info.Length);
        ghost var a, b := Take(rest, insize), Drop(rest, insize);
        p, list, tail, out := MergePair(p, q, psize, qsize, list, tail, cmp, out, a, b);
        rest := Drop(b, qsize);
      }
      HeadNull(next[..], out, rest);
      ProgressDone(info[..], cmp, cur, insize, out, nmerges);
      MergedIsList(next[..], out);
      LastHead(out, 0);
      assert tail in out + rest;
      ghost var s := next[..];
      next[tail] := NULL;
      assert next[..] == s[tail := NULL];
    }

    /** Sorts the list in place: the same nodes, stably sorted, linked and null-terminated. */
    method Mergesort(list0: int, cmp: (int, int) -> int, ghost xs: seq<int>)
      returns (list: int, ghost ys: seq<int>)
      requires next != info && next.Length == info.Length && Preorder(cmp)
      requires List(next[..], list0, xs) && 0 < |xs| < 0x8000_0000
      modifies next
      ensures List(next[..], list, ys)
      ensures multiset(ys) == multiset(xs) && StablySorted(info[..], cmp, xs, ys)
      ensures forall i :: 0 <= i < next.Length && i !in xs ==> next[i] == old(next[i])
    {
      hide Pass, List, Preorder, StablySorted, Runs;
      var insize := 1;
      list := list0;
      ys := xs;
      assert xs[0..] == xs;
      SingletonRuns(info[..], cmp, xs, 0);
      while true
        invariant 0 < insize < 0x8000_0000 && (insize == 1 || insize < |xs|)
        invariant List(next[..], list, ys) && multiset(ys) == multiset(xs)
        invariant Runs(info[..], cmp, xs, 0, ys, insize)
        invariant forall i :: 0 <= i < next.Length && i !in xs ==> next[i] == old(next[i])
        decreases |xs| - insize
      {
        SameElements(xs, ys);
        ghost var cur := ys;
        var nmerges;
        list, nmerges, ys := PassOnce(list, insize, cmp, cur);
        PassElements(info[..], cmp, cur, insize);
        PassRuns(info[..], cmp, xs, 0, cur, insize);
        if nmerges <= 1 {
          OneRun(info[..], cmp, xs, ys, 2 * insize);
          return;
        }
        insize := insize * 2;
      }
    }

    /** Removes the item of a node by taking over the next node's item and unlinking that node.
        `k` is the node's place in the list `xs`. */
    method Remove(item: int, ghost head: int, ghost xs: seq<int>, ghost k: nat) returns (ret: int)
      requires next != info && next.Length == info.Length
      requires List(next[..], head, xs) && k + 1 < |xs| && item == xs[k]
      modifies next, info
      ensures ret == xs[k + 1] && 0 <= item < next.Length && 0 <= ret < next.Length
      ensures Cells(next[..], info[..]) == Removed(Cells(old(next[..]), old(info[..])), item)
      ensures List(next[..], head, Without(xs, k + 1))
      ensures Items(info[..], Without(xs, k + 1)) == Without(Items(old(info[..]), xs), k)
    {
      RemoveKeeps(next[..], info[..], head, xs, k);
      ret := next[item];
      var tmp := info[item];
      info[item] := info[ret];
      info[ret] := tmp;
      next[item] := next[next[item]];
      next[ret] := NULL;
      assert next[..] == Removed(Cells(old(next[..]), old(info[..])), item).next;
      assert info[..] == Removed(Cells(old(next[..]), old(info[..])), item).info;
    }

    /** Links a removed node back behind the node whose item it gave up. */
    method UndoRemove(removed: int, modified: int) returns (linked: int)
      requires next != info && next.Length == info.Length
      requires 0 <= removed < next.Length && 0 <= modified < next.Length
      modifies next, info
      ensures Cells(next[..], info[..]) == Undone(Cells(old(next[..]), old(info[..])), removed, modified)
      ensures linked == removed
    {
      var tmp := info[removed];
      info[removed] := info[modified];
      info[modified] := tmp;
      next[removed] := next[modified];
      next[modified] := removed;
      assert next[..] == Undone(Cells(old(next[..]), old(info[..])), removed, modified).next;
      assert info[..] == Undone(Cells(old(next[..]), old(info[..])), removed, modified).info;
      return removed;
    }

    /** Reverses the list in place. */
    method Reverse(list0: int, ghost xs: seq<int>) returns (head: int)
      requires List(next[..], list0, xs)
      modifies next
      ensures List(next[..], head, Reversed(xs))
      ensures forall i :: 0 <= i < next.Length && i !in xs ==> next[i] == old(next[i])
    {
      hide Reversing, List, Reversed;
      var list := list0;
      head := NULL;
      ghost var done, rest := [], xs;
      ReverseStart(next[..], list0, xs);
      while list != NULL
        invariant Reversing(next[..], head, done, rest) && list == Head(rest)
        invariant Reversed(rest) + done == Reversed(xs)
        invariant forall x :: x in rest ==> x in xs
        invariant forall i :: 0 <= i < next.Length && i !in xs ==> next[i] == old(next[i])
        decreases |rest|
      {
        ReverseDone(next[..], head, done, rest);
        ReverseStep(next[..], head, done, rest);
        ghost var s := next[..];
        ReversedStep(done, rest);
        assert rest[0] in rest;
        var tmp := next[list];
        next[list] := head;
        assert next[..] == s[list := head];
        head := list;
        list := tmp;
        done := [rest[0]] + done;
        rest := rest[1..];
      }
      ReverseDone(next[..], head, done, rest);
      assert Reversed([]) + done == done by { ReversedNil(done); }
    }
  }
}
