/** Singly linked lists as chains through an array of links, and stable merging. */
module ListSpec {
  import opened Seqs

  const NULL: int := -1

  ghost predicate Inside(xs: seq<int>, n: nat) {
    forall i :: 0 <= i < |xs| ==> 0 <= xs[i] < n
  }

  function Head(xs: seq<int>): int {
    if xs == [] then NULL else xs[0]
  }

  /** The links run through `xs`; where the last one leads is left open. */
  ghost predicate Path(next: seq<int>, xs: seq<int>) {
    Inside(xs, |next|) && forall i :: 0 <= i < |xs| - 1 ==> next[xs[i]] == xs[i + 1]
  }

  /** A null-terminated, hence acyclic, list of distinct nodes. */
  ghost predicate List(next: seq<int>, head: int, xs: seq<int>) {
    && head == Head(xs) && Path(next, xs) && Distinct(xs)
    && (xs != [] ==> next[xs[|xs| - 1]] == NULL)
  }

  /** `cmp` orders any two items: negative, zero or positive, consistently. */
  ghost predicate Preorder(cmp: (int, int) -> int) {
    && (forall a, b :: cmp(a, b) < 0 <==> cmp(b, a) > 0)
    && (forall a, b, c :: cmp(a, b) <= 0 && cmp(b, c) <= 0 ==> cmp(a, c) <= 0)
  }

  // ----- what the passes compute

  /** Merge preferring the first list on ties; `info` gives each node's item. */
  function Merge(info: seq<int>, cmp: (int, int) -> int, a: seq<int>, b: seq<int>): (m: seq<int>)
    requires Inside(a, |info|) && Inside(b, |info|)
    ensures |m| == |a| + |b|
    decreases |a| + |b|
  {
    if a == [] then b
    else if b == [] then a
    else if cmp(info[a[0]], info[b[0]]) <= 0 then [a[0]] + Merge(info, cmp, a[1..], b)
    else [b[0]] + Merge(info, cmp, a, b[1..])
  }

  function Take(xs: seq<int>, w: nat): seq<int> {
    if |xs| <= w then xs else xs[..w]
  }

  function Drop(xs: seq<int>, w: nat): seq<int> {
    if |xs| <= w then [] else xs[w..]
  }

  /** One pass: neighbouring runs of `w` nodes are merged in pairs. */
  function Pass(info: seq<int>, cmp: (int, int) -> int, xs: seq<int>, w: nat): (ys: seq<int>)
    requires Inside(xs, |info|) && w > 0
    ensures |ys| == |xs|
    decreases |xs|
  {
    if xs == [] then []
    else
      var rest := Drop(xs, w);
      Merge(info, cmp, Take(xs, w), Take(rest, w)) + Pass(info, cmp, Drop(rest, w), w)
  }

  lemma TakeDrop(xs: seq<int>, w: nat, n: nat)
    requires Inside(xs, n)
    ensures Inside(Take(xs, w), n) && Inside(Drop(xs, w), n)
    ensures xs == Take(xs, w) + Drop(xs, w)
    ensures |Take(xs, w)| <= w && (Drop(xs, w) != [] ==> |Take(xs, w)| == w)
    ensures w > 0 && xs != [] ==> Take(xs, w) != []
  {
  }

  // ----- permutations

  lemma ConsElements(xs: seq<int>)
    requires xs != []
    ensures multiset(xs) == multiset{xs[0]} + multiset(xs[1..])
  {
    assert xs == [xs[0]] + xs[1..];
  }

  lemma {:induction false} MergeElements(info: seq<int>, cmp: (int, int) -> int, a: seq<int>, b: seq<int>)
    requires Inside(a, |info|) && Inside(b, |info|)
    ensures multiset(Merge(info, cmp, a, b)) == multiset(a) + multiset(b)
    decreases |a| + |b|
  {
    if a != [] && b != [] {
      if cmp(info[a[0]], info[b[0]]) <= 0 {
        MergeElements(info, cmp, a[1..], b);
        ConsElements(a);
        ConsElements(Merge(info, cmp, a, b));
      } else {
        MergeElements(info, cmp, a, b[1..]);
        ConsElements(b);
        ConsElements(Merge(info, cmp, a, b));
      }
    }
  }

  lemma JoinedElements(a: seq<int>, b: seq<int>, c: seq<int>, m: seq<int>, p: seq<int>)
    requires multiset(m) == multiset(a) + multiset(b) && multiset(p) == multiset(c)
    ensures multiset(m + p) == multiset(a + (b + c))
  {
  }

  lemma {:induction false} PassElements(info: seq<int>, cmp: (int, int) -> int, xs: seq<int>, w: nat)
    requires Inside(xs, |info|) && w > 0
    ensures multiset(Pass(info, cmp, xs, w)) == multiset(xs)
    decreases |xs|
  {
    hide Merge, Take, Drop, Inside;
    if xs != [] {
      var a, rest := Take(xs, w), Drop(xs, w);
      var b, c := Take(rest, w), Drop(rest, w);
      TakeDrop(xs, w, |info|);
      TakeDrop(rest, w, |info|);
      MergeElements(info, cmp, a, b);
      PassElements(info, cmp, c, w);
      JoinedElements(a, b, c, Merge(info, cmp, a, b), Pass(info, cmp, c, w));
    }
  }

  lemma SameElements(xs: seq<int>, ys: seq<int>)
    requires multiset(xs) == multiset(ys)
    ensures forall x :: x in xs <==> x in ys
    ensures |xs| == |ys|
  {
    assert |multiset(xs)| == |multiset(ys)|;
    forall x ensures x in xs <==> x in ys {
      assert x in multiset(xs) <==> x in multiset(ys);
    }
  }

  lemma {:induction false} DistinctCount(xs: seq<int>)
    ensures Distinct(xs) <==> forall x :: multiset(xs)[x] <= 1
  {
    if xs != [] {
      var n := |xs| - 1;
      var t := xs[..n];
      assert xs == t + [xs[n]];
      DistinctCount(t);
      if Distinct(xs) {
        forall x ensures multiset(xs)[x] <= 1 {
          assert multiset(xs) == multiset(t) + multiset{xs[n]};
          if x == xs[n] { assert x !in t; assert multiset(t)[x] == 0; }
        }
      } else {
        var i, j :| 0 <= i < j < |xs| && xs[i] == xs[j];
        TwiceCounted(xs, i, j);
      }
    }
  }

  lemma TwiceCounted(xs: seq<int>, i: nat, j: nat)
    requires i < j < |xs| && xs[i] == xs[j]
    ensures multiset(xs)[xs[i]] >= 2
  {
    var a, b := xs[..j], xs[j..];
    assert xs == a + b && a[i] == xs[i] && b[0] == xs[i];
    assert xs[i] in multiset(a) && xs[i] in multiset(b);
  }

  lemma PermutedDistinct(xs: seq<int>, ys: seq<int>)
    requires multiset(xs) == multiset(ys) && Distinct(xs)
    ensures Distinct(ys)
  {
    DistinctCount(xs);
    DistinctCount(ys);
  }

  // ----- stability

  lemma Reflexive(cmp: (int, int) -> int, x: int)
    requires Preorder(cmp)
    ensures cmp(x, x) == 0
  {
    assert cmp(x, x) < 0 <==> cmp(x, x) > 0;
  }

  ghost predicate Precedes(orig: seq<int>, a: int, b: int) {
    exists i, j :: 0 <= i < j < |orig| && orig[i] == a && orig[j] == b
  }

  /** `a` must come before `b`: its item is smaller, or equal and it came first in `orig`. */
  ghost predicate Before(info: seq<int>, cmp: (int, int) -> int, orig: seq<int>, a: int, b: int) {
    && 0 <= a < |info| && 0 <= b < |info|
    && cmp(info[a], info[b]) <= 0
    && (cmp(info[a], info[b]) == 0 ==> Precedes(orig, a, b))
  }

  /** Sorted, with nodes of equal items in the order they had in `orig`. */
  ghost predicate StablySorted(info: seq<int>, cmp: (int, int) -> int, orig: seq<int>, xs: seq<int>) {
    forall i, j :: 0 <= i < j < |xs| ==> Before(info, cmp, orig, xs[i], xs[j])
  }

  /** Everything in `a` stands before everything in `b` in `orig`. */
  ghost predicate Earlier(orig: seq<int>, a: seq<int>, b: seq<int>) {
    forall x, y :: x in a && y in b ==> Precedes(orig, x, y)
  }

  lemma {:induction false} MergeSorted(info: seq<int>, cmp: (int, int) -> int, orig: seq<int>, a: seq<int>, b: seq<int>)
    requires Preorder(cmp) && Inside(a, |info|) && Inside(b, |info|)
    requires StablySorted(info, cmp, orig, a) && StablySorted(info, cmp, orig, b) && Earlier(orig, a, b)
    ensures StablySorted(info, cmp, orig, Merge(info, cmp, a, b))
    decreases |a| + |b|
  {
    hide Before, Precedes, Preorder;
    if a != [] && b != [] {
      var m;
      var h;
      assert forall x :: x in a[1..] ==> x in a;
      assert forall x :: x in b[1..] ==> x in b;
      if cmp(info[a[0]], info[b[0]]) <= 0 {
        MergeSorted(info, cmp, orig, a[1..], b);
        MergeElements(info, cmp, a[1..], b);
        h, m := a[0], Merge(info, cmp, a[1..], b);
        forall y | y in m ensures Before(info, cmp, orig, h, y) {
          assert y in multiset(m);
          FirstIsLeast(info, cmp, orig, a, b, y);
        }
      } else {
        MergeSorted(info, cmp, orig, a, b[1..]);
        MergeElements(info, cmp, a, b[1..]);
        h, m := b[0], Merge(info, cmp, a, b[1..]);
        forall y | y in m ensures Before(info, cmp, orig, h, y) {
          assert y in multiset(m);
          SecondIsLeast(info, cmp, orig, a, b, y);
        }
      }
      SortedCons(info, cmp, orig, h, m);
    }
  }

  lemma FirstIsLeast(info: seq<int>, cmp: (int, int) -> int, orig: seq<int>, a: seq<int>, b: seq<int>, y: int)
    requires Preorder(cmp) && Inside(a, |info|) && Inside(b, |info|) && a != [] && b != []
    requires StablySorted(info, cmp, orig, a) && StablySorted(info, cmp, orig, b) && Earlier(orig, a, b)
    requires cmp(info[a[0]], info[b[0]]) <= 0 && (y in a[1..] || y in b)
    ensures Before(info, cmp, orig, a[0], y)
  {
    if y in a[1..] {
      var i :| 0 <= i < |a[1..]| && a[1..][i] == y;
      assert a[i + 1] == y;
    } else {
      var i :| 0 <= i < |b| && b[i] == y;
      var p, q, r := info[a[0]], info[b[0]], info[y];
      Reflexive(cmp, q);
      if i > 0 { assert Before(info, cmp, orig, b[0], b[i]); }
      assert cmp(q, r) <= 0;
      assert cmp(p, r) <= 0;
      assert a[0] in a && y in b;
    }
  }

  lemma SecondIsLeast(info: seq<int>, cmp: (int, int) -> int, orig: seq<int>, a: seq<int>, b: seq<int>, y: int)
    requires Preorder(cmp) && Inside(a, |info|) && Inside(b, |info|) && a != [] && b != []
    requires StablySorted(info, cmp, orig, a) && StablySorted(info, cmp, orig, b)
    requires cmp(info[a[0]], info[b[0]]) > 0 && (y in a || y in b[1..])
    ensures Before(info, cmp, orig, b[0], y)
  {
    if y in b[1..] {
      var i :| 0 <= i < |b[1..]| && b[1..][i] == y;
      assert b[i + 1] == y;
    } else {
      var i :| 0 <= i < |a| && a[i] == y;
      var p, q, r := info[b[0]], info[a[0]], info[y];
      if i > 0 { assert Before(info, cmp, orig, a[0], a[i]); }
      Reflexive(cmp, q);
      assert cmp(q, r) <= 0 && cmp(p, q) < 0;
      StrictThrough(cmp, p, q, r);
    }
  }

  lemma StrictThrough(cmp: (int, int) -> int, p: int, q: int, r: int)
    requires Preorder(cmp) && cmp(p, q) < 0 && cmp(q, r) <= 0
    ensures cmp(p, r) < 0
  {
    assert cmp(p, r) <= 0;
    assert cmp(r, p) <= 0 ==> cmp(q, p) <= 0;
    assert cmp(q, p) > 0;
  }

  lemma SortedCons(info: seq<int>, cmp: (int, int) -> int, orig: seq<int>, h: int, m: seq<int>)
    requires StablySorted(info, cmp, orig, m) && forall y :: y in m ==> Before(info, cmp, orig, h, y)
    ensures StablySorted(info, cmp, orig, [h] + m)
  {
    var s := [h] + m;
    forall i, j | 0 <= i < j < |s| ensures Before(info, cmp, orig, s[i], s[j]) {
      if i == 0 { assert s[j] == m[j - 1] && m[j - 1] in m; }
    }
  }

  /** `a` rearranges the stretch of `orig` that starts at `from`. */
  ghost predicate Permutes(orig: seq<int>, from: nat, a: seq<int>) {
    from + |a| <= |orig| && multiset(a) == multiset(orig[from..from + |a|])
  }

  lemma PermutesJoin(orig: seq<int>, from: nat, a: seq<int>, b: seq<int>, m: seq<int>)
    requires Permutes(orig, from, a) && Permutes(orig, from + |a|, b)
    requires multiset(m) == multiset(a) + multiset(b) && |m| == |a| + |b|
    ensures Permutes(orig, from, m)
  {
    var i := from + |a|;
    assert orig[from..from + |m|] == orig[from..i] + orig[i..i + |b|];
  }

  /** Each run of `w` nodes is a stably sorted rearrangement of the same stretch of `orig`. */
  ghost predicate Runs(info: seq<int>, cmp: (int, int) -> int, orig: seq<int>, from: nat, xs: seq<int>, w: nat)
    requires w > 0
    decreases |xs|
  {
    && from + |xs| == |orig|
    && (xs != [] ==>
          var a := Take(xs, w);
          && Permutes(orig, from, a)
          && StablySorted(info, cmp, orig, a)
          && Runs(info, cmp, orig, from + |a|, Drop(xs, w), w))
  }

  lemma SegmentsEarlier(orig: seq<int>, a: seq<int>, b: seq<int>, i: nat)
    requires Permutes(orig, i, a) && Permutes(orig, i + |a|, b)
    ensures Earlier(orig, a, b)
  {
    var s, t := orig[i..i + |a|], orig[i + |a|..i + |a| + |b|];
    SameElements(a, s);
    SameElements(b, t);
    forall x, y | x in a && y in b ensures Precedes(orig, x, y) {
      var p :| 0 <= p < |s| && s[p] == x;
      var q :| 0 <= q < |t| && t[q] == y;
      assert orig[i + p] == x && orig[i + |a| + q] == y;
    }
  }

  /** A pass doubles the length of the sorted runs. */
  lemma {:induction false} PassRuns(info: seq<int>, cmp: (int, int) -> int, orig: seq<int>, from: nat, xs: seq<int>, w: nat)
    requires Preorder(cmp) && w > 0 && Inside(xs, |info|) && Runs(info, cmp, orig, from, xs, w)
    ensures Runs(info, cmp, orig, from, Pass(info, cmp, xs, w), 2 * w)
    decreases |xs|
  {
    hide StablySorted, Preorder, Permutes, Merge, Take, Drop, Inside;
    if xs != [] {
      var a, rest := Take(xs, w), Drop(xs, w);
      var b, c := Take(rest, w), Drop(rest, w);
      TakeDrop(xs, w, |info|);
      TakeDrop(rest, w, |info|);
      MergedRun(info, cmp, orig, from, a, b, rest, w);
      var m := Merge(info, cmp, a, b);
      PassRuns(info, cmp, orig, from + |m|, c, w);
      RunsCons(info, cmp, orig, from, m, Pass(info, cmp, c, w), w);
    }
  }

  lemma RunsCons(info: seq<int>, cmp: (int, int) -> int, orig: seq<int>, from: nat, m: seq<int>, ys: seq<int>, w: nat)
    requires w > 0 && m != [] && |m| <= 2 * w && (ys != [] ==> |m| == 2 * w)
    requires Permutes(orig, from, m) && StablySorted(info, cmp, orig, m)
    requires Runs(info, cmp, orig, from + |m|, ys, 2 * w)
    ensures Runs(info, cmp, orig, from, m + ys, 2 * w)
  {
    hide StablySorted, Permutes;
    var zs := m + ys;
    assert Take(zs, 2 * w) == m && Drop(zs, 2 * w) == ys;
  }

  lemma MergedRun(info: seq<int>, cmp: (int, int) -> int, orig: seq<int>, from: nat, a: seq<int>, b: seq<int>, rest: seq<int>, w: nat)
    requires Preorder(cmp) && w > 0 && Inside(a, |info|) && Inside(rest, |info|)
    requires b == Take(rest, w) && StablySorted(info, cmp, orig, a)
    requires Permutes(orig, from, a) && Runs(info, cmp, orig, from + |a|, rest, w)
    ensures Inside(b, |info|)
    ensures var m := Merge(info, cmp, a, b);
      && Permutes(orig, from, m) && StablySorted(info, cmp, orig, m)
      && Runs(info, cmp, orig, from + |m|, Drop(rest, w), w)
  {
    hide StablySorted, Preorder, Permutes, Merge, Earlier, Runs, Take, Drop, Inside;
    FirstRun(info, cmp, orig, from + |a|, rest, w);
    TakeDrop(rest, w, |info|);
    SegmentsEarlier(orig, a, b, from);
    MergeElements(info, cmp, a, b);
    MergeSorted(info, cmp, orig, a, b);
    PermutesJoin(orig, from, a, b, Merge(info, cmp, a, b));
  }

  lemma FirstRun(info: seq<int>, cmp: (int, int) -> int, orig: seq<int>, from: nat, xs: seq<int>, w: nat)
    requires w > 0 && Runs(info, cmp, orig, from, xs, w)
    ensures Permutes(orig, from, Take(xs, w)) && StablySorted(info, cmp, orig, Take(xs, w))
    ensures Runs(info, cmp, orig, from + |Take(xs, w)|, Drop(xs, w), w)
  {
    if xs == [] { assert orig[from..from] == []; }
  }

  lemma {:induction false} SingletonRuns(info: seq<int>, cmp: (int, int) -> int, orig: seq<int>, from: nat)
    requires from <= |orig|
    ensures Runs(info, cmp, orig, from, orig[from..], 1)
    decreases |orig| - from
  {
    if from < |orig| {
      var xs := orig[from..];
      assert Take(xs, 1) == orig[from..from + 1];
      assert Drop(xs, 1) == orig[from + 1..];
      SingletonRuns(info, cmp, orig, from + 1);
    }
  }

  /** When one run covers the list, the list is stably sorted. */
  lemma OneRun(info: seq<int>, cmp: (int, int) -> int, orig: seq<int>, xs: seq<int>, w: nat)
    requires w > 0 && |xs| <= w && Runs(info, cmp, orig, 0, xs, w)
    ensures multiset(xs) == multiset(orig) && StablySorted(info, cmp, orig, xs)
  {
    assert orig[0..|orig|] == orig;
    if xs == [] { assert orig == []; }
  }
}
