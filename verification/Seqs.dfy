/** Small things every component needs: options, sequences without repetition, removal from a
    sequence, and the sizes of sets. */
module Seqs {
  datatype Option<+T> = None | Some(value: T)

  ghost predicate Distinct<T>(xs: seq<T>) {
    forall i, j :: 0 <= i < j < |xs| ==> xs[i] != xs[j]
  }

  /** `xs` without the element at index `k`. */
  function Without<T>(xs: seq<T>, k: nat): seq<T>
    requires k < |xs|
  {
    xs[..k] + xs[k + 1..]
  }

  lemma WithoutLength<T>(xs: seq<T>, k: nat)
    requires k < |xs|
    ensures |Without(xs, k)| == |xs| - 1
  {
  }

  lemma WithoutAt<T>(xs: seq<T>, k: nat, m: nat)
    requires k < |xs| && m < |xs| - 1
    ensures |Without(xs, k)| == |xs| - 1
    ensures Without(xs, k)[m] == xs[if m < k then m else m + 1]
  {
  }

  /** Removing from a sequence without repetition removes that element only. */
  lemma WithoutDistinct<T>(xs: seq<T>, k: nat)
    requires Distinct(xs) && k < |xs|
    ensures Distinct(Without(xs, k)) && xs[k] !in Without(xs, k)
    ensures forall x :: x in Without(xs, k) <==> x in xs && x != xs[k]
  {
    var ys := Without(xs, k);
    assert forall i :: 0 <= i < |ys| ==> ys[i] == xs[if i < k then i else i + 1];
    forall x | x in xs && x != xs[k] ensures x in ys {
      var i :| 0 <= i < |xs| && xs[i] == x;
      assert ys[if i < k then i else i - 1] == x;
    }
  }

  /** `xs` without the first occurrence of `x`. */
  function Minus<T(==)>(xs: seq<T>, x: T): seq<T> {
    if xs == [] then [] else if xs[0] == x then xs[1..] else [xs[0]] + Minus(xs[1..], x)
  }

  lemma {:induction false} MinusAt<T>(xs: seq<T>, k: nat)
    requires Distinct(xs) && k < |xs|
    ensures Minus(xs, xs[k]) == Without(xs, k)
  {
    if k > 0 {
      assert xs[0] != xs[k];
      MinusAt(xs[1..], k - 1);
      assert Without(xs, k) == [xs[0]] + Without(xs[1..], k - 1);
    }
  }

  lemma {:induction false} MinusAbsent<T>(xs: seq<T>, x: T)
    requires x !in xs
    ensures Minus(xs, x) == xs
  {
    if xs != [] {
      MinusAbsent(xs[1..], x);
      assert xs == [xs[0]] + xs[1..];
    }
  }

  lemma MinusDistinct<T>(xs: seq<T>, x: T)
    requires Distinct(xs)
    ensures Distinct(Minus(xs, x))
    ensures forall y :: y in Minus(xs, x) <==> y in xs && y != x
    ensures |Minus(xs, x)| == if x in xs then |xs| - 1 else |xs|
  {
    if x in xs {
      var k :| 0 <= k < |xs| && xs[k] == x;
      MinusAt(xs, k);
      WithoutDistinct(xs, k);
    } else {
      MinusAbsent(xs, x);
    }
  }

  lemma SubsetSize<T>(a: set<T>, b: set<T>)
    requires a <= b
    ensures |a| <= |b|
    ensures a != b ==> |a| < |b|
  {
    var c := b - a;
    assert b == a + c;
    if c == {} { assert a == b; }
  }

  lemma AnElement<T>(s: set<T>) returns (x: T)
    requires s != {}
    ensures x in s
  {
    x :| x in s;
  }
}
