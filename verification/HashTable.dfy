/** Open addressing with linear probing, as laws on the entry array of a hash table. */
module HashTable {
  import opened Seqs

  datatype Entry<K, V> = Entry(key: K, val: V, filled: bool)

  /** Steps from slot `a` forward to slot `b` around a table of `cap` slots. */
  function Dist(a: int, b: int, cap: int): int {
    if b >= a then b - a else b - a + cap
  }

  function Next(i: int, cap: int): int {
    if i + 1 >= cap then 0 else i + 1
  }

  ghost function Home<K>(hash: K -> nat, k: K, cap: nat): nat
    requires cap > 0
  {
    hash(k) % cap
  }

  /** Slot `j` is probed before slot `i` when looking for key `k`. */
  ghost predicate Before<K>(hash: K -> nat, k: K, j: int, i: int, cap: nat)
    requires cap > 0
  {
    Dist(Home(hash, k, cap), j, cap) < Dist(Home(hash, k, cap), i, cap)
  }

  /** Probing for the key of a filled slot meets no gap before that slot. */
  ghost predicate Reachable<K, V>(s: seq<Entry<K, V>>, hash: K -> nat) {
    forall i, j :: 0 <= i < |s| && 0 <= j < |s| && s[i].filled && Before(hash, s[i].key, j, i, |s|) ==> s[j].filled
  }

  ghost predicate Unique<K, V>(s: seq<Entry<K, V>>) {
    forall i, j :: 0 <= i < j < |s| && s[i].filled && s[j].filled ==> s[i].key != s[j].key
  }

  ghost predicate At<K, V>(s: seq<Entry<K, V>>, i: int, k: K) {
    0 <= i < |s| && s[i].filled && s[i].key == k
  }

  /** The filled slots hold exactly the bindings of `m`. */
  ghost predicate Represents<K, V>(s: seq<Entry<K, V>>, m: map<K, V>) {
    && (forall i :: 0 <= i < |s| && s[i].filled ==> s[i].key in m && m[s[i].key] == s[i].val)
    && (forall k :: k in m ==> exists i :: At(s, i, k))
  }

  ghost predicate Table<K, V>(s: seq<Entry<K, V>>, hash: K -> nat, m: map<K, V>) {
    |s| > 0 && Reachable(s, hash) && Unique(s) && Represents(s, m)
  }

  ghost predicate Empty<K, V>(s: seq<Entry<K, V>>, i: int) {
    0 <= i < |s| && !s[i].filled
  }

  /** The probe for `k` stops at `i`: at the first slot that is unfilled or holds `k`. */
  ghost predicate Stops<K, V>(s: seq<Entry<K, V>>, hash: K -> nat, k: K, i: int) {
    && 0 <= i < |s|
    && (!s[i].filled || s[i].key == k)
    && forall j :: 0 <= j < |s| && Before(hash, k, j, i, |s|) ==> s[j].filled && s[j].key != k
  }

  /** A probe for `k` that has reached `i` on its way to the gap `g`. */
  ghost predicate Probing<K, V>(s: seq<Entry<K, V>>, hash: K -> nat, k: K, i: int, g: int) {
    && 0 <= i < |s| && Empty(s, g)
    && (i == g || Before(hash, k, i, g, |s|))
    && forall j :: 0 <= j < |s| && Before(hash, k, j, i, |s|) ==> s[j].filled && s[j].key != k
  }

  ghost function ToGap<K>(hash: K -> nat, k: K, i: int, g: int, cap: nat): int
    requires cap > 0
  {
    Dist(Home(hash, k, cap), g, cap) - Dist(Home(hash, k, cap), i, cap)
  }

  lemma ProbeStart<K, V>(s: seq<Entry<K, V>>, hash: K -> nat, k: K, g: int)
    requires Empty(s, g)
    ensures Probing(s, hash, k, Home(hash, k, |s|), g)
  {
  }

  lemma ProbeNext<K, V>(s: seq<Entry<K, V>>, hash: K -> nat, k: K, i: int, g: int)
    requires Probing(s, hash, k, i, g) && s[i].filled && s[i].key != k
    ensures Probing(s, hash, k, Next(i, |s|), g)
    ensures 0 <= ToGap(hash, k, Next(i, |s|), g, |s|) < ToGap(hash, k, i, g, |s|)
  {
  }

  lemma ProbeStop<K, V>(s: seq<Entry<K, V>>, hash: K -> nat, k: K, i: int, g: int)
    requires Probing(s, hash, k, i, g) && (!s[i].filled || s[i].key == k)
    ensures Stops(s, hash, k, i)
  {
  }

  // ----- room

  ghost function Keys<K, V>(s: seq<Entry<K, V>>): set<K> {
    set i | 0 <= i < |s| && s[i].filled :: s[i].key
  }

  lemma {:induction false} FullKeys<K, V>(s: seq<Entry<K, V>>)
    requires Unique(s) && forall i :: 0 <= i < |s| ==> s[i].filled
    ensures |Keys(s)| == |s|
  {
    if s != [] {
      var n := |s| - 1;
      var t := s[..n];
      FullKeys(t);
      assert s[n].key !in Keys(t);
      assert Keys(s) == Keys(t) + {s[n].key};
    }
  }

  lemma {:induction false} HasRoom<K, V>(s: seq<Entry<K, V>>, m: map<K, V>) returns (e: nat)
    requires Unique(s) && Represents(s, m) && |m| < |s|
    ensures Empty(s, e)
  {
    if forall i :: 0 <= i < |s| ==> s[i].filled {
      FullKeys(s);
      assert Keys(s) <= m.Keys;
      SubsetSize(Keys(s), m.Keys);
      assert false;
    }
    e :| 0 <= e < |s| && !s[e].filled;
  }

  lemma TableRoom<K, V>(s: seq<Entry<K, V>>, hash: K -> nat, m: map<K, V>) returns (e: nat)
    requires Table(s, hash, m) && |m| < |s|
    ensures Empty(s, e)
  {
    e := HasRoom(s, m);
  }

  // ----- lookups

  lemma StopsAt<K, V>(s: seq<Entry<K, V>>, hash: K -> nat, k: K, i: int)
    requires Stops(s, hash, k, i)
    ensures 0 <= i < |s| && (s[i].filled ==> s[i].key == k)
  {
  }

  lemma StopsHit<K, V>(s: seq<Entry<K, V>>, hash: K -> nat, m: map<K, V>, k: K, i: int)
    requires Table(s, hash, m) && Stops(s, hash, k, i)
    ensures s[i].filled <==> k in m
    ensures s[i].filled ==> m[k] == s[i].val
  {
    if k in m {
      var p :| At(s, p, k);
    }
  }

  // ----- insertion

  ghost function Insertion<K, V>(s: seq<Entry<K, V>>, i: int, k: K, v: V): seq<Entry<K, V>>
    requires 0 <= i < |s|
  {
    s[i := Entry(k, v, true)]
  }

  lemma {:induction false} PutReachable<K, V>(s: seq<Entry<K, V>>, hash: K -> nat, k: K, v: V, i: int)
    requires Reachable(s, hash) && Stops(s, hash, k, i)
    ensures Reachable(Insertion(s, i, k, v), hash)
  {
    var t := Insertion(s, i, k, v);
    forall p, j | 0 <= p < |t| && 0 <= j < |t| && t[p].filled && Before(hash, t[p].key, j, p, |t|)
      ensures t[j].filled
    {
      if p != i { assert s[p].filled; }
    }
  }

  lemma {:induction false} PutTable<K, V>(s: seq<Entry<K, V>>, hash: K -> nat, m: map<K, V>, k: K, v: V, i: int)
    requires Table(s, hash, m) && Stops(s, hash, k, i)
    ensures Table(Insertion(s, i, k, v), hash, m[k := v])
    ensures |m[k := v]| == if s[i].filled then |m| else |m| + 1
  {
    StopsHit(s, hash, m, k, i);
    PutReachable(s, hash, k, v, i);
    if s[i].filled {
      OverwriteRepresents(s, m, i, v);
    } else {
      FillRepresents(s, m, i, k, v);
    }
  }

  lemma {:induction false} OverwriteRepresents<K, V>(s: seq<Entry<K, V>>, m: map<K, V>, i: int, v: V)
    requires Unique(s) && Represents(s, m) && 0 <= i < |s| && s[i].filled
    ensures var k := s[i].key;
      && Unique(Insertion(s, i, k, v)) && Represents(Insertion(s, i, k, v), m[k := v])
      && |m[k := v]| == |m|
  {
    var k := s[i].key;
    var t, n := Insertion(s, i, k, v), m[k := v];
    assert n.Keys == m.Keys;
    forall q | q in n ensures exists p :: At(t, p, q) {
      var p :| At(s, p, q);
      assert At(t, p, q);
    }
  }

  // ----- deletion

  /** While re-inserting the run after the hole `h`, the entries not yet moved stand from `x`
      up to the gap `e`; only they may be cut off, and only by slots from `h` up to `x`. */
  ghost predicate Rehashing<K, V>(s: seq<Entry<K, V>>, hash: K -> nat, h: int, x: int, e: int) {
    var n := |s|;
    && 0 <= h < n && 0 <= x < n && 0 <= e < n
    && 0 < Dist(h, x, n) <= Dist(h, e, n)
    && !s[e].filled && Unique(s)
    && (forall i :: 0 <= i < n && Dist(h, x, n) <= Dist(h, i, n) < Dist(h, e, n) ==> s[i].filled)
    && (forall i, j :: 0 <= i < n && 0 <= j < n && s[i].filled && Before(hash, s[i].key, j, i, n) ==>
          s[j].filled || (Dist(h, j, n) < Dist(h, x, n) <= Dist(h, i, n) < Dist(h, e, n)))
  }

  ghost function Cleared<K, V>(s: seq<Entry<K, V>>, i: int): seq<Entry<K, V>>
    requires 0 <= i < |s|
  {
    s[i := s[i].(filled := false)]
  }

  /** The first gap after slot `h`, given that some slot other than `h` is unfilled. */
  lemma {:induction false} FirstGap<K, V>(s: seq<Entry<K, V>>, h: int, g: int) returns (e: int)
    requires 0 <= h < |s| && Empty(s, g) && g != h
    ensures Empty(s, e) && e != h
    ensures forall i :: 0 <= i < |s| && 0 < Dist(h, i, |s|) < Dist(h, e, |s|) ==> s[i].filled
    decreases Dist(h, g, |s|)
  {
    if i :| 0 <= i < |s| && 0 < Dist(h, i, |s|) < Dist(h, g, |s|) && !s[i].filled {
      e := FirstGap(s, h, i);
    } else {
      e := g;
    }
  }

  lemma {:induction false} StartRehash<K, V>(s: seq<Entry<K, V>>, hash: K -> nat, h: int, g: int) returns (e: int)
    requires Reachable(s, hash) && Unique(s) && 0 <= h < |s| && s[h].filled && Empty(s, g)
    ensures Rehashing(Cleared(s, h), hash, h, Next(h, |s|), e)
  {
    e := FirstGap(s, h, g);
    var t := Cleared(s, h);
    forall i, j | 0 <= i < |t| && 0 <= j < |t| && t[i].filled && Before(hash, t[i].key, j, i, |t|)
      ensures t[j].filled || (Dist(h, j, |t|) < Dist(h, Next(h, |s|), |t|) <= Dist(h, i, |t|) < Dist(h, e, |t|))
    {
      assert s[j].filled;
      if j == h && Dist(h, e, |s|) <= Dist(h, i, |s|) {
        assert false;
      }
    }
  }

  lemma RehashRange<K, V>(s: seq<Entry<K, V>>, hash: K -> nat, h: int, x: int, e: int)
    requires Rehashing(s, hash, h, x, e)
    ensures 0 <= h < |s| && 0 <= x < |s| && 0 <= Next(x, |s|) < |s| && 0 <= e < |s|
    ensures s[x].filled ==> 0 <= Dist(h, e, |s|) - Dist(h, Next(x, |s|), |s|) < Dist(h, e, |s|) - Dist(h, x, |s|)
    ensures Unique(s)
  {
  }

  /** Where the entry at `x` goes when it is taken out and put back: never past `x`. */
  lemma {:induction false} RehashTarget<K, V>(s: seq<Entry<K, V>>, hash: K -> nat, h: int, x: int, e: int, p: int)
    requires Rehashing(s, hash, h, x, e) && s[x].filled
    requires Stops(Cleared(s, x), hash, s[x].key, p)
    ensures p == x || (!s[p].filled && Dist(h, p, |s|) < Dist(h, x, |s|) && Before(hash, s[x].key, p, x, |s|))
    ensures 0 <= p < |s| && !Cleared(s, x)[p].filled
  {
    var t := Cleared(s, x);
    assert !t[x].filled;
    assert p != x ==> Before(hash, s[x].key, p, x, |s|);
    assert p != x ==> s[p] == t[p];
  }

  lemma {:induction false} RehashStep<K, V>(s: seq<Entry<K, V>>, hash: K -> nat, h: int, x: int, e: int, p: int)
    requires Rehashing(s, hash, h, x, e) && s[x].filled
    requires Stops(Cleared(s, x), hash, s[x].key, p)
    ensures Rehashing(Insertion(Cleared(s, x), p, s[x].key, s[x].val), hash, h, Next(x, |s|), e)
  {
    RehashTarget(s, hash, h, x, e, p);
    var n := |s|;
    var u := Insertion(Cleared(s, x), p, s[x].key, s[x].val);
    var y := Next(x, n);
    assert x != e;
    assert Dist(h, y, n) == Dist(h, x, n) + 1;
    MovedUnique(s, x, p);
    forall i | 0 <= i < n && Dist(h, y, n) <= Dist(h, i, n) < Dist(h, e, n) ensures u[i].filled {
      assert i != x;
    }
    forall i, j | 0 <= i < n && 0 <= j < n && u[i].filled && Before(hash, u[i].key, j, i, n)
      ensures u[j].filled || (Dist(h, j, n) < Dist(h, y, n) <= Dist(h, i, n) < Dist(h, e, n))
    {
      RehashPath(s, hash, h, x, e, p, i, j);
    }
  }

  lemma {:induction false} MovedUnique<K, V>(s: seq<Entry<K, V>>, x: int, p: int)
    requires Unique(s) && 0 <= x < |s| && 0 <= p < |s| && s[x].filled && (p == x || !s[p].filled)
    ensures Unique(Insertion(Cleared(s, x), p, s[x].key, s[x].val))
  {
    var u := Insertion(Cleared(s, x), p, s[x].key, s[x].val);
    forall i, j | 0 <= i < j < |u| && u[i].filled && u[j].filled ensures u[i].key != u[j].key {
      assert s[if i == p then x else i].key != s[if j == p then x else j].key;
    }
  }

  lemma {:induction false} RehashPath<K, V>(s: seq<Entry<K, V>>, hash: K -> nat, h: int, x: int, e: int, p: int, i: int, j: int)
    requires Rehashing(s, hash, h, x, e) && s[x].filled
    requires Stops(Cleared(s, x), hash, s[x].key, p)
    requires p == x || (!s[p].filled && Dist(h, p, |s|) < Dist(h, x, |s|) && Before(hash, s[x].key, p, x, |s|))
    requires 0 <= i < |s| && 0 <= j < |s|
    requires var u := Insertion(Cleared(s, x), p, s[x].key, s[x].val);
      u[i].filled && Before(hash, u[i].key, j, i, |s|)
    ensures var u := Insertion(Cleared(s, x), p, s[x].key, s[x].val);
      u[j].filled || (Dist(h, j, |s|) < Dist(h, Next(x, |s|), |s|) <= Dist(h, i, |s|) < Dist(h, e, |s|))
  {
    var n := |s|;
    var u := Insertion(Cleared(s, x), p, s[x].key, s[x].val);
    if i == p {
      assert Cleared(s, x)[j].filled;
    } else {
      assert s[i].filled && u[i] == s[i];
      assert s[j].filled || (Dist(h, j, n) < Dist(h, x, n) <= Dist(h, i, n) < Dist(h, e, n));
      if j == x && !(Dist(h, x, n) < Dist(h, i, n) < Dist(h, e, n)) {
        // a path through x to a slot before x, or from e on, also runs through the gap e
        assert false;
      }
    }
  }

  lemma {:induction false} EndRehash<K, V>(s: seq<Entry<K, V>>, hash: K -> nat, h: int, x: int, e: int)
    requires Rehashing(s, hash, h, x, e) && !s[x].filled
    ensures Reachable(s, hash) && Unique(s)
  {
    assert x == e;
  }

  // ----- what deletion does to the contents

  lemma {:induction false} ClearRepresents<K, V>(s: seq<Entry<K, V>>, m: map<K, V>, i: int)
    requires Unique(s) && Represents(s, m) && 0 <= i < |s| && s[i].filled
    ensures Unique(Cleared(s, i)) && Represents(Cleared(s, i), m - {s[i].key})
    ensures |m - {s[i].key}| == |m| - 1
  {
    var k := s[i].key;
    var t := Cleared(s, i);
    assert (m - {k}).Keys == m.Keys - {k};
    forall q | q in m - {k} ensures exists p :: At(t, p, q) {
      var p :| At(s, p, q);
      assert At(t, p, q);
    }
    forall j | 0 <= j < |t| && t[j].filled ensures t[j].key in m - {k} && (m - {k})[t[j].key] == t[j].val {
      assert j != i && s[j] == t[j];
      assert s[j].key != k;
    }
  }

  lemma FillUnique<K, V>(s: seq<Entry<K, V>>, m: map<K, V>, i: int, k: K, v: V)
    requires Unique(s) && Represents(s, m) && 0 <= i < |s| && !s[i].filled && k !in m
    ensures Unique(Insertion(s, i, k, v))
  {
    forall j | 0 <= j < |s| && s[j].filled ensures s[j].key != k {
      assert s[j].key in m;
    }
  }

  lemma {:induction false} FillRepresents<K, V>(s: seq<Entry<K, V>>, m: map<K, V>, i: int, k: K, v: V)
    requires Unique(s) && Represents(s, m) && 0 <= i < |s| && !s[i].filled && k !in m
    ensures Unique(Insertion(s, i, k, v)) && Represents(Insertion(s, i, k, v), m[k := v])
    ensures |m[k := v]| == |m| + 1
  {
    FillUnique(s, m, i, k, v);
    hide Unique;
    var t, n := Insertion(s, i, k, v), m[k := v];
    assert n.Keys == m.Keys + {k};
    forall j | 0 <= j < |t| && t[j].filled ensures t[j].key in n && n[t[j].key] == t[j].val {
      if j != i { assert t[j] == s[j] && s[j].key in m; }
    }
    forall q | q in n ensures exists p :: At(t, p, q) {
      if q == k {
        assert At(t, i, q);
      } else {
        var p :| At(s, p, q);
        assert At(t, p, q);
      }
    }
  }

  /** Taking out the entry at `h` opens the run to be re-inserted. */
  lemma StartDeletion<K, V>(s: seq<Entry<K, V>>, hash: K -> nat, m: map<K, V>, h: int, g: int) returns (e: int)
    requires Table(s, hash, m) && 0 <= h < |s| && s[h].filled && Empty(s, g)
    ensures Rehashing(Cleared(s, h), hash, h, Next(h, |s|), e)
    ensures Represents(Cleared(s, h), m - {s[h].key}) && |m - {s[h].key}| == |m| - 1
  {
    e := StartRehash(s, hash, h, g);
    ClearRepresents(s, m, h);
  }

  /** The entry at `x` leaves the table ... */
  lemma TakenOut<K, V>(s: seq<Entry<K, V>>, hash: K -> nat, m: map<K, V>, h: int, x: int, e: int)
    requires Rehashing(s, hash, h, x, e) && Represents(s, m) && 0 <= x < |s| && s[x].filled
    ensures |Cleared(s, x)| == |s| && Empty(Cleared(s, x), x)
    ensures |m - {s[x].key}| == |m| - 1
  {
    ClearRepresents(s, m, x);
  }

  lemma PutKey<K, V>(m: map<K, V>, k: K)
    requires k in m
    ensures (m - {k})[k := m[k]] == m
  {
  }

  lemma BoundAt<K, V>(s: seq<Entry<K, V>>, m: map<K, V>, x: int)
    requires Represents(s, m) && 0 <= x < |s| && s[x].filled
    ensures s[x].key in m && m[s[x].key] == s[x].val
  {
  }

  lemma Sizes<K, V>(s: seq<Entry<K, V>>, x: int, p: int)
    requires 0 <= x < |s| && s[x].filled
    ensures |Cleared(s, x)| == |s|
    ensures 0 <= p < |s| ==> |Insertion(Cleared(s, x), p, s[x].key, s[x].val)| == |s|
  {
  }

  /** ... and comes back where its probe stops, leaving the bindings as they were. */
  lemma PutBack<K, V>(s: seq<Entry<K, V>>, hash: K -> nat, m: map<K, V>, h: int, x: int, e: int, p: int)
    requires Rehashing(s, hash, h, x, e) && Represents(s, m) && 0 <= x < |s| && s[x].filled
    requires Stops(Cleared(s, x), hash, s[x].key, p)
    ensures var u := Insertion(Cleared(s, x), p, s[x].key, s[x].val);
      Rehashing(u, hash, h, Next(x, |s|), e) && Represents(u, m) && |u| == |s|
    ensures 0 <= Next(x, |s|) < |s| && !Cleared(s, x)[p].filled
    ensures (m - {s[x].key})[s[x].key := s[x].val] == m
  {
    BoundAt(s, m, x);
    Sizes(s, x, p);
    hide Rehashing, Represents, Unique, Stops, Insertion, Cleared;
    RehashRange(s, hash, h, x, e);
    RehashTarget(s, hash, h, x, e, p);
    RehashStep(s, hash, h, x, e, p);
    ClearRepresents(s, m, x);
    FillRepresents(Cleared(s, x), m - {s[x].key}, p, s[x].key, s[x].val);
    PutKey(m, s[x].key);
  }

  lemma EndDeletion<K, V>(s: seq<Entry<K, V>>, hash: K -> nat, m: map<K, V>, h: int, x: int, e: int)
    requires Rehashing(s, hash, h, x, e) && Represents(s, m) && !s[x].filled
    ensures Table(s, hash, m)
  {
    EndRehash(s, hash, h, x, e);
  }

  // ----- copying a table entry by entry

  /** The next entry's key is not among those copied, which are not all. */
  lemma CopyNew<K, V>(s: seq<Entry<K, V>>, i: nat, m: map<K, V>, n: map<K, V>)
    requires i < |s| && s[i].filled && Unique(s) && Represents(s, m) && Represents(s[..i], n)
    ensures s[i].key !in n && |n| < |m|
  {
    var k := s[i].key;
    forall q | q in n ensures q != k && q in m {
      var p :| At(s[..i], p, q);
      assert s[p].key == q;
    }
    assert n.Keys <= m.Keys && k in m.Keys;
    SubsetSize(n.Keys, m.Keys);
  }

  lemma {:induction false} CopyStep<K, V>(s: seq<Entry<K, V>>, i: nat, m: map<K, V>, n: map<K, V>)
    requires i < |s| && Unique(s) && Represents(s, m) && Represents(s[..i], n)
    ensures !s[i].filled ==> Represents(s[..i + 1], n)
    ensures s[i].filled ==>
              && s[i].key !in n && |n| < |m|
              && Represents(s[..i + 1], n[s[i].key := s[i].val])
  {
    var t := s[..i + 1];
    var k := s[i].key;
    if s[i].filled {
      CopyNew(s, i, m, n);
    }
    var n' := if s[i].filled then n[k := s[i].val] else n;
    forall q | q in n' ensures exists p :: At(t, p, q) {
      if s[i].filled && q == k {
        assert At(t, i, q);
      } else {
        var p :| At(s[..i], p, q);
        assert At(t, p, q);
      }
    }
    hide Unique;
    forall j | 0 <= j < |t| && t[j].filled ensures t[j].key in n' && n'[t[j].key] == t[j].val {
      if j < i {
        assert s[..i][j] == t[j];
        assert t[j].key in n;
      }
    }
  }

  lemma {:induction false} SameTable<K, V>(s: seq<Entry<K, V>>, m: map<K, V>, n: map<K, V>)
    requires Represents(s, m) && Represents(s, n)
    ensures m == n
  {
    forall k | k in m ensures k in n && n[k] == m[k] {
      var p :| At(s, p, k);
    }
    forall k | k in n ensures k in m {
      var p :| At(s, p, k);
    }
  }
}
