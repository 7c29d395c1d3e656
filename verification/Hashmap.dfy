/** The kernel's hash map: an entry array that grows, shrinks and is probed in place.  Every
    method is tied to one operation on the finite map `contents`. */
module Hashmap {
  import opened Bits
  import opened HashTable
  import opened Seqs

  /** `hash & (cap - 1)` is the home slot when the capacity is a power of two. */
  lemma HomeByMask<K>(hash: K -> nat, k: K, log: nat)
    ensures And(hash(k), Pow2(log) - 1) == Home(hash, k, Pow2(log))
    ensures 0 <= Home(hash, k, Pow2(log)) < Pow2(log)
  {
    AndMask(hash(k), log);
  }

  lemma NextByMask(i: nat, log: nat)
    requires i < Pow2(log)
    ensures And(i + 1, Pow2(log) - 1) == Next(i, Pow2(log))
  {
    AndMask(i + 1, log);
    if i + 1 == Pow2(log) { DivMulAdd(1, Pow2(log), 0); } else { DivMulAdd(0, Pow2(log), i + 1); }
  }

  lemma HalfPow2(log: nat)
    ensures log > 0 ==> Pow2(log) / 2 == Pow2(log - 1) && Pow2(log) == 2 * Pow2(log - 1)
    ensures log >= 3 ==> Pow2(log) / 8 == Pow2(log - 3)
    ensures log < 3 ==> Pow2(log) / 8 == 0
  {
  }

  lemma EmptyTable<K, V>(a: seq<Entry<K, V>>, hash: K -> nat, s: seq<Entry<K, V>>)
    requires |a| > 0 && forall i :: 0 <= i < |a| ==> !a[i].filled
    ensures Table(a, hash, map[]) && Represents(s[..0], map[])
  {
  }

  /** Zeroed entries, if the kernel has the memory: `granted` is the allocator's answer. */
  method CallocEntries<K(0), V(0)>(n: nat, k0: K, v0: V, granted: bool) returns (a: array?<Entry<K, V>>)
    ensures a != null <==> granted
    ensures a != null ==> fresh(a) && a.Length == n && forall i :: 0 <= i < n ==> a[i] == Entry(k0, v0, false)
  {
    if !granted {
      a := null;
    } else {
      a := new Entry<K, V>[n](_ => Entry(k0, v0, false));
    }
  }

  class Hashmap<K(==, 0, !new), V(0, !new)> {
    const hash: K -> nat
    /** What zeroed memory holds. */
    const zeroKey: K
    const zeroVal: V
    var entries: array<Entry<K, V>>
    var length: nat

    ghost var log: nat
    ghost var contents: map<K, V>

    function Cap(): nat
      reads this
    {
      entries.Length
    }

    ghost predicate Shape()
      reads this, entries
    {
      entries.Length == Pow2(log)
    }

    ghost predicate IsTable()
      reads this, entries
    {
      Shape() && Table(entries[..], hash, contents)
    }

    /** The invariant between operations: the count is exact and at most half the slots are used. */
    ghost predicate Valid()
      reads this, entries
    {
      IsTable() && length == |contents| && length <= Cap() / 2
    }

    constructor (hash: K -> nat, zeroKey: K, zeroVal: V, entries: array<Entry<K, V>>, length: nat, ghost log: nat)
      ensures this.hash == hash && this.zeroKey == zeroKey && this.zeroVal == zeroVal
      ensures this.entries == entries && this.length == length && this.log == log && contents == map[]
    {
      this.hash := hash;
      this.zeroKey := zeroKey;
      this.zeroVal := zeroVal;
      this.entries := entries;
      this.length := length;
      this.log := log;
      this.contents := map[];
    }

    static method Alloc(hash: K -> nat, zeroKey: K, zeroVal: V, caphint: nat, granted: bool) returns (m: Hashmap?<K, V>)
      requires caphint <= MAX_POW2
      ensures m != null ==> fresh(m) && fresh(m.entries) && m.Valid() && m.contents == map[] && m.hash == hash
      ensures m != null <==> granted
      ensures m != null ==> caphint <= m.Cap() && forall e: nat :: caphint <= Pow2(e) ==> m.Cap() <= Pow2(e)
    {
      var cap := Pow2Ceil(caphint);
      forall e: nat | caphint <= Pow2(e) ensures cap <= Pow2(e) {
        CeilLogLeast(caphint, e);
        Pow2Monotone(CeilLog(caphint), e);
      }
      var a := CallocEntries(cap, zeroKey, zeroVal, granted);
      if a == null {
        return null;
      }
      m := new Hashmap(hash, zeroKey, zeroVal, a, 0, CeilLog(caphint));
    }

    /** Probes from the home slot to the first slot that is unfilled or holds `key`. */
    method Get(key: K) returns (found: bool, val: V)
      requires Valid()
      ensures found <==> key in contents
      ensures found ==> val == contents[key]
    {
      HomeByMask(hash, key, log);
      ghost var gap := Room();
      ProbeStart(entries[..], hash, key, gap);
      var idx := And(hash(key), Cap() - 1);
      while entries[idx].filled
        invariant 0 <= idx < Cap() && Probing(entries[..], hash, key, idx, gap)
        decreases ToGap(hash, key, idx, gap, Cap())
      {
        if entries[idx].key == key {
          ProbeStop(entries[..], hash, key, idx, gap);
          StopsHit(entries[..], hash, contents, key, idx);
          return true, entries[idx].val;
        }
        ProbeNext(entries[..], hash, key, idx, gap);
        idx := idx + 1;
        if idx >= Cap() {
          idx := 0;
        }
      }
      ProbeStop(entries[..], hash, key, idx, gap);
      StopsHit(entries[..], hash, contents, key, idx);
      return false, zeroVal;
    }

    lemma Room() returns (e: nat)
      requires Valid()
      ensures Empty(entries[..], e)
    {
      e := HasRoom(entries[..], contents);
    }

    /** Moves every entry to a new array of `newcap` slots; only allocation can fail.  The new
        map starts from the old length, yet its insertions never find it half full. */
    method Resize(newcap: nat, ghost newlog: nat, granted: bool) returns (ok: bool)
      requires Valid() && newcap == Pow2(newlog) && newcap > 0
      requires length > 0 ==> 2 * length - 1 < newcap / 2
      modifies this`entries, this`log
      ensures ok <==> granted
      ensures contents == old(contents) && length == old(length)
      ensures !ok ==> entries == old(entries) && log == old(log)
      ensures ok ==> fresh(entries) && Cap() == newcap && IsTable()
      decreases 1
    {
      hide Pow2, Stops, Represents, Unique, Reachable, Insertion;
      var a := CallocEntries(newcap, zeroKey, zeroVal, granted);
      if a == null {
        return false;
      }
      var newmap := new Hashmap(hash, zeroKey, zeroVal, a, length, newlog);
      ghost var s := entries[..];
      EmptyTable(a[..], hash, s);
      for i := 0 to Cap()
        invariant fresh(newmap) && fresh(newmap.entries) && newmap.entries == a && newmap.hash == hash
        invariant newmap.zeroKey == zeroKey && newmap.zeroVal == zeroVal
        invariant newmap.IsTable() && newmap.Cap() == newcap
        invariant Represents(s[..i], newmap.contents)
        invariant newmap.length == length + |newmap.contents|
        invariant unchanged(this) && entries[..] == s
      {
        var ent := entries[i];
        CopyStep(s, i, contents, newmap.contents);
        if ent.filled {
          ghost var e := HasRoom(a[..], newmap.contents);
          ghost var before := a[..];
          ghost var copied := newmap.contents;
          var put, at := newmap.Put(ent.key, ent.val, false);
          PutTable(before, hash, copied, ent.key, ent.val, at);
        }
      }
      assert s[..Cap()] == s;
      SameTable(s, contents, newmap.contents);
      entries := newmap.entries;
      log := newlog;
      return true;
    }

    /** Binds `key` to `val`, growing first when the table is half full.  `at` is the slot used. */
    method Put(key: K, val: V, granted: bool) returns (ok: bool, ghost at: int)
      requires Shape()
      requires length >= Cap() / 2 ==> Valid()
      requires length < Cap() / 2 ==> exists e :: Empty(entries[..], e)
      modifies this, entries
      ensures ok <==> old(length < Cap() / 2) || granted
      ensures contents == if ok then old(contents)[key := val] else old(contents)
      // with room the insertion happens in place and cannot fail
      ensures old(length < Cap() / 2) ==>
                && ok && entries == old(entries) && log == old(log)
                && Stops(old(entries[..]), hash, key, at)
                && entries[..] == Insertion(old(entries[..]), at, key, val)
                && length == if old(entries[..])[at].filled then old(length) else old(length) + 1
      ensures !ok ==> entries == old(entries) && entries[..] == old(entries[..]) && length == old(length)
      ensures old(Valid()) ==> Valid()
      ensures entries == old(entries) || fresh(entries)
      ensures Cap() == if ok && old(length >= Cap() / 2) then 2 * old(Cap()) else old(Cap())
      decreases if length >= Cap() / 2 then 2 else 0
    {
      hide Pow2, Table, Stops;
      HalfPow2(log + 1);
      if length >= Cap() / 2 {
        ok := Resize(Cap() * 2, log + 1, granted);
        if !ok {
          at := 0;
          return;
        }
        ghost var e := TableRoom(entries[..], hash, contents);
      }
      at := PutSlot(key, val);
      return true, at;
    }

    /** The probing half of `Put`: writes the slot where the probe for `key` stops. */
    method PutSlot(key: K, val: V) returns (ghost at: int)
      requires Shape() && exists e :: Empty(entries[..], e)
      modifies this`length, this`contents, entries
      ensures Stops(old(entries[..]), hash, key, at)
      ensures entries[..] == Insertion(old(entries[..]), at, key, val)
      ensures contents == old(contents)[key := val]
      ensures length == if old(entries[..])[at].filled then old(length) else old(length) + 1
      ensures old(IsTable()) ==>
                && IsTable()
                && |contents| == if old(entries[..])[at].filled then old(|contents|) else old(|contents|) + 1
    {
      hide Pow2, And, Table, Probing, Stops, Home, ToGap, Dist, Before;
      HomeByMask(hash, key, log);
      ghost var gap :| Empty(entries[..], gap);
      ghost var s, m, len := entries[..], contents, length;
      ProbeStart(s, hash, key, gap);
      var idx := And(hash(key), Cap() - 1);
      while entries[idx].filled
        invariant 0 <= idx < Cap() && Probing(s, hash, key, idx, gap)
        invariant entries[..] == s && contents == m && length == len
        decreases ToGap(hash, key, idx, gap, Cap())
      {
        if entries[idx].key == key {
          ProbeStop(s, hash, key, idx, gap);
          if Table(s, hash, m) { PutTable(s, hash, m, key, val, idx); }
          entries[idx] := entries[idx].(val := val);
          contents := contents[key := val];
          return idx;
        }
        ProbeNext(s, hash, key, idx, gap);
        idx := idx + 1;
        if idx >= Cap() {
          idx := 0;
        }
      }
      ProbeStop(s, hash, key, idx, gap);
      if Table(s, hash, m) { PutTable(s, hash, m, key, val, idx); }
      entries[idx] := Entry(key, val, true);
      contents := contents[key := val];
      length := length + 1;
      return idx;
    }

    method RmIdx(idx: nat)
      requires Shape() && idx < Cap() && length > 0
      modifies this`length, this`contents, entries
      ensures entries[..] == Cleared(old(entries[..]), idx) && length == old(length) - 1
      ensures contents == old(contents) - {old(entries[idx].key)}
      ensures old(Unique(entries[..]) && Represents(entries[..], contents) && entries[idx].filled) ==>
                Unique(entries[..]) && Represents(entries[..], contents) && |contents| == old(|contents|) - 1
    {
      hide Unique, Represents, Pow2;
      if Unique(entries[..]) && Represents(entries[..], contents) && entries[idx].filled {
        ClearRepresents(entries[..], contents, idx);
      }
      contents := contents - {entries[idx].key};
      entries[idx] := entries[idx].(filled := false);
      length := length - 1;
    }

    /** The state while a run is being re-inserted: same array, same bindings. */
    ghost predicate Moving(array_: array<Entry<K, V>>, cap: nat, m: map<K, V>, hole: int, idx: int, e: int)
      reads this, entries
    {
      && Shape() && entries == array_ && Cap() == cap && 0 <= idx < cap
      && Rehashing(entries[..], hash, hole, idx, e) && Represents(entries[..], contents)
      && contents == m && length == |contents| && length < cap / 2
    }

    /** Takes out the entry at `idx` and puts it back; there is room, so the put cannot resize. */
    method Reinsert(idx: nat, ghost hole: int, ghost e: int)
      requires Moving(entries, Cap(), contents, hole, idx, e) && entries[idx].filled
      modifies this, entries
      ensures log == old(log)
      ensures Moving(old(entries), old(Cap()), old(contents), hole, Next(idx, old(Cap())), e)
    {
      hide Pow2, Unique, Rehashing, Represents, Stops, Insertion, Cleared;
      var krehash, vrehash := entries[idx].key, entries[idx].val;
      ghost var t, m := entries[..], contents;
      TakenOut(t, hash, m, hole, idx, e);
      RmIdx(idx);
      var put, at := Put(krehash, vrehash, false);
      PutBack(t, hash, m, hole, idx, e, at);
    }

    /** Empties slot `idx0` and re-inserts the entries of the run behind it. */
    method Delete(idx0: nat, ghost gap: int)
      requires Valid() && idx0 < Cap() && entries[idx0].filled && Empty(entries[..], gap)
      modifies this, entries
      ensures Valid() && contents == old(contents) - {old(entries[idx0].key)}
      ensures entries == old(entries) && log == old(log)
    {
      hide Pow2, And, Home, Table, Unique, Rehashing, Represents;
      ghost var array_, cap, m, k := entries, Cap(), contents, entries[idx0].key;
      ghost var e := StartDeletion(entries[..], hash, contents, idx0, gap);
      RmIdx(idx0);
      NextByMask(idx0, log);
      var idx := And(idx0 + 1, Cap() - 1);
      RehashRange(entries[..], hash, idx0, idx, e);
      while entries[idx].filled
        invariant log == old(log) && Moving(array_, cap, m - {k}, idx0, idx, e)
        decreases Dist(idx0, e, cap) - Dist(idx0, idx, cap)
      {
        RehashRange(entries[..], hash, idx0, idx, e);
        NextByMask(idx, log);
        Reinsert(idx, idx0, e);
        idx := And(idx + 1, Cap() - 1);
      }
      EndDeletion(entries[..], hash, contents, idx0, idx, e);
    }

    /** The slot at which the probe for `key` stops. */
    method Locate(key: K) returns (idx: nat, ghost gap: int)
      requires Valid()
      ensures idx < Cap() && Stops(entries[..], hash, key, idx) && Empty(entries[..], gap)
    {
      hide Pow2, And, Probing, Stops, Home, ToGap, Table, Unique, Represents;
      HomeByMask(hash, key, log);
      ghost var s, cap := entries[..], Cap();
      gap := TableRoom(s, hash, contents);
      ProbeStart(s, hash, key, gap);
      idx := And(hash(key), Cap() - 1);
      while entries[idx].filled && entries[idx].key != key
        invariant 0 <= idx < cap && Probing(s, hash, key, idx, gap)
        decreases ToGap(hash, key, idx, gap, cap)
      {
        NextByMask(idx, log);
        ProbeNext(s, hash, key, idx, gap);
        idx := And(idx + 1, Cap() - 1);
      }
      ProbeStop(s, hash, key, idx, gap);
    }

    /** Deletes `key`, re-inserting the run of entries behind it, and then may try to shrink;
        `false` only reports that shrinking found no memory. */
    method Remove(key: K, granted: bool) returns (ok: bool)
      requires Valid()
      modifies this, entries
      ensures Valid() && contents == old(contents) - {key}
      ensures var shrink := key in old(contents) && 0 < length <= old(Cap()) / 8;
        && (ok <==> !shrink || granted)
        && Cap() == if shrink && granted then old(Cap()) / 2 else old(Cap())
      ensures entries == old(entries) || fresh(entries)
    {
      hide Pow2, Stops, Table, Unique, Rehashing, Represents;
      var idx, gap := Locate(key);
      StopsHit(entries[..], hash, contents, key, idx);
      if !entries[idx].filled {
        assert contents - {key} == contents;
        return true;
      }
      StopsAt(entries[..], hash, key, idx);
      Delete(idx, gap);
      // halves the array when at most an eighth is used
      if length > 0 && length <= Cap() / 8 {
        ShrinkSizes(log, length);
        ok := Resize(Cap() / 2, log - 1, granted);
        return ok;
      }
      return true;
    }

    static lemma ShrinkSizes(log: nat, length: nat)
      requires 0 < length <= Pow2(log) / 8
      ensures log >= 3 && Pow2(log) / 2 == Pow2(log - 1)
      ensures 2 * length - 1 < Pow2(log) / 2 / 2 && length <= Pow2(log) / 2 / 2
    {
      HalfPow2(log);
      if log > 0 { HalfPow2(log - 1); }
    }

    method Clear()
      requires Shape()
      modifies this`length, this`contents, entries
      ensures Valid() && contents == map[] && entries == old(entries)
    {
      for i := 0 to Cap()
        invariant Shape() && entries == old(entries)
        invariant forall j :: 0 <= j < i ==> !entries[j].filled
      {
        entries[i] := Entry(zeroKey, zeroVal, false);
      }
      length := 0;
      contents := map[];
    }

    method Perform(op: Op<K, V>, granted: bool) returns (a: Answer<V>)
      requires Valid()
      modifies this, entries
      ensures Valid() && MapStep(old(contents), op, granted, a, contents)
      ensures op.PutOp? ==> (a == Done(false) <==> !granted && 2 * |old(contents)| + 1 >= old(Cap()))
      ensures entries == old(entries) || fresh(entries)
    {
      hide Table;
      match op {
        case PutOp(k, v) =>
          ghost var e := TableRoom(entries[..], hash, contents);
          var ok, at := Put(k, v, granted);
          a := Done(ok);
        case RemoveOp(k) =>
          var ok := Remove(k, granted);
          a := Done(ok);
        case GetOp(k) =>
          var found, v := Get(k);
          a := Found(if found then Some(v) else None);
        case ClearOp =>
          Clear();
          a := Done(true);
      }
    }

    /** For any sequence of operations the table answers as the finite map does, whichever
        allocations happen to fail; no operation fails whose allocation does not. */
    method Replay(ops: seq<Op<K, V>>, grants: seq<bool>) returns (answers: seq<Answer<V>>)
      requires Valid() && |grants| == |ops|
      modifies this, entries
      ensures Valid() && MapRun(old(contents), ops, grants, answers, contents)
    {
      hide Table, MapStep;
      answers := [];
      ghost var m0 := contents;
      for i := 0 to |ops|
        invariant Valid() && (entries == old(entries) || fresh(entries))
        invariant MapRun(m0, ops[..i], grants[..i], answers, contents)
      {
        ghost var m := contents;
        var a := Perform(ops[i], grants[i]);
        MapRunAppend(m0, ops[..i], grants[..i], answers, m, ops[i], grants[i], a, contents);
        assert ops[..i + 1] == ops[..i] + [ops[i]] && grants[..i + 1] == grants[..i] + [grants[i]];
        answers := answers + [a];
      }
      assert ops[..|ops|] == ops && grants[..|ops|] == grants;
    }
  }

  datatype Op<K, V> = PutOp(key: K, val: V) | RemoveOp(key: K) | GetOp(key: K) | ClearOp
  datatype Answer<V> = Done(ok: bool) | Found(val: Option<V>)

  /** One operation on a finite map: `a` is a right answer and `m'` the map afterwards.  A put may
      fail, and a removal report that it could not shrink, only if memory was not granted. */
  ghost predicate MapStep<K, V>(m: map<K, V>, op: Op<K, V>, granted: bool, a: Answer<V>, m': map<K, V>) {
    match op
    case PutOp(k, v) => a.Done? && (granted ==> a.ok) && m' == if a.ok then m[k := v] else m
    case RemoveOp(k) => a.Done? && (granted ==> a.ok) && m' == m - {k}
    case GetOp(k) => a == Found(if k in m then Some(m[k]) else None) && m' == m
    case ClearOp => a == Done(true) && m' == map[]
  }

  ghost predicate MapRun<K(!new), V(!new)>(m: map<K, V>, ops: seq<Op<K, V>>, grants: seq<bool>,
                                           answers: seq<Answer<V>>, m': map<K, V>) {
    |ops| == |grants| == |answers| &&
    if ops == [] then m' == m
    else
      var n := |ops| - 1;
      exists p :: MapRun(m, ops[..n], grants[..n], answers[..n], p) && MapStep(p, ops[n], grants[n], answers[n], m')
  }

  lemma {:induction false} MapRunAppend<K(!new), V(!new)>(m: map<K, V>, ops: seq<Op<K, V>>, grants: seq<bool>,
                                                      answers: seq<Answer<V>>, p: map<K, V>, op: Op<K, V>,
                                                      granted: bool, a: Answer<V>, m': map<K, V>)
    requires MapRun(m, ops, grants, answers, p) && MapStep(p, op, granted, a, m')
    ensures MapRun(m, ops + [op], grants + [granted], answers + [a], m')
  {
    assert (ops + [op])[..|ops|] == ops && (grants + [granted])[..|ops|] == grants;
    assert (answers + [a])[..|ops|] == answers;
  }
}
