/** The kernel's block allocator and file reading and writing.  A block in the buffer cache is
    taken to keep what was put into it. */
module Fs {
  import opened Layout
  import opened FsSpec

  function OnDisk(disk: Disk, sb: Super, i: int): Dinode {
    var x := Iblock(i, sb);
    if x in disk && |disk[x]| == BSIZE then DinodeAt(disk[x], ISIZE * (i % IPB)) else Dinode(0, 0, 0, 0, 0, [])
  }

  ghost predicate Synced(v: View, sb: Super, i: int) {
    i in v.ino ==> OnDisk(v.disk, sb, i) == v.ino[i]
  }

  ghost predicate AllSynced(v: View, sb: Super) {
    forall i :: Synced(v, sb, i)
  }

  /** All inodes but perhaps `i` are on disk as they are in memory. */
  ghost predicate OthersSynced(v: View, sb: Super, i: int) {
    forall j :: j != i ==> Synced(v, sb, j)
  }

  ghost predicate Full(disk: Disk, sb: Super) {
    forall b :: 0 <= b < sb.size ==> BitOf(disk, sb, b)
  }

  /** Blocks outside the inode area do not change what inodes are on disk. */
  lemma SyncFrame(v: View, sb: Super, x: int, y: Block, i: int)
    requires Shaped(v, sb) && OthersSynced(v, sb, i) && sb.bmapstart <= x
    ensures OthersSynced(View(v.disk[x := y], v.ino), sb, i)
    ensures Synced(v, sb, i) ==> Synced(View(v.disk[x := y], v.ino), sb, i)
  {
    var w := View(v.disk[x := y], v.ino);
    forall j ensures Synced(v, sb, j) ==> Synced(w, sb, j) {
    }
  }

  lemma SyncOther(v: View, w: View, sb: Super, i: int)
    requires OthersSynced(v, sb, i) && w.disk == v.disk
    requires forall j :: j != i ==> (j in w.ino <==> j in v.ino) && (j in v.ino ==> w.ino[j] == v.ino[j])
    ensures OthersSynced(w, sb, i)
  {
    forall j | j != i ensures Synced(w, sb, j) {
      assert Synced(v, sb, j);
    }
  }

  class FileSystem {
    const sb: Super
    var disk: Disk
    var icache: map<int, Dinode>  // in-memory inodes that were read from disk
    ghost var ino: Inodes

    ghost function V(): View
      reads this
    {
      View(disk, ino)
    }

    ghost predicate Cached()
      reads this
    {
      forall i :: i in icache ==> i in ino && icache[i] == ino[i]
    }

    ghost predicate Valid()
      reads this
    {
      Inv(V(), sb, {}) && Cached() && AllSynced(V(), sb)
    }

    /** Mounts an image. */
    constructor (sb: Super, disk: Disk, ghost ino: Inodes)
      requires Inv(View(disk, ino), sb, {}) && AllSynced(View(disk, ino), sb)
      ensures Valid() && V() == View(disk, ino) && this.sb == sb && icache == map[]
    {
      this.sb := sb;
      this.disk := disk;
      this.ino := ino;
      icache := map[];
    }

    method Bzero(b: int)
      modifies this`disk
      ensures disk == old(disk)[b := Zeros()]
    {
      disk := disk[b := Zeros()];
    }

    /** Allocates the lowest free block, zeroed; 0 when there is none. */
    method Balloc(ghost pending: set<int>, ghost i: int) returns (b: int)
      requires Inv(V(), sb, pending) && OthersSynced(V(), sb, i)
      modifies this`disk
      ensures b == 0 ==> disk == old(disk) && Full(disk, sb)
      ensures b != 0 ==> sb.Lo() <= b < sb.size && b !in pending && !BitOf(old(disk), sb, b)
      ensures b != 0 ==> forall c :: 0 <= c < b ==> BitOf(old(disk), sb, c)
      ensures b != 0 ==> Inv(V(), sb, pending + {b}) && b in disk && disk[b] == Zeros()
      ensures b != 0 ==> (forall j, k :: Slot(V(), j, k) == Slot(old(V()), j, k)) && SameBytes(old(V()), V())
      ensures OthersSynced(V(), sb, i) && (Synced(old(V()), sb, i) ==> Synced(V(), sb, i))
    {
      hide Inv, BitOf, Slot, SameBytes, OthersSynced, Synced, Bit, WithBit;
      InvShaped(V(), sb, pending);
      var base := 0;
      while base < sb.size
        invariant 0 <= base && base % BPB == 0 && disk == old(disk)
        invariant forall c :: 0 <= c < base && c < sb.size ==> BitOf(disk, sb, c)
        decreases sb.size - base
      {
        BblockRange(base, sb);
        var bp := Bblock(base, sb);
        var bi := 0;
        while bi < BPB && base + bi < sb.size
          invariant 0 <= bi <= BPB && disk == old(disk)
          invariant forall c :: 0 <= c < base + bi && c < sb.size ==> BitOf(disk, sb, c)
          decreases BPB - bi
        {
          BitHere(disk, sb, base, bi);
          var m := bi % 8;
          if !Bit(disk[bp][bi / 8], m) {
            b := base + bi;
            AllocStep(V(), sb, pending, b, i);
            disk := disk[bp := disk[bp][bi / 8 := WithBit(disk[bp][bi / 8], m, true)]];
            Bzero(b);
            return;
          }
          bi := bi + 1;
        }
        base := base + BPB;
      }
      return 0;
    }

    /** Frees a block that has just been taken out of its slot; its bit is always set. */
    method Bfree(b: int, ghost pending: set<int>, ghost i: int)
      requires Inv(V(), sb, pending) && b in pending && OthersSynced(V(), sb, i)
      modifies this`disk
      ensures Bblock(b, sb) in old(disk) && |old(disk)[Bblock(b, sb)]| == BSIZE && 0 <= b
      ensures disk == WithBitOf(old(disk), sb, b, false)
      ensures Inv(V(), sb, pending - {b}) && OthersSynced(V(), sb, i)
      ensures forall j, k :: Slot(V(), j, k) == Slot(old(V()), j, k)
      ensures SameBytes(old(V()), V())
    {
      hide Inv, Slot, SameBytes, OthersSynced, Synced, Bit, WithBit;
      FreeStep(V(), sb, pending, b, i);
      var bp, bi := Bblock(b, sb), b % BPB;
      var m := bi % 8;
      assert Bit(disk[bp][bi / 8], m);
      disk := disk[bp := disk[bp][bi / 8 := WithBit(disk[bp][bi / 8], m, false)]];
    }

    /** The block in address `k` of inode `i`, allocated if there is none; 0 when out of blocks. */
    method Address(i: int, k: int) returns (addr: int)
      requires Inv(V(), sb, {}) && Cached() && OthersSynced(V(), sb, i) && i in icache && 0 <= k <= NDIRECT
      modifies this
      ensures Inv(V(), sb, {}) && Cached() && OthersSynced(V(), sb, i) && icache.Keys == old(icache.Keys)
      ensures Grows(old(V()), V(), i) && addr == Slot(V(), i, k)
      ensures Slot(old(V()), i, k) != 0 ==> V() == old(V())
      ensures addr == 0 ==> Full(disk, sb)
    {
      hide Inv, Slot, SameBytes, OthersSynced, Synced, BitOf, Grows, Filled;
      AddrSlot(V(), sb, i, k);
      GrowsSelf(V(), i);
      addr := icache[i].addrs[k];
      if addr == 0 {
        ghost var v := V();
        addr := Balloc({}, i);
        if addr == 0 { return 0; }
        ghost var u := V();
        assert {} + {addr} == {addr};
        SetAddrInv(u, sb, {addr}, i, k, addr);
        GrowsFilled(v, u, WithAddr(u, i, k, addr), i, k, addr);
        SyncOther(u, WithAddr(u, i, k, addr), sb, i);
        assert {addr} - {addr} == {};
        icache := icache[i := icache[i].(addrs := icache[i].addrs[k := addr])];
        ino := ino[i := ino[i].(addrs := ino[i].addrs[k := addr])];
        FilledAt(u, V(), i, k, addr);
      }
    }

    /** The disk block that holds the file's block `bn`, allocated if there is none. */
    method Bmap(i: int, bn: int) returns (addr: int)
      requires Inv(V(), sb, {}) && Cached() && OthersSynced(V(), sb, i) && i in icache && 0 <= bn < MAXFILE
      modifies this
      ensures Inv(V(), sb, {}) && Cached() && OthersSynced(V(), sb, i) && icache.Keys == old(icache.Keys)
      ensures Grows(old(V()), V(), i) && addr == Slot(V(), i, Key(bn))
      ensures Slot(old(V()), i, Key(bn)) != 0 ==> V() == old(V())
      ensures addr == 0 ==> Full(disk, sb)
    {
      hide Inv, Slot, SameBytes, OthersSynced, Synced, BitOf, Grows, Filled, Word, WithWord, Full, IsBlock, Slotted;
      if bn < NDIRECT {
        addr := Address(i, bn);
        return;
      }
      ghost var v := V();
      InvSlotted(v, sb, {});
      EntrySlot(v, sb, i, bn - NDIRECT);
      addr := Address(i, NDIRECT);
      ghost var u := V();
      InvSlotted(u, sb, {});
      EntrySlot(u, sb, i, bn - NDIRECT);
      if addr == 0 { return; }
      var x, j := addr, bn - NDIRECT;
      addr := Word(disk[x], j);
      if addr == 0 {
        addr := Balloc({}, i);
        if addr == 0 {
          assert V() == u;
          return;
        }
        ghost var w := V();
        assert {} + {addr} == {addr};
        SetEntryInv(w, sb, {addr}, i, j, addr);
        InvSlotted(w, sb, {addr});
        EntrySlot(w, sb, i, j);
        EntryGrows(v, u, w, sb, i, j, addr);
        SyncFrame(w, sb, x, WithWord(disk[x], j, addr), i) by {
          InvShaped(w, sb, {addr});
          LoPositive(w, sb);
          BblockRange(0, sb);
        }
        assert {addr} - {addr} == {};
        disk := disk[x := WithWord(disk[x], j, addr)];
        FilledAt(w, V(), i, NDIRECT + 1 + j, addr);
      }
    }

    /** Reads inode `i` into memory unless it is there. */
    method Lock(i: int)
      requires Valid() && i in ino && OnDisk(disk, sb, i).kind != 0
      modifies this`icache
      ensures Valid() && i in icache
      ensures icache == old(icache)[i := OnDisk(disk, sb, i)]
    {
      hide Inv;
      assert Synced(V(), sb, i);
      InvSlotted(V(), sb, {});
      InodeBlock(V(), sb, i);
      if i !in icache {
        var bp := disk[Iblock(i, sb)];
        icache := icache[i := DinodeAt(bp, ISIZE * (i % IPB))];
      } else {
        assert icache == icache[i := OnDisk(disk, sb, i)];
      }
    }

    /** Writes the in-memory inode to its place on disk. */
    method Update(i: int)
      requires Inv(V(), sb, {}) && Cached() && OthersSynced(V(), sb, i) && i in icache
      modifies this`disk
      ensures Valid() && SameBytes(old(V()), V())
      ensures forall j, k :: Slot(V(), j, k) == Slot(old(V()), j, k)
      ensures forall b :: 0 <= b < sb.size ==> BitOf(disk, sb, b) == BitOf(old(disk), sb, b)
    {
      hide Inv, Slot, SameBytes, OthersSynced, AllSynced, Synced, BitOf, WithDinode;
      InvSlotted(V(), sb, {});
      InodeBlock(V(), sb, i);
      UpdateStep(V(), sb, i);
      var x := Iblock(i, sb);
      disk := disk[x := WithDinode(disk[x], i % IPB, icache[i])];
    }

    /** Up to `n0` bytes from `off0` on.  Where no block is missing nothing changes; a missing block is
        allocated, in memory only, and reads as zeros, until the disk is full. */
    method Read(i: int, off0: int, n0: int) returns (r: int, dst: seq<int>)
      requires Inv(V(), sb, {}) && Cached() && OthersSynced(V(), sb, i) && i in icache
      requires 0 <= off0 < 0x1_0000_0000 && 0 <= n0 < 0x1_0000_0000 && 0 <= ino[i].size <= MAXFILE * BSIZE
      modifies this
      ensures Inv(V(), sb, {}) && Cached() && OthersSynced(V(), sb, i) && icache.Keys == old(icache.Keys)
      ensures Grows(old(V()), V(), i)
      ensures r == |dst| <= n0 && (r > 0 ==> off0 + r <= old(ino[i].size))
      ensures off0 > old(ino[i].size) || off0 + n0 >= 0x1_0000_0000 ==> r == 0 && V() == old(V())
      // all that was asked for, or all there is, unless a missing block met a full disk
      ensures off0 <= old(ino[i].size) && off0 + n0 < 0x1_0000_0000 ==>
                r == n0 || off0 + r == old(ino[i].size) || Full(disk, sb)
      ensures NoGap(old(V()), i, off0 + n0) ==> V() == old(V())
      ensures NoGap(old(V()), i, off0 + n0) && off0 <= old(ino[i].size) && off0 + n0 < 0x1_0000_0000 ==>
                r == n0 || off0 + r == old(ino[i].size)
      ensures r > 0 ==> dst == old(Contents(V(), i))[off0..off0 + r]
    {
      hide Inv, Slotted, Slot, SameBytes, OthersSynced, AllSynced, Synced, Grows, Word, Present, NoGap, Full,
        BitOf, Byte;
      var off, n := off0, n0;
      ghost var v := V();
      GrowsSelf(v, i);
      if off > icache[i].size || (off + n) % 0x1_0000_0000 < off {
        return 0, [];
      }
      if off + n > icache[i].size { n := icache[i].size - off; }
      GapFree(v, i, off0 + n0, off0 + n);
      var tot := 0;
      dst := [];
      while tot < n
        invariant 0 <= tot <= n && off == off0 + tot && |dst| == tot
        invariant Inv(V(), sb, {}) && Cached() && OthersSynced(V(), sb, i) && icache.Keys == old(icache.Keys) && i in icache
        invariant Grows(v, V(), i) && (Present(v, i, off0 + n) ==> V() == v)
        invariant forall o :: off0 <= o < off ==> dst[o - off0] == Byte(v, i, o)
        decreases n - tot
      {
        BlockIn(off);
        ghost var u := V();
        if Present(v, i, off0 + n) { Needed(v, i, off, off0 + n); }
        var addr := Bmap(i, off / BSIZE);
        GrowsTrans(v, u, V(), i);
        InvSlotted(V(), sb, {});
        DataAt(V(), sb, i, off / BSIZE);
        if addr == 0 { break; }
        var bp := disk[addr];
        var m := if n - tot < BSIZE - off % BSIZE then n - tot else BSIZE - off % BSIZE;
        Chunk(V(), i, off, m);
        GrowsByte(v, V(), i);
        dst := dst + bp[off % BSIZE..off % BSIZE + m];
        tot := tot + m;
        off := off + m;
      }
      return tot, dst;
    }

    /** Makes the file at least `off` bytes long and writes its inode. */
    method Extend(i: int, off: int)
      requires Inv(V(), sb, {}) && Cached() && OthersSynced(V(), sb, i) && i in icache && 0 <= off < 0x1_0000_0000
      modifies this
      ensures Valid() && icache.Keys == old(icache.Keys) && SameBytes(old(V()), V())
      ensures forall j, k :: Slot(V(), j, k) == Slot(old(V()), j, k)
      ensures forall b :: 0 <= b < sb.size ==> BitOf(disk, sb, b) == BitOf(old(disk), sb, b)
      ensures i in old(ino)
      ensures ino == old(ino)[i := old(ino)[i].(size := if off > old(ino)[i].size then off else old(ino)[i].size)]
    {
      hide Inv, Slot, SameBytes, OthersSynced, AllSynced, Synced, BitOf;
      ghost var w := V();
      if off > icache[i].size {
        icache := icache[i := icache[i].(size := off)];
        ino := ino[i := ino[i].(size := off)];
      }
      ghost var z := V();
      SizedInv(w, z, sb, i, off);
      Update(i);
      SameTrans(w, z, V());
    }

    /** Writes `src` at `off`: -1 when that is past the end or too large, else the number of
        bytes written, fewer than asked only when the disk is full. */
    method Write(i: int, src: seq<int>, off0: int) returns (r: int)
      requires Inv(V(), sb, {}) && Cached() && OthersSynced(V(), sb, i) && i in icache
      requires 0 <= off0 < 0x1_0000_0000 && |src| < 0x1_0000_0000
      requires forall q :: 0 <= q < |src| ==> 0 <= src[q] < 256
      modifies this
      ensures r != -1 ==> Valid() && icache.Keys == old(icache.Keys)
      ensures Whole(old(V()), i) ==> Whole(V(), i)
      ensures r == -1 <==> off0 > old(ino)[i].size || off0 + |src| > MAXFILE * BSIZE
      ensures r == -1 ==> V() == old(V()) && icache == old(icache)
      ensures r != -1 ==> 0 <= r <= |src| && Written(old(V()), V(), i, off0, src, r)
      ensures r != -1 ==> ino[i].size == (if off0 + r > old(ino)[i].size then off0 + r else old(ino)[i].size)
      ensures r != -1 && r < |src| ==> Full(disk, sb)
    {
      hide Inv, Slot, SameBytes, OthersSynced, AllSynced, Synced, Slotted, Grows, Written, Whole, Full, Going, BitOf;
      var off, n := off0, |src|;
      if off > icache[i].size || (off + n) % 0x1_0000_0000 < off {
        return -1;
      }
      if off + n > MAXFILE * BSIZE {
        return -1;
      }
      ghost var v := V();
      WrittenStart(v, i, off0, src);
      assert Going(v, V(), sb, i, off0, src, 0) by { GoingFrom(v, V(), sb, i, off0, src, 0); }
      var tot := 0;
      while tot < n
        invariant 0 <= tot <= n && off == off0 + tot
        invariant Cached() && icache.Keys == old(icache.Keys) && i in icache
        invariant Going(v, V(), sb, i, off0, src, tot)
        decreases n - tot
      {
        BlockIn(off);
        ghost var u0 := V();
        GoingParts(v, u0, sb, i, off0, src, tot);
        var addr := Bmap(i, off / BSIZE);
        GoingGrows(v, u0, V(), sb, i, off0, src, tot);
        InvSlotted(V(), sb, {});
        DataAt(V(), sb, i, off / BSIZE);
        if addr == 0 { break; }
        var m := if n - tot < BSIZE - off % BSIZE then n - tot else BSIZE - off % BSIZE;
        ghost var u := V();
        var bp := disk[addr];
        bp := bp[..off % BSIZE] + src[tot..tot + m] + bp[off % BSIZE + m..];
        GoingChunk(v, u, sb, i, off0, src, tot, m, bp);
        disk := disk[addr := bp];
        tot := tot + m;
        off := off + m;
      }
      ghost var w := V();
      GoingParts(v, w, sb, i, off0, src, tot);
      Extend(i, off);
      WrittenSame(v, w, V(), i, off0, src, tot);
      if Whole(v, i) { WrittenWhole(v, V(), i, off0, src, tot); }
      if tot < n { FullSame(w.disk, disk, sb); }
      return tot;
    }

    /** Frees all blocks of the file. */
    method Trunc(i: int)
      requires Inv(V(), sb, {}) && Cached() && OthersSynced(V(), sb, i) && i in icache
      modifies this
      ensures Valid() && icache.Keys == old(icache.Keys)
      ensures ino.Keys == old(ino).Keys && ino[i] == old(ino)[i].(addrs := ino[i].addrs, size := 0)
      ensures Contents(V(), i) == []
      ensures forall k :: 0 <= k <= NDIRECT ==> ino[i].addrs[k] == 0
      ensures forall j :: j in ino && j != i ==> ino[j] == old(ino)[j]
      ensures forall j, k :: Slot(V(), j, k) == if j == i then 0 else Slot(old(V()), j, k)
      ensures forall j, o :: j != i && 0 <= o ==> Byte(V(), j, o) == Byte(old(V()), j, o)
      ensures forall b :: 0 <= b < sb.size ==> (BitOf(disk, sb, b) <==> BitOf(old(disk), sb, b) && b !in Blocks(old(V()), i))
    {
      hide Inv, Slot, SameBytes, OthersSynced, AllSynced, Synced, BitOf, Blocks, Word, Rest, Truncating, Contents;
      ghost var v, c := V(), icache;
      TruncStart(v, sb, i);
      ino := Emptied(v, i).ino;
      var k := 0;
      while k < NDIRECT
        invariant 0 <= k <= NDIRECT && icache.Keys == c.Keys && |icache[i].addrs| == NDIRECT + 1
        invariant forall j :: j in c && j != i ==> icache[j] == c[j]
        invariant icache[i] == c[i].(addrs := icache[i].addrs)
        invariant forall m :: 0 <= m <= NDIRECT ==> icache[i].addrs[m] == if m < k then 0 else v.ino[i].addrs[m]
        invariant ino == Emptied(v, i).ino && Truncating(v, V(), sb, i, Keys(k))
      {
        TruncDirect(v, V(), sb, i, k);
        if icache[i].addrs[k] != 0 {
          TruncNext(v, V(), sb, i, Keys(k), k);
          ghost var u := V();
          Bfree(icache[i].addrs[k], Rest(v, i, Keys(k)), i);
          TruncFreed(v, u, V(), sb, i, Keys(k), k);
          icache := icache[i := icache[i].(addrs := icache[i].addrs[k := 0])];
        } else {
          TruncSkip(v, V(), sb, i, Keys(k), k);
        }
        KeysNext(k);
        k := k + 1;
      }
      if icache[i].addrs[NDIRECT] != 0 {
        FreeIndirect(v, i, icache[i].addrs[NDIRECT]);
        icache := icache[i := icache[i].(addrs := icache[i].addrs[NDIRECT := 0])];
      } else {
        TruncNoIndirect(v, V(), sb, i);
      }
      icache := icache[i := icache[i].(size := 0)];
      assert icache[i].addrs == seq(NDIRECT + 1, _ => 0);
      TruncEnd(v, V(), sb, i);
      ghost var z := V();
      Update(i);
      TruncDone(v, z, V(), sb, i);
      EmptiedShape(v, V(), i);
    }

    /** Frees the blocks in the indirect block at `x`, then that block itself. */
    method FreeIndirect(ghost v: View, i: int, x: int)
      requires Truncating(v, V(), sb, i, Keys(NDIRECT)) && Slot(v, i, NDIRECT) == x != 0
      modifies this`disk
      ensures Truncating(v, V(), sb, i, {})
    {
      hide Inv, Slot, SameBytes, OthersSynced, Synced, BitOf, Word, Rest, Truncating, Blocks, IsBlock;
      TruncIndirect(v, V(), sb, i);
      var j := 0;
      while j < NINDIRECT
        invariant 0 <= j <= NINDIRECT
        invariant Truncating(v, V(), sb, i, Keys(NDIRECT + 1 + j) + {NDIRECT})
      {
        TruncEntry(v, V(), sb, i, j);
        ghost var ks := Keys(NDIRECT + 1 + j) + {NDIRECT};
        var a := Word(disk[x], j);
        if a != 0 {
          TruncNext(v, V(), sb, i, ks, NDIRECT + 1 + j);
          ghost var u := V();
          Bfree(a, Rest(v, i, ks), i);
          TruncFreed(v, u, V(), sb, i, ks, NDIRECT + 1 + j);
        } else {
          TruncSkip(v, V(), sb, i, ks, NDIRECT + 1 + j);
        }
        EntryKeys(j);
        j := j + 1;
      }
      LastKeys();
      TruncNext(v, V(), sb, i, {NDIRECT}, NDIRECT);
      ghost var u := V();
      Bfree(x, Rest(v, i, {NDIRECT}), i);
      TruncFreed(v, u, V(), sb, i, {NDIRECT}, NDIRECT);
      assert {NDIRECT} - {NDIRECT} == {};
    }
  }

  /** After `tot` bytes of `src` were written to file `i` from `off` on: those bytes, all others
      of all files as they were, and no block below what was written missing. */
  ghost predicate Written(v: View, w: View, i: int, off: int, src: seq<int>, tot: int) {
    && 0 <= off && 0 <= tot <= |src|
    && (forall j :: j in w.ino <==> j in v.ino) && i in v.ino
    && (forall j :: j in v.ino && j != i ==> w.ino[j] == v.ino[j])
    && w.ino[i] == v.ino[i].(addrs := w.ino[i].addrs, size := w.ino[i].size)
    && (forall j, k :: j != i ==> Slot(w, j, k) == Slot(v, j, k))
    && (forall k :: Slot(v, i, k) != 0 ==> Slot(w, i, k) == Slot(v, i, k))
    && (forall j, o :: 0 <= o ==> Byte(w, j, o) == if j == i && off <= o < off + tot then src[o - off] else Byte(v, j, o))
    && (Whole(v, i) ==> forall bn :: 0 <= bn && bn * BSIZE < off + tot ==> Slot(w, i, Key(bn)) != 0)
  }

  lemma WrittenStart(v: View, i: int, off: int, src: seq<int>)
    requires i in v.ino && 0 <= off <= v.ino[i].size
    ensures Written(v, v, i, off, src, 0)
  {
    hide Slot, Byte;
  }

  lemma WrittenGrows(v: View, u: View, w: View, i: int, off: int, src: seq<int>, tot: int)
    requires Written(v, u, i, off, src, tot) && Grows(u, w, i)
    ensures Written(v, w, i, off, src, tot)
    ensures i in u.ino && i in w.ino && w.ino[i].size == u.ino[i].size
  {
    hide Slot, Byte;
    forall bn | Whole(v, i) && 0 <= bn && bn * BSIZE < off + tot ensures Slot(w, i, Key(bn)) != 0 {
      assert Slot(u, i, Key(bn)) != 0;
    }
    forall k | Slot(v, i, k) != 0 ensures Slot(w, i, k) == Slot(v, i, k) {
      assert Slot(u, i, k) == Slot(v, i, k);
    }
  }

  lemma BlockIn(off: int)
    requires 0 <= off < MAXFILE * BSIZE
    ensures 0 <= off / BSIZE < MAXFILE
  {
  }

  /** `y` is block `x` with `s` put in at `at`. */
  ghost predicate Patched(v: View, x: int, at: int, s: seq<int>, y: Block) {
    && x != 0 && x in v.disk && IsBlock(v.disk[x]) && 0 <= at && at + |s| <= BSIZE
    && y == v.disk[x][..at] + s + v.disk[x][at + |s|..]
  }

  /** One byte of the block that a chunk was written into. */
  lemma ChunkByte(u: View, i: int, off: int, s: seq<int>, m: int, y: Block, o: int)
    requires 0 <= off && 0 < m <= BSIZE - off % BSIZE && |s| == m && 0 <= o && o / BSIZE == off / BSIZE
    requires Patched(u, Slot(u, i, Key(off / BSIZE)), off % BSIZE, s, y)
    ensures |y| == BSIZE && y[o % BSIZE] == if off <= o < off + m then s[o - off] else Byte(u, i, o)
  {
    hide Slot;
    assert o - off == o % BSIZE - off % BSIZE;
  }

  lemma ChunkBlock(x: Block, at: int, s: seq<int>)
    requires IsBlock(x) && 0 <= at && at + |s| <= BSIZE && forall q :: 0 <= q < |s| ==> 0 <= s[q] < 256
    ensures IsBlock(x[..at] + s + x[at + |s|..])
  {
  }

  lemma WriteChunk(v: View, u: View, sb: Super, i: int, off0: int, src: seq<int>, tot: int, m: int, y: Block)
    requires Slotted(u, sb) && Written(v, u, i, off0, src, tot)
    requires 0 < m <= |src| - tot && m <= BSIZE - (off0 + tot) % BSIZE
    requires forall q :: 0 <= q < |src| ==> 0 <= src[q] < 256
    requires 0 <= off0 + tot
    requires Patched(u, Slot(u, i, Key((off0 + tot) / BSIZE)), (off0 + tot) % BSIZE, src[tot..tot + m], y)
    ensures IsBlock(y)
    ensures var w := View(u.disk[Slot(u, i, Key((off0 + tot) / BSIZE)) := y], u.ino);
      Slotted(w, sb) && Written(v, w, i, off0, src, tot + m)
  {
    hide Slot, Byte, Slotted, IsBlock, Written;
    var off := off0 + tot;
    WrittenOff(v, u, i, off0, src, tot);
    var x, s := Slot(u, i, Key(off / BSIZE)), src[tot..tot + m];
    ChunkBlock(u.disk[x], off % BSIZE, s);
    DataBytes(u, sb, i, off / BSIZE, y);
    var w := View(u.disk[x := y], u.ino);
    forall j, o | 0 <= o
      ensures Byte(w, j, o) == if j == i && off <= o < off + m then src[o - off0] else Byte(u, j, o)
    {
      if j == i && o / BSIZE == off / BSIZE {
        ChunkByte(u, i, off, s, m, y, o);
      }
    }
    WrittenMore(v, u, w, i, off0, src, tot, m);
  }

  /** What writing means for the file's contents, and for the other files'. */
  lemma WrittenContents(v: View, w: View, i: int, off: int, src: seq<int>, r: int, j: int)
    requires Written(v, w, i, off, src, r) && 0 <= v.ino[i].size && off <= v.ino[i].size
    requires w.ino[i].size == (if off + r > v.ino[i].size then off + r else v.ino[i].size)
    requires j in v.ino && j != i ==> 0 <= v.ino[j].size
    ensures Contents(w, i) == Overwritten(Contents(v, i), off, src[..r])
    ensures j in v.ino && j != i ==> j in w.ino && Contents(w, j) == Contents(v, j)
  {
    hide Byte, Slot;
  }

  function Overwritten(c: seq<int>, off: int, s: seq<int>): seq<int>
    requires 0 <= off <= |c|
  {
    c[..off] + s + (if off + |s| < |c| then c[off + |s|..] else [])
  }

  /** Where a write stands before its inode is written out. */
  ghost predicate Going(v: View, w: View, sb: Super, i: int, off: int, src: seq<int>, tot: int) {
    && Inv(w, sb, {}) && OthersSynced(w, sb, i) && Written(v, w, i, off, src, tot)
    && i in v.ino && i in w.ino && w.ino[i].size == v.ino[i].size
  }

  lemma GoingFrom(v: View, w: View, sb: Super, i: int, off: int, src: seq<int>, tot: int)
    requires Inv(w, sb, {}) && OthersSynced(w, sb, i) && Written(v, w, i, off, src, tot)
    requires i in v.ino && i in w.ino && w.ino[i].size == v.ino[i].size
    ensures Going(v, w, sb, i, off, src, tot)
  {
  }

  lemma GoingParts(v: View, w: View, sb: Super, i: int, off: int, src: seq<int>, tot: int)
    requires Going(v, w, sb, i, off, src, tot)
    ensures Inv(w, sb, {}) && OthersSynced(w, sb, i) && Written(v, w, i, off, src, tot)
    ensures i in v.ino && i in w.ino && w.ino[i].size == v.ino[i].size
  {
  }

  lemma GoingGrows(v: View, u: View, w: View, sb: Super, i: int, off: int, src: seq<int>, tot: int)
    requires Going(v, u, sb, i, off, src, tot) && Grows(u, w, i) && Inv(w, sb, {}) && OthersSynced(w, sb, i)
    ensures Going(v, w, sb, i, off, src, tot)
  {
    hide Inv, OthersSynced, Written, Grows;
    WrittenGrows(v, u, w, i, off, src, tot);
  }

  lemma GoingChunk(v: View, u: View, sb: Super, i: int, off0: int, src: seq<int>, tot: int, m: int, y: Block)
    requires Going(v, u, sb, i, off0, src, tot) && 0 <= off0 + tot
    requires 0 < m <= |src| - tot && m <= BSIZE - (off0 + tot) % BSIZE
    requires forall q :: 0 <= q < |src| ==> 0 <= src[q] < 256
    requires Patched(u, Slot(u, i, Key((off0 + tot) / BSIZE)), (off0 + tot) % BSIZE, src[tot..tot + m], y)
    ensures Going(v, View(u.disk[Slot(u, i, Key((off0 + tot) / BSIZE)) := y], u.ino), sb, i, off0, src, tot + m)
  {
    hide Inv, OthersSynced, Synced, Written, Slot, Patched;
    WrittenOff(v, u, i, off0, src, tot);
    InvSlotted(u, sb, {});
    WriteChunk(v, u, sb, i, off0, src, tot, m, y);
    PatchedIn(u, Slot(u, i, Key((off0 + tot) / BSIZE)), (off0 + tot) % BSIZE, src[tot..tot + m], y);
    DataWrite(u, sb, i, (off0 + tot) / BSIZE, y);
    InvShaped(u, sb, {});
    DataAt(u, sb, i, (off0 + tot) / BSIZE);
    SyncFrame(u, sb, Slot(u, i, Key((off0 + tot) / BSIZE)), y, i);
  }

  lemma InvSlotted(v: View, sb: Super, pending: set<int>)
    requires Inv(v, sb, pending)
    ensures Slotted(v, sb)
  {
  }

  lemma PatchedIn(v: View, x: int, at: int, s: seq<int>, y: Block)
    requires Patched(v, x, at, s, y)
    ensures x != 0
  {
  }

  lemma WrittenOff(v: View, w: View, i: int, off: int, src: seq<int>, tot: int)
    requires Written(v, w, i, off, src, tot)
    ensures 0 <= off && 0 <= tot <= |src| && i in v.ino && i in w.ino
  {
  }

  lemma WrittenMore(v: View, u: View, w: View, i: int, off0: int, src: seq<int>, tot: int, m: int)
    requires Written(v, u, i, off0, src, tot) && w.ino == u.ino && forall j, k :: Slot(w, j, k) == Slot(u, j, k)
    requires 0 < m <= |src| - tot && 0 <= off0 && m <= BSIZE - (off0 + tot) % BSIZE
    requires Slot(u, i, Key((off0 + tot) / BSIZE)) != 0
    requires forall j, o ::
        0 <= o ==> Byte(w, j, o) == if j == i && off0 + tot <= o < off0 + tot + m then src[o - off0] else Byte(u, j, o)
    ensures Written(v, w, i, off0, src, tot + m)
  {
    hide Slot, Byte;
    forall bn | Whole(v, i) && 0 <= bn && bn * BSIZE < off0 + tot + m ensures Slot(w, i, Key(bn)) != 0 {
      assert Slot(w, i, Key(bn)) == Slot(u, i, Key(bn));
    }
  }

  /** A new size changes neither slots nor bytes. */
  lemma SizedInv(w: View, z: View, sb: Super, i: int, size: int)
    requires Inv(w, sb, {}) && i in w.ino && 0 <= size < 0x1_0000_0000
    requires z == w || z == View(w.disk, w.ino[i := w.ino[i].(size := size)])
    requires OthersSynced(w, sb, i)
    ensures Inv(z, sb, {}) && OthersSynced(z, sb, i)
    ensures forall j, k :: Slot(z, j, k) == Slot(w, j, k)
    ensures SameBytes(w, z)
  {
    hide BitOf, Byte, Word;
    forall j, k ensures Slot(z, j, k) == Slot(w, j, k) {}
    assert IsDinode(w.ino[i]);
    SameSlots(w, z, sb);
    SyncOther(w, z, sb, i);
    SameBytesFrom(w, z);
  }

  lemma SameBytesFrom(w: View, z: View)
    requires z.disk == w.disk && forall j, k :: Slot(z, j, k) == Slot(w, j, k)
    ensures SameBytes(w, z)
  {
    hide Slot;
  }

  lemma WrittenSame(v: View, z: View, t: View, i: int, off: int, src: seq<int>, tot: int)
    requires Written(v, z, i, off, src, tot) && SameBytes(z, t)
    requires (forall j, k :: Slot(t, j, k) == Slot(z, j, k))
    requires (forall j :: j in t.ino <==> j in z.ino) && (forall j :: j in z.ino && j != i ==> t.ino[j] == z.ino[j])
    requires i in t.ino && i in z.ino && t.ino[i] == z.ino[i].(size := t.ino[i].size)
    ensures Written(v, t, i, off, src, tot)
  {
    hide Slot, Byte;
    forall bn | Whole(v, i) && 0 <= bn && bn * BSIZE < off + tot ensures Slot(t, i, Key(bn)) != 0 {
      assert Slot(z, i, Key(bn)) != 0;
    }
  }

  lemma WrittenWhole(v: View, w: View, i: int, off: int, src: seq<int>, tot: int)
    requires Written(v, w, i, off, src, tot) && Whole(v, i)
    requires w.ino[i].size == (if off + tot > v.ino[i].size then off + tot else v.ino[i].size)
    ensures Whole(w, i)
  {
    hide Slot, Byte;
    forall bn | 0 <= bn && bn * BSIZE < w.ino[i].size ensures Slot(w, i, Key(bn)) != 0 {
      if bn * BSIZE >= off + tot { assert Slot(v, i, Key(bn)) != 0; }
    }
  }

  lemma FullSame(a: Disk, b: Disk, sb: Super)
    requires Full(a, sb) && forall c :: 0 <= c < sb.size ==> BitOf(b, sb, c) == BitOf(a, sb, c)
    ensures Full(b, sb)
  {
    hide BitOf;
  }

  lemma InodeBlock(v: View, sb: Super, i: int)
    requires Slotted(v, sb) && i in v.ino
    ensures 0 < i < sb.ninodes && Iblock(i, sb) in v.disk && IsBlock(v.disk[Iblock(i, sb)]) && |v.disk[Iblock(i, sb)]| == BSIZE
    ensures 1 < Iblock(i, sb) < sb.bmapstart <= sb.Lo()
  {}

  /** Writing an inode to its place changes nothing but what the disk says of it. */
  lemma InodeWrite(v: View, sb: Super, i: int)
    requires Slotted(v, sb) && OthersSynced(v, sb, i) && i in v.ino
    requires Iblock(i, sb) in v.disk && |v.disk[Iblock(i, sb)]| == BSIZE
    ensures var x := Iblock(i, sb); var y := WithDinode(v.disk[x], i % IPB, v.ino[i]); var w := View(v.disk[x := y], v.ino);
      && IsBlock(y) && !Indirect(v, x) && Slotted(w, sb) && AllSynced(w, sb) && SameBytes(v, w)
      && (forall j, k :: Slot(w, j, k) == Slot(v, j, k))
  {
    hide Slot, SameBytes, WithDinode, IsBlock;
    var x := Iblock(i, sb);
    InodeBlock(v, sb, i);
    assert IsDinode(v.ino[i]);
    var y := WithDinode(v.disk[x], i % IPB, v.ino[i]);
    DinodeAfter(v.disk[x], i % IPB, v.ino[i], i % IPB);
    IsBlockSize(y);
    NotIndirect(v, sb, x);
    PlainSlots(v, sb, x, y);
    var w := View(v.disk[x := y], v.ino);
    ElsewhereBytes(v, w, x, y);
    forall j ensures Synced(w, sb, j) {
      if j in v.ino && j != i {
        assert Synced(v, sb, j);
        if Iblock(j, sb) == x {
          DinodeAfter(v.disk[x], i % IPB, v.ino[i], j % IPB);
        }
      }
    }
  }

  lemma UpdateStep(v: View, sb: Super, i: int)
    requires Inv(v, sb, {}) && OthersSynced(v, sb, i) && i in v.ino
    requires Iblock(i, sb) in v.disk && |v.disk[Iblock(i, sb)]| == BSIZE
    ensures var x := Iblock(i, sb); var w := View(v.disk[x := WithDinode(v.disk[x], i % IPB, v.ino[i])], v.ino);
      && Inv(w, sb, {}) && AllSynced(w, sb) && SameBytes(v, w)
      && (forall j, k :: Slot(w, j, k) == Slot(v, j, k))
      && (forall b :: 0 <= b < sb.size ==> BitOf(w.disk, sb, b) == BitOf(v.disk, sb, b))
  {
    hide Slot, SameBytes, AllSynced, OthersSynced, Bitmap, BitOf, WithDinode, IsBlock, Indirect;
    var x := Iblock(i, sb);
    InodeBlock(v, sb, i);
    InodeWrite(v, sb, i);
    var y := WithDinode(v.disk[x], i % IPB, v.ino[i]);
    PlainWrite(v, sb, {}, x, y);
    forall b | 0 <= b < sb.size ensures BitOf(v.disk[x := y], sb, b) == BitOf(v.disk, sb, b) {
      BitFrame(v.disk, sb, x, y, b);
    }
  }

  lemma SizeBound(v: View, sb: Super, i: int)
    requires Inv(v, sb, {}) && Whole(v, i)
    ensures i in v.ino && 0 <= v.ino[i].size <= MAXFILE * BSIZE
  {
    assert IsDinode(v.ino[i]);
    assert Slot(v, i, Key(MAXFILE)) == 0;
  }

  /** The block of a position below `end` is there. */
  lemma Needed(v: View, i: int, off: int, end: int)
    requires Present(v, i, end) && 0 <= off < end <= MAXFILE * BSIZE
    ensures 0 <= off / BSIZE < MAXFILE && Slot(v, i, Key(off / BSIZE)) != 0
  {
    hide Slot;
    assert off / BSIZE * BSIZE <= off;
  }

  lemma OthersFromAll(v: View, sb: Super, i: int)
    requires AllSynced(v, sb)
    ensures OthersSynced(v, sb, i)
  {
  }

  lemma DataAt(v: View, sb: Super, i: int, bn: int)
    requires Slotted(v, sb)
    ensures var x := Slot(v, i, Key(bn)); x != 0 ==> x in v.disk && IsBlock(v.disk[x]) && |v.disk[x]| == BSIZE && sb.Lo() <= x < sb.size
  {
  }

  /** A stretch within one block is read off it. */
  lemma Chunk(v: View, i: int, off: int, m: int)
    requires 0 <= off && 0 <= m <= BSIZE - off % BSIZE
    requires var x := Slot(v, i, Key(off / BSIZE)); x != 0 && x in v.disk && |v.disk[x]| == BSIZE
    ensures var x := Slot(v, i, Key(off / BSIZE));
      forall o :: off <= o < off + m ==> v.disk[x][off % BSIZE..off % BSIZE + m][o - off] == Byte(v, i, o)
  {
    hide Slot;
    var x := Slot(v, i, Key(off / BSIZE));
    forall o | off <= o < off + m ensures v.disk[x][off % BSIZE..off % BSIZE + m][o - off] == Byte(v, i, o) {}
  }

  /** How much of `n` bytes at `off` a file of `size` bytes has. */
  /** No block below `end` and the size is missing. */
  ghost predicate NoGap(v: View, i: int, end: int) {
    i in v.ino && forall bn :: 0 <= bn && bn * BSIZE < end && bn * BSIZE < v.ino[i].size ==> Slot(v, i, Key(bn)) != 0
  }

  lemma GapFree(v: View, i: int, end: int, to: int)
    requires i in v.ino && to == if end > v.ino[i].size then v.ino[i].size else end
    ensures NoGap(v, i, end) <==> Present(v, i, to)
  {
    hide Slot;
  }

  // ----- emptying a file

  ghost function Keys(from: int): set<int> {
    set k | from <= k < SLOTS && IsKey(k)
  }

  predicate IsKey(k: int) {
    0 <= k < SLOTS
  }

  /** The blocks in the slots `ks` of file `i`. */
  ghost function Rest(v: View, i: int, ks: set<int>): set<int> {
    set k | k in ks && Slot(v, i, k) != 0 :: Slot(v, i, k)
  }

  /** File `i`, which was as in `v`, has been emptied; the blocks of the slots `ks` are still to
      be freed. */
  ghost predicate Truncating(v: View, w: View, sb: Super, i: int, ks: set<int>) {
    && Inv(v, sb, {}) && i in v.ino
    && w.ino == Emptied(v, i).ino && Inv(w, sb, Rest(v, i, ks)) && OthersSynced(w, sb, i)
    && (forall j, k :: Slot(w, j, k) == if j == i then 0 else Slot(v, j, k))
    && (forall j, o :: j != i && 0 <= o ==> Byte(w, j, o) == Byte(v, j, o))
    && (forall x :: sb.Lo() <= x < sb.size ==> x in v.disk && x in w.disk && w.disk[x] == v.disk[x])
  }

  lemma TruncStart(v: View, sb: Super, i: int)
    requires Inv(v, sb, {}) && OthersSynced(v, sb, i) && i in v.ino
    ensures |v.ino[i].addrs| == NDIRECT + 1 && Slot(v, i, NDIRECT) == v.ino[i].addrs[NDIRECT]
    ensures Truncating(v, View(v.disk, Emptied(v, i).ino), sb, i, Keys(0))
  {
    hide BitOf, Word;
    assert IsDinode(v.ino[i]);
    EmptiedInv(v, sb, i);
    var w := Emptied(v, i);
    forall j, k ensures Slot(w, j, k) == if j == i then 0 else Slot(v, j, k) {
      EmptiedSlots(v, i, j, k);
    }
    assert Rest(v, i, Keys(0)) == Blocks(v, i);
    SyncOther(v, w, sb, i);
  }

  lemma TruncDirect(v: View, w: View, sb: Super, i: int, k: int)
    requires Truncating(v, w, sb, i, Keys(k)) && 0 <= k < NDIRECT
    ensures |v.ino[i].addrs| == NDIRECT + 1 && Slot(v, i, k) == v.ino[i].addrs[k] && k in Keys(k)
    ensures Inv(w, sb, Rest(v, i, Keys(k))) && OthersSynced(w, sb, i)
  {
    AddrSlot(v, sb, i, k);
  }

  /** The next block to free is still pending. */
  lemma TruncNext(v: View, w: View, sb: Super, i: int, ks: set<int>, k: int)
    requires Truncating(v, w, sb, i, ks) && k in ks && Slot(v, i, k) != 0
    ensures Inv(w, sb, Rest(v, i, ks)) && OthersSynced(w, sb, i) && Slot(v, i, k) in Rest(v, i, ks)
    ensures Rest(v, i, ks) - {Slot(v, i, k)} == Rest(v, i, ks - {k})
  {
    hide Slot, Shaped, Bitmap;
  }

  lemma TruncFreed(v: View, w: View, u: View, sb: Super, i: int, ks: set<int>, k: int)
    requires Truncating(v, w, sb, i, ks) && k in ks && Slot(v, i, k) != 0
    requires Bblock(Slot(v, i, k), sb) in w.disk && |w.disk[Bblock(Slot(v, i, k), sb)]| == BSIZE && 0 <= Slot(v, i, k)
    requires u == View(WithBitOf(w.disk, sb, Slot(v, i, k), false), w.ino)
    requires Inv(u, sb, Rest(v, i, ks) - {Slot(v, i, k)}) && OthersSynced(u, sb, i)
    requires (forall j, m :: Slot(u, j, m) == Slot(w, j, m)) && SameBytes(w, u)
    ensures Truncating(v, u, sb, i, ks - {k})
  {
    hide Slot, Byte, BitOf, OthersSynced, Bitmap, WithBit;
    TruncNext(v, w, sb, i, ks, k);
    var b := Slot(v, i, k);
    LoPositive(w, sb);
    BblockRange(b, sb);
  }

  lemma TruncSkip(v: View, w: View, sb: Super, i: int, ks: set<int>, k: int)
    requires Truncating(v, w, sb, i, ks) && k in ks && Slot(v, i, k) == 0
    ensures Truncating(v, w, sb, i, ks - {k})
  {
    hide Slot, Byte, Inv, OthersSynced;
    assert Rest(v, i, ks - {k}) == Rest(v, i, ks);
  }

  /** A file without an indirect block has no entries. */
  lemma TruncNoIndirect(v: View, w: View, sb: Super, i: int)
    requires Truncating(v, w, sb, i, Keys(NDIRECT)) && Slot(v, i, NDIRECT) == 0
    ensures Truncating(v, w, sb, i, {})
  {
    hide Byte, Inv, OthersSynced;
    assert Rest(v, i, Keys(NDIRECT)) == {} by {
      forall k | k in Keys(NDIRECT) ensures Slot(v, i, k) == 0 {}
    }
    assert Rest(v, i, {}) == {};
  }

  lemma TruncIndirect(v: View, w: View, sb: Super, i: int)
    requires Truncating(v, w, sb, i, Keys(NDIRECT))
    ensures Truncating(v, w, sb, i, Keys(NDIRECT + 1) + {NDIRECT})
  {
    hide Slot, Byte, Inv, OthersSynced;
    assert Keys(NDIRECT) == Keys(NDIRECT + 1) + {NDIRECT};
  }

  lemma TruncEntry(v: View, w: View, sb: Super, i: int, j: int)
    requires Truncating(v, w, sb, i, Keys(NDIRECT + 1 + j) + {NDIRECT}) && 0 <= j < NINDIRECT && Slot(v, i, NDIRECT) != 0
    ensures var x := Slot(v, i, NDIRECT);
      x in w.disk && |w.disk[x]| == BSIZE && Word(w.disk[x], j) == Slot(v, i, NDIRECT + 1 + j)
    ensures NDIRECT + 1 + j in Keys(NDIRECT + 1 + j) + {NDIRECT}
  {
    EntrySlot(v, sb, i, j);
  }

  lemma EntryKeys(j: int)
    requires 0 <= j < NINDIRECT
    ensures Keys(NDIRECT + 1 + j) + {NDIRECT} - {NDIRECT + 1 + j} == Keys(NDIRECT + 1 + (j + 1)) + {NDIRECT}
  {
  }

  lemma LastKeys()
    ensures Keys(NDIRECT + 1 + NINDIRECT) + {NDIRECT} == {NDIRECT}
  {
  }

  lemma EmptiedShape(v: View, w: View, i: int)
    requires i in v.ino && w.ino == Emptied(v, i).ino
    ensures w.ino.Keys == v.ino.Keys && w.ino[i] == v.ino[i].(addrs := w.ino[i].addrs, size := 0)
    ensures |w.ino[i].addrs| == NDIRECT + 1 && forall k :: 0 <= k <= NDIRECT ==> w.ino[i].addrs[k] == 0
    ensures Contents(w, i) == [] && forall j :: j in w.ino && j != i ==> w.ino[j] == v.ino[j]
  {
  }

  lemma TruncEnd(v: View, w: View, sb: Super, i: int)
    requires Truncating(v, w, sb, i, {})
    ensures Inv(w, sb, {}) && OthersSynced(w, sb, i)
    ensures w.ino[i] == v.ino[i].(addrs := seq(NDIRECT + 1, k => 0), size := 0)
    ensures i in w.ino && i in v.ino
  {
    assert Rest(v, i, {}) == {};
  }

  /** Exactly the file's bits have been cleared. */
  lemma TruncDone(v: View, z: View, w: View, sb: Super, i: int)
    requires Truncating(v, z, sb, i, {}) && Inv(w, sb, {}) && w.ino == z.ino && SameBytes(z, w)
    requires forall j, k :: Slot(w, j, k) == Slot(z, j, k)
    ensures forall j, k :: Slot(w, j, k) == if j == i then 0 else Slot(v, j, k)
    ensures forall j, o :: j != i && 0 <= o ==> Byte(w, j, o) == Byte(v, j, o)
    ensures forall b :: 0 <= b < sb.size ==> (BitOf(w.disk, sb, b) <==> BitOf(v.disk, sb, b) && b !in Blocks(v, i))
  {
    hide Slot, Byte, BitOf, Shaped;
    LoPositive(v, sb);
    forall b | sb.Lo() <= b < sb.size ensures Owned(w, b) <==> Owned(v, b) && b !in Blocks(v, i) {
      if Owned(w, b) {
        var j, k :| Slot(w, j, k) == b;
        assert Slot(v, j, k) == b && j != i;
      }
      if Owned(v, b) {
        var j, k :| Slot(v, j, k) == b;
        SlotKey(v, j, k);
        assert Slot(w, j, k) == if j == i then 0 else b;
      }
    }
  }

  lemma KeysNext(k: int)
    requires 0 <= k
    ensures Keys(k) - {k} == Keys(k + 1)
  {
  }

  /** From `v` to `w` file `i` gains blocks that read as zeros; nothing else is visible. */
  ghost predicate Grows(v: View, w: View, i: int) {
    && (forall j :: j in w.ino <==> j in v.ino)
    && (forall j :: j in v.ino && j != i ==> w.ino[j] == v.ino[j])
    && (i in v.ino ==> w.ino[i] == v.ino[i].(addrs := w.ino[i].addrs))
    && (forall j, k :: Slot(v, j, k) != 0 || j != i ==> Slot(w, j, k) == Slot(v, j, k))
    && SameBytes(v, w)
  }

  lemma GrowsTrans(v: View, u: View, w: View, i: int)
    requires Grows(v, u, i) && Grows(u, w, i)
    ensures Grows(v, w, i)
  {
    hide Slot, SameBytes;
    SameTrans(v, u, w);
    forall j, k | Slot(v, j, k) != 0 || j != i ensures Slot(w, j, k) == Slot(v, j, k) {
      assert Slot(u, j, k) == Slot(v, j, k);
    }
  }

  lemma GrowsByte(v: View, w: View, i: int)
    requires Grows(v, w, i)
    ensures forall o :: 0 <= o ==> Byte(w, i, o) == Byte(v, i, o)
  {
    hide Slot, Byte;
  }

  lemma GrowsSelf(v: View, i: int)
    ensures Grows(v, v, i)
  {
  }

  lemma AddrSlot(v: View, sb: Super, i: int, k: int)
    requires Inv(v, sb, {}) && i in v.ino && 0 <= k <= NDIRECT
    ensures |v.ino[i].addrs| == NDIRECT + 1 && Slot(v, i, k) == v.ino[i].addrs[k]
  {
    assert IsDinode(v.ino[i]);
  }

  lemma FilledAt(v: View, w: View, i: int, k: int, b: int)
    requires Filled(v, w, i, k, b)
    ensures Slot(w, i, k) == b
  {
  }

  lemma GrowsFilled(v: View, u: View, w: View, i: int, k: int, b: int)
    requires (forall j, m :: Slot(u, j, m) == Slot(v, j, m)) && SameBytes(v, u) && u.ino == v.ino
    requires Filled(u, w, i, k, b) && w.disk == u.disk && b in u.disk && u.disk[b] == Zeros()
    requires i in u.ino && |u.ino[i].addrs| == NDIRECT + 1 && 0 <= k <= NDIRECT && w == WithAddr(u, i, k, b)
    ensures Grows(v, w, i)
  {
    hide Slot;
  }

  lemma EntrySlot(v: View, sb: Super, i: int, j: int)
    requires Slotted(v, sb)
    requires i in v.ino && 0 <= j < NINDIRECT
    ensures |v.ino[i].addrs| == NDIRECT + 1 && Slot(v, i, NDIRECT) == v.ino[i].addrs[NDIRECT]
    ensures Slot(v, i, NDIRECT) == 0 ==> Slot(v, i, NDIRECT + 1 + j) == 0
    ensures Slot(v, i, NDIRECT) != 0 ==> var x := Slot(v, i, NDIRECT);
      x in v.disk && |v.disk[x]| == BSIZE && IsBlock(v.disk[x]) && Slot(v, i, NDIRECT + 1 + j) == Word(v.disk[x], j)
      && sb.Lo() <= x < sb.size
  {
    IndirectBlock(v, sb, i);
  }

  lemma EntryGrows(v: View, u: View, w: View, sb: Super, i: int, j: int, b: int)
    requires Grows(v, u, i) && w.ino == u.ino && SameBytes(u, w) && forall j, k :: Slot(w, j, k) == Slot(u, j, k)
    requires Inv(w, sb, {b}) && i in w.ino && 0 <= j < NINDIRECT && Slot(w, i, NDIRECT) != 0
    requires b in w.disk && w.disk[b] == Zeros()
    requires |w.ino[i].addrs| == NDIRECT + 1 && w.ino[i].addrs[NDIRECT] in w.disk && |w.disk[w.ino[i].addrs[NDIRECT]]| == BSIZE
    requires Filled(w, WithEntry(w, i, j, b), i, NDIRECT + 1 + j, b)
    ensures Grows(v, WithEntry(w, i, j, b), i)
  {
    hide Slot, Bitmap, Shaped, BitOf, WithWord, Word;
    AddrSlot0(w, i);
    var x := w.ino[i].addrs[NDIRECT];
    var z := WithEntry(w, i, j, b);
    PendingFree(w, sb, {b}, b);
    assert Slot(w, i, NDIRECT) == x;
    FilledBytes(w, z, i, NDIRECT + 1 + j, b);
    SameTrans(v, w, z);
  }

  lemma PendingFree(v: View, sb: Super, pending: set<int>, b: int)
    requires Inv(v, sb, pending) && b in pending
    ensures !Owned(v, b)
  {
  }

  lemma AddrSlot0(v: View, i: int)
    requires i in v.ino && |v.ino[i].addrs| == NDIRECT + 1
    ensures Slot(v, i, NDIRECT) == v.ino[i].addrs[NDIRECT]
  {
  }

  lemma InvShaped(v: View, sb: Super, pending: set<int>)
    requires Inv(v, sb, pending)
    ensures Shaped(v, sb)
  {
  }

  lemma BitHere(disk: Disk, sb: Super, base: int, bi: int)
    requires 0 <= base && base % BPB == 0 && 0 <= bi < BPB
    requires Bblock(base, sb) in disk && |disk[Bblock(base, sb)]| == BSIZE
    ensures Bblock(base + bi, sb) == Bblock(base, sb) && (base + bi) % BPB == bi
    ensures BitOf(disk, sb, base + bi) == Bit(disk[Bblock(base, sb)][bi / 8], bi % 8)
  {
    assert base == base / BPB * BPB;
    assert (base + bi) / BPB == base / BPB && (base + bi) % BPB == bi;
  }

  /** Setting a clear bit and zeroing its block. */
  lemma AllocStep(v: View, sb: Super, pending: set<int>, b: int, i: int)
    requires Inv(v, sb, pending) && 0 <= b < sb.size && !BitOf(v.disk, sb, b) && OthersSynced(v, sb, i)
    ensures Bblock(b, sb) in v.disk && |v.disk[Bblock(b, sb)]| == BSIZE
    ensures sb.Lo() <= b && b !in pending && b != 0
    ensures var w := View(WithBitOf(v.disk, sb, b, true)[b := Zeros()], v.ino);
      && Inv(w, sb, pending + {b})
      && (forall j, k :: Slot(w, j, k) == Slot(v, j, k)) && SameBytes(v, w)
      && OthersSynced(w, sb, i) && (Synced(v, sb, i) ==> Synced(w, sb, i))
  {
    hide BitOf, Slot, SameBytes, OthersSynced, Synced, Shaped, Bitmap, WithBit;
    LoPositive(v, sb);
    SetBitInv(v, sb, pending, b);
    BblockRange(b, sb);
    var x := Bblock(b, sb);
    var u := View(WithBitOf(v.disk, sb, b, true), v.ino);
    var w := View(u.disk[b := Zeros()], v.ino);
    ElsewhereBytes(v, u, x, u.disk[x]);
    SyncFrame(v, sb, x, u.disk[x], i);
    ZerosAre();
    assert !Indirect(u, b);
    PlainWrite(u, sb, pending + {b}, b, Zeros());
    ElsewhereBytes(u, w, b, Zeros());
    SyncFrame(u, sb, b, Zeros(), i);
    SameTrans(v, u, w);
  }

  lemma FreeStep(v: View, sb: Super, pending: set<int>, b: int, i: int)
    requires Inv(v, sb, pending) && b in pending && OthersSynced(v, sb, i)
    ensures Bblock(b, sb) in v.disk && |v.disk[Bblock(b, sb)]| == BSIZE && 0 <= b
    ensures Bit(v.disk[Bblock(b, sb)][b % BPB / 8], b % BPB % 8)
    ensures var w := View(WithBitOf(v.disk, sb, b, false), v.ino);
      && Inv(w, sb, pending - {b})
      && (forall j, k :: Slot(w, j, k) == Slot(v, j, k)) && SameBytes(v, w) && OthersSynced(w, sb, i)
  {
    hide Slot, SameBytes, OthersSynced, Synced, Shaped, Bitmap, WithBit, Bit;
    ClearBitInv(v, sb, pending, b);
    LoPositive(v, sb);
    BblockRange(b, sb);
    var x := Bblock(b, sb);
    var w := View(WithBitOf(v.disk, sb, b, false), v.ino);
    ElsewhereBytes(v, w, x, w.disk[x]);
    SyncFrame(v, sb, x, w.disk[x], i);
  }
}
