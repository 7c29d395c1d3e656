/** Which block belongs to which file, what the bitmap says about it, and what a file's bytes
    are. */
module FsSpec {
  import opened Bits
  import opened Layout

  datatype Super = Super(size: int, nblocks: int, ninodes: int, inodestart: int, bmapstart: int) {
    /** The first data block. */
    function Lo(): int { size - nblocks }
  }

  type Disk = map<int, Block>
  type Inodes = map<int, Dinode>

  /** The disk and every inode as last changed, in memory or on disk. */
  datatype View = View(disk: Disk, ino: Inodes)

  function Iblock(i: int, sb: Super): int {
    i / IPB + sb.inodestart
  }

  function Bblock(b: int, sb: Super): int {
    b / BPB + sb.bmapstart
  }

  /** Boot block, super block, log, inodes, bitmap and data blocks, in this order. */
  ghost predicate Geometry(sb: Super) {
    && 0 < sb.ninodes && 1 < sb.inodestart
    && Iblock(sb.ninodes - 1, sb) < sb.bmapstart
    && 0 < sb.Lo() <= sb.size < 0x4000_0000
    && Bblock(sb.size - 1, sb) < sb.Lo()
  }

  // ----- slots

  const SLOTS: int := 269

  /** The key of a file's data block `bn`: 12 stands for the indirect block. */
  function Key(bn: int): int {
    if bn < NDIRECT then bn else bn + 1
  }

  /** Block number in slot `k` of inode `i`: a direct or the indirect address, or an entry of
      the indirect block; 0 for none. */
  function Slot(v: View, i: int, k: int): int {
    if i !in v.ino || |v.ino[i].addrs| != NDIRECT + 1 || !(0 <= k < SLOTS) then 0
    else if k <= NDIRECT then v.ino[i].addrs[k]
    else
      var x := v.ino[i].addrs[NDIRECT];
      if x == 0 || x !in v.disk || |v.disk[x]| != BSIZE then 0 else Word(v.disk[x], k - NDIRECT - 1)
  }

  ghost predicate Owned(v: View, b: int) {
    exists i, k :: Slot(v, i, k) == b
  }

  function BitOf(disk: Disk, sb: Super, b: int): bool {
    var x := Bblock(b, sb);
    b >= 0 && x in disk && |disk[x]| == BSIZE && Bit(disk[x][b % BPB / 8], b % BPB % 8)
  }

  ghost predicate Shaped(v: View, sb: Super) {
    && Geometry(sb)
    && (forall b :: 0 <= b < sb.size ==> b in v.disk && IsBlock(v.disk[b]))
    && (forall i :: i in v.ino <==> 0 < i < sb.ninodes)
    && (forall i :: i in v.ino ==> IsDinode(v.ino[i]))
  }

  /** Every slot in use holds a data block that no other slot holds. */
  ghost predicate Exclusive(v: View, sb: Super) {
    && (forall i, k :: Slot(v, i, k) != 0 ==> sb.Lo() <= Slot(v, i, k) < sb.size)
    && (forall i, k, j, m :: Slot(v, i, k) != 0 && Slot(v, i, k) == Slot(v, j, m) ==> i == j && k == m)
  }

  /** A block's bit is set just when it is metadata, owned, or `pending`: allocated but not yet
      put into a slot, or taken out of one but not yet freed. */
  ghost predicate Bitmap(v: View, sb: Super, pending: set<int>) {
    && (forall b :: 0 <= b < sb.size ==> (BitOf(v.disk, sb, b) <==> b < sb.Lo() || Owned(v, b) || b in pending))
    && (forall b :: b in pending ==> sb.Lo() <= b < sb.size && !Owned(v, b))
  }

  ghost predicate Slotted(v: View, sb: Super) {
    Shaped(v, sb) && Exclusive(v, sb)
  }

  ghost predicate Inv(v: View, sb: Super, pending: set<int>) {
    Shaped(v, sb) && Exclusive(v, sb) && Bitmap(v, sb, pending)
  }

  // ----- contents

  function Byte(v: View, i: int, o: int): int
    requires 0 <= o
  {
    var x := Slot(v, i, Key(o / BSIZE));
    if x == 0 || x !in v.disk || |v.disk[x]| != BSIZE then 0 else v.disk[x][o % BSIZE]
  }

  /** The file as one flat sequence of bytes. */
  ghost function Contents(v: View, i: int): seq<int>
    requires i in v.ino && 0 <= v.ino[i].size
  {
    seq(v.ino[i].size, o requires 0 <= o => Byte(v, i, o))
  }

  /** No block of file `i` that starts below `end` is missing. */
  ghost predicate Present(v: View, i: int, end: int) {
    forall bn :: 0 <= bn && bn * BSIZE < end ==> Slot(v, i, Key(bn)) != 0
  }

  /** No block below the size of file `i` is missing. */
  ghost predicate Whole(v: View, i: int) {
    i in v.ino && Present(v, i, v.ino[i].size)
  }

  // ----- writing a block changes neither slots nor bits unless it is an indirect or bitmap block

  ghost predicate Indirect(v: View, x: int) {
    exists i :: Slot(v, i, NDIRECT) == x
  }

  lemma SlotFrame(v: View, x: int, y: Block, i: int, k: int)
    requires x == 0 || !Indirect(v, x)
    ensures Slot(View(v.disk[x := y], v.ino), i, k) == Slot(v, i, k)
  {
    if NDIRECT < k {
      assert Slot(v, i, NDIRECT) != x || x == 0;
    }
  }

  lemma BblockRange(b: int, sb: Super)
    requires Geometry(sb) && 0 <= b < sb.size
    ensures sb.bmapstart <= Bblock(b, sb) < sb.Lo()
  {
  }

  lemma BitFrame(disk: Disk, sb: Super, x: int, y: Block, b: int)
    requires Geometry(sb) && 0 <= b < sb.size && (x < sb.bmapstart || sb.Lo() <= x)
    ensures BitOf(disk[x := y], sb, b) == BitOf(disk, sb, b)
  {
    BblockRange(b, sb);
  }

  /** Writing a block that is no indirect block changes no slot. */
  lemma PlainSlots(v: View, sb: Super, x: int, y: Block)
    requires Slotted(v, sb) && IsBlock(y) && (x == 0 || !Indirect(v, x))
    ensures Slotted(View(v.disk[x := y], v.ino), sb)
    ensures forall i, k :: Slot(View(v.disk[x := y], v.ino), i, k) == Slot(v, i, k)
  {
    hide Slot, IsBlock;
    var w := View(v.disk[x := y], v.ino);
    forall i, k ensures Slot(w, i, k) == Slot(v, i, k) {
      SlotFrame(v, x, y, i, k);
    }
    SameSlots(v, w, sb);
  }

  /** Writing a block that is no indirect and no bitmap block. */
  lemma PlainWrite(v: View, sb: Super, pending: set<int>, x: int, y: Block)
    requires Inv(v, sb, pending) && IsBlock(y) && 0 <= x && (x < sb.bmapstart || sb.Lo() <= x < sb.size)
    requires !Indirect(v, x) || x == 0
    ensures Inv(View(v.disk[x := y], v.ino), sb, pending)
    ensures forall i, k :: Slot(View(v.disk[x := y], v.ino), i, k) == Slot(v, i, k)
  {
    hide Slot, IsBlock, BitOf;
    var w := View(v.disk[x := y], v.ino);
    PlainSlots(v, sb, x, y);
    SameSlots(v, w, sb);
    forall b | 0 <= b < sb.size ensures BitOf(w.disk, sb, b) == BitOf(v.disk, sb, b) {
      BitFrame(v.disk, sb, x, y, b);
    }
  }

  lemma SameSlots(v: View, w: View, sb: Super)
    requires Exclusive(v, sb) && forall i, k :: Slot(w, i, k) == Slot(v, i, k)
    ensures Exclusive(w, sb)
    ensures forall b :: Owned(w, b) <==> Owned(v, b)
  {
    hide Slot;
    forall b ensures Owned(w, b) <==> Owned(v, b) {
      if Owned(v, b) {
        var i, k :| Slot(v, i, k) == b;
        assert Slot(w, i, k) == b;
      }
      if Owned(w, b) {
        var i, k :| Slot(w, i, k) == b;
        assert Slot(v, i, k) == b;
      }
    }
  }

  lemma NotIndirect(v: View, sb: Super, x: int)
    requires Exclusive(v, sb) && x < sb.Lo() && x != 0
    ensures !Indirect(v, x)
  {
  }

  // ----- setting and clearing a bit

  /** The disk with block `b`'s bit set or cleared. */
  function WithBitOf(disk: Disk, sb: Super, b: int, on: bool): Disk
    requires 0 <= b && Bblock(b, sb) in disk && |disk[Bblock(b, sb)]| == BSIZE
  {
    var x, at := Bblock(b, sb), b % BPB / 8;
    disk[x := disk[x][at := WithBit(disk[x][at], b % BPB % 8, on)]]
  }

  lemma BitOfAfter(disk: Disk, sb: Super, b: int, on: bool, c: int)
    requires Geometry(sb) && 0 <= b < sb.size && 0 <= c < sb.size
    requires Bblock(b, sb) in disk && |disk[Bblock(b, sb)]| == BSIZE
    ensures BitOf(WithBitOf(disk, sb, b, on), sb, c) == if c == b then on else BitOf(disk, sb, c)
  {
    var x, at, k := Bblock(b, sb), b % BPB / 8, b % BPB % 8;
    BitAfter(disk[x][at], k, on, k);
    if c != b && Bblock(c, sb) == x && c % BPB / 8 == at {
      BitAfter(disk[x][at], k, on, c % BPB % 8);
    }
  }

  /** Freeing a block that was just allocated restores the bitmap byte for byte. */
  lemma BitOfBack(disk: Disk, sb: Super, b: int)
    requires 0 <= b && Bblock(b, sb) in disk && |disk[Bblock(b, sb)]| == BSIZE && !BitOf(disk, sb, b)
    ensures WithBitOf(WithBitOf(disk, sb, b, true), sb, b, false) == disk
  {
    var x, at := Bblock(b, sb), b % BPB / 8;
    BitBack(disk[x][at], b % BPB % 8);
    assert WithBitOf(WithBitOf(disk, sb, b, true), sb, b, false)[x] == disk[x];
  }

  lemma BitBlock(y: Block, at: int, k: nat, on: bool)
    requires IsBlock(y) && 0 <= at < BSIZE && k < 8
    ensures IsBlock(y[at := WithBit(y[at], k, on)])
  {
    assert Pow2(8) == 256;
    ByteStays(y[at], k, on, 8);
  }

  /** What changing bit `b` keeps. */
  lemma BitWrite(v: View, sb: Super, pending: set<int>, b: int, on: bool)
    requires Inv(v, sb, pending) && 0 <= b < sb.size
    ensures Bblock(b, sb) in v.disk && |v.disk[Bblock(b, sb)]| == BSIZE
    ensures var w := View(WithBitOf(v.disk, sb, b, on), v.ino);
      && Shaped(w, sb) && (forall i, k :: Slot(w, i, k) == Slot(v, i, k))
      && (forall c :: 0 <= c < sb.size ==> BitOf(w.disk, sb, c) == if c == b then on else BitOf(v.disk, sb, c))
  {
    hide Slot, BitOf, Bit, WithBit;
    BblockRange(b, sb);
    var x := Bblock(b, sb);
    var w := View(WithBitOf(v.disk, sb, b, on), v.ino);
    BitBlock(v.disk[x], b % BPB / 8, b % BPB % 8, on);
    NotIndirect(v, sb, x);
    forall i, k ensures Slot(w, i, k) == Slot(v, i, k) {
      SlotFrame(v, x, w.disk[x], i, k);
    }
    forall c | 0 <= c < sb.size ensures BitOf(w.disk, sb, c) == if c == b then on else BitOf(v.disk, sb, c) {
      BitOfAfter(v.disk, sb, b, on, c);
    }
  }

  /** A block whose bit was clear becomes pending. */
  lemma SetBitInv(v: View, sb: Super, pending: set<int>, b: int)
    requires Inv(v, sb, pending) && 0 <= b < sb.size && !BitOf(v.disk, sb, b)
    ensures Bblock(b, sb) in v.disk && |v.disk[Bblock(b, sb)]| == BSIZE
    ensures Inv(View(WithBitOf(v.disk, sb, b, true), v.ino), sb, pending + {b})
    ensures sb.Lo() <= b && !Owned(v, b) && b !in pending
    ensures forall i, k :: Slot(View(WithBitOf(v.disk, sb, b, true), v.ino), i, k) == Slot(v, i, k)
  {
    hide Slot, BitOf, Shaped, WithBitOf;
    BitWrite(v, sb, pending, b, true);
    SameSlots(v, View(WithBitOf(v.disk, sb, b, true), v.ino), sb);
  }

  /** A pending block's bit is set, so it can be freed. */
  lemma ClearBitInv(v: View, sb: Super, pending: set<int>, b: int)
    requires Inv(v, sb, pending) && b in pending
    ensures 0 <= b < sb.size && BitOf(v.disk, sb, b)
    ensures Bblock(b, sb) in v.disk && |v.disk[Bblock(b, sb)]| == BSIZE
    ensures Inv(View(WithBitOf(v.disk, sb, b, false), v.ino), sb, pending - {b})
    ensures forall i, k :: Slot(View(WithBitOf(v.disk, sb, b, false), v.ino), i, k) == Slot(v, i, k)
  {
    hide Slot, BitOf, Shaped, WithBitOf;
    LoPositive(v, sb);
    BitWrite(v, sb, pending, b, false);
    SameSlots(v, View(WithBitOf(v.disk, sb, b, false), v.ino), sb);
  }

  lemma LoPositive(v: View, sb: Super)
    requires Shaped(v, sb)
    ensures 0 < sb.Lo() <= sb.size < 0x4000_0000 && Geometry(sb)
  {
  }

  // ----- putting a pending block into a slot

  /** The slots of `w` are those of `v`, but (i, k), which was empty and now holds `b`. */
  ghost predicate Filled(v: View, w: View, i: int, k: int, b: int) {
    Slot(v, i, k) == 0 && forall j, m :: Slot(w, j, m) == if j == i && m == k then b else Slot(v, j, m)
  }

  lemma FilledOwned(v: View, w: View, sb: Super, i: int, k: int, b: int)
    requires Slotted(v, sb) && Shaped(w, sb) && sb.Lo() <= b < sb.size && !Owned(v, b) && Filled(v, w, i, k, b)
    ensures Slotted(w, sb)
    ensures forall c :: c != 0 ==> (Owned(w, c) <==> Owned(v, c) || c == b)
  {
    hide Slot, Shaped;
    LoPositive(v, sb);
    forall i', k', j, m | Slot(w, i', k') != 0 && Slot(w, i', k') == Slot(w, j, m) ensures i' == j && k' == m {
      if i' == i && k' == k { assert Slot(v, j, m) != b; }
      if j == i && m == k { assert Slot(v, i', k') != b; }
    }
    forall c | c != 0 ensures Owned(w, c) <==> Owned(v, c) || c == b {
      if Owned(v, c) {
        var j, m :| Slot(v, j, m) == c;
        assert Slot(w, j, m) == c;
      }
      if Owned(w, c) {
        var j, m :| Slot(w, j, m) == c;
        assert Slot(v, j, m) == c || c == b;
      }
      assert Slot(w, i, k) == b;
    }
  }

  lemma FilledInv(v: View, w: View, sb: Super, pending: set<int>, i: int, k: int, b: int)
    requires Inv(v, sb, pending) && Shaped(w, sb) && b in pending && Filled(v, w, i, k, b)
    requires forall c :: 0 <= c < sb.size ==> BitOf(w.disk, sb, c) == BitOf(v.disk, sb, c)
    ensures Inv(w, sb, pending - {b})
  {
    hide Slot, BitOf, Shaped;
    LoPositive(v, sb);
    FilledOwned(v, w, sb, i, k, b);
  }

  function WithAddr(v: View, i: int, k: int, b: int): View
    requires i in v.ino && 0 <= k < |v.ino[i].addrs|
  {
    View(v.disk, v.ino[i := v.ino[i].(addrs := v.ino[i].addrs[k := b])])
  }

  lemma SetAddrSlots(v: View, sb: Super, i: int, k: int, b: int)
    requires Slotted(v, sb) && i in v.ino && 0 <= k <= NDIRECT && sb.Lo() <= b < sb.size && Slot(v, i, k) == 0
    requires k == NDIRECT ==> b in v.disk && v.disk[b] == Zeros()
    ensures |v.ino[i].addrs| == NDIRECT + 1
    ensures Filled(v, WithAddr(v, i, k, b), i, k, b) && Shaped(WithAddr(v, i, k, b), sb)
  {
    hide Word;
    assert IsDinode(v.ino[i]);
    ZerosAre();
    LoPositive(v, sb);
    var w := WithAddr(v, i, k, b);
    assert Slot(v, i, k) == v.ino[i].addrs[k];
    forall j, m ensures Slot(w, j, m) == if j == i && m == k then b else Slot(v, j, m) {}
  }

  lemma SetAddrInv(v: View, sb: Super, pending: set<int>, i: int, k: int, b: int)
    requires Inv(v, sb, pending) && i in v.ino && 0 <= k <= NDIRECT && b in pending && Slot(v, i, k) == 0
    requires k == NDIRECT ==> b in v.disk && v.disk[b] == Zeros()
    ensures |v.ino[i].addrs| == NDIRECT + 1
    ensures Filled(v, WithAddr(v, i, k, b), i, k, b) && Inv(WithAddr(v, i, k, b), sb, pending - {b})
  {
    hide BitOf, Slot, Shaped;
    SetAddrSlots(v, sb, i, k, b);
    FilledInv(v, WithAddr(v, i, k, b), sb, pending, i, k, b);
  }

  function WithEntry(v: View, i: int, j: int, b: int): View
    requires i in v.ino && |v.ino[i].addrs| == NDIRECT + 1 && v.ino[i].addrs[NDIRECT] in v.disk
    requires |v.disk[v.ino[i].addrs[NDIRECT]]| == BSIZE && 0 <= j < NINDIRECT
  {
    var x := v.ino[i].addrs[NDIRECT];
    View(v.disk[x := WithWord(v.disk[x], j, b)], v.ino)
  }

  /** The indirect block of a file is a block like any other of its own. */
  lemma IndirectBlock(v: View, sb: Super, i: int)
    requires Slotted(v, sb) && i in v.ino
    ensures |v.ino[i].addrs| == NDIRECT + 1
    ensures Slot(v, i, NDIRECT) == v.ino[i].addrs[NDIRECT]
    ensures v.ino[i].addrs[NDIRECT] != 0 ==>
      var x := v.ino[i].addrs[NDIRECT]; x in v.disk && IsBlock(v.disk[x]) && sb.Lo() <= x < sb.size
  {
    assert IsDinode(v.ino[i]);
  }

  lemma SetEntrySlots(v: View, sb: Super, i: int, j: int, b: int)
    requires Slotted(v, sb) && i in v.ino && 0 <= j < NINDIRECT && sb.Lo() <= b < sb.size
    requires Slot(v, i, NDIRECT) != 0 && Slot(v, i, NDIRECT + 1 + j) == 0
    ensures |v.ino[i].addrs| == NDIRECT + 1 && v.ino[i].addrs[NDIRECT] in v.disk
    ensures |v.disk[v.ino[i].addrs[NDIRECT]]| == BSIZE
    ensures Filled(v, WithEntry(v, i, j, b), i, NDIRECT + 1 + j, b) && Shaped(WithEntry(v, i, j, b), sb)
  {
    hide Word, WithWord, IsBlock;
    IndirectBlock(v, sb, i);
    LoPositive(v, sb);
    var x := v.ino[i].addrs[NDIRECT];
    var w := WithEntry(v, i, j, b);
    WordAfter(v.disk[x], j, b, 0);
    IsBlockSize(w.disk[x]);
    forall i', m ensures Slot(w, i', m) == if i' == i && m == NDIRECT + 1 + j then b else Slot(v, i', m) {
      if i' in v.ino && NDIRECT < m < SLOTS && |v.ino[i'].addrs| == NDIRECT + 1 {
        if v.ino[i'].addrs[NDIRECT] == x {
          assert Slot(v, i', NDIRECT) == x && Slot(v, i, NDIRECT) == x;
          WordAfter(v.disk[x], j, b, m - NDIRECT - 1);
        }
      }
    }
  }

  lemma SetEntryInv(v: View, sb: Super, pending: set<int>, i: int, j: int, b: int)
    requires Inv(v, sb, pending) && i in v.ino && 0 <= j < NINDIRECT && b in pending
    requires Slot(v, i, NDIRECT) != 0 && Slot(v, i, NDIRECT + 1 + j) == 0
    ensures |v.ino[i].addrs| == NDIRECT + 1 && v.ino[i].addrs[NDIRECT] in v.disk
    ensures |v.disk[v.ino[i].addrs[NDIRECT]]| == BSIZE
    ensures Filled(v, WithEntry(v, i, j, b), i, NDIRECT + 1 + j, b)
    ensures Inv(WithEntry(v, i, j, b), sb, pending - {b})
  {
    hide BitOf, Slot, WithWord, IsBlock, Shaped;
    IndirectBlock(v, sb, i);
    LoPositive(v, sb);
    SetEntrySlots(v, sb, i, j, b);
    var x := v.ino[i].addrs[NDIRECT];
    var w := WithEntry(v, i, j, b);
    forall c | 0 <= c < sb.size ensures BitOf(w.disk, sb, c) == BitOf(v.disk, sb, c) {
      BitFrame(v.disk, sb, x, w.disk[x], c);
    }
    FilledInv(v, w, sb, pending, i, NDIRECT + 1 + j, b);
  }

  lemma IsBlockSize(y: Block)
    requires IsBlock(y)
    ensures |y| == BSIZE
  {
  }

  // ----- emptying a file

  /** The blocks that file `i` owns. */
  ghost function Blocks(v: View, i: int): set<int> {
    set k | 0 <= k < SLOTS && Slot(v, i, k) != 0 :: Slot(v, i, k)
  }

  function Emptied(v: View, i: int): View
    requires i in v.ino
  {
    View(v.disk, v.ino[i := v.ino[i].(addrs := seq(NDIRECT + 1, k => 0), size := 0)])
  }

  lemma EmptiedSlots(v: View, i: int, j: int, k: int)
    requires i in v.ino
    ensures Slot(Emptied(v, i), j, k) == if j == i then 0 else Slot(v, j, k)
  {
  }

  /** With its slots cleared the file's blocks are pending. */
  lemma EmptiedInv(v: View, sb: Super, i: int)
    requires Inv(v, sb, {}) && i in v.ino
    ensures Inv(Emptied(v, i), sb, Blocks(v, i))
  {
    hide Slot, BitOf;
    LoPositive(v, sb);
    assert IsDinode(v.ino[i]);
    var w, p := Emptied(v, i), Blocks(v, i);
    forall j, k ensures Slot(w, j, k) == if j == i then 0 else Slot(v, j, k) {
      EmptiedSlots(v, i, j, k);
    }
    forall b | b in p ensures sb.Lo() <= b < sb.size && !Owned(w, b) {
      var k :| 0 <= k < SLOTS && Slot(v, i, k) == b;
      assert forall j, m :: Slot(v, j, m) == b ==> j == i;
    }
    forall b | 0 <= b < sb.size && sb.Lo() <= b ensures Owned(v, b) <==> Owned(w, b) || b in p {
      if Owned(v, b) {
        var j, k :| Slot(v, j, k) == b;
        assert Slot(w, j, k) == b || j == i;
        if j == i { SlotKey(v, i, k); }
      }
      if Owned(w, b) {
        var j, k :| Slot(w, j, k) == b;
        assert Slot(v, j, k) == b;
      }
    }
  }

  lemma SlotKey(v: View, i: int, k: int)
    ensures Slot(v, i, k) != 0 ==> 0 <= k < SLOTS
  {
  }

  // ----- what happens to the bytes

  ghost predicate SameBytes(v: View, w: View) {
    forall j, o :: 0 <= o ==> Byte(w, j, o) == Byte(v, j, o)
  }

  lemma SameTrans(u: View, v: View, w: View)
    requires SameBytes(u, v) && SameBytes(v, w)
    ensures SameBytes(u, w)
  {
    hide Byte;
    forall j, o | 0 <= o ensures Byte(w, j, o) == Byte(u, j, o) {
      assert Byte(v, j, o) == Byte(u, j, o);
    }
  }

  /** Blocks that no file owns as data may change freely. */
  lemma ElsewhereBytes(v: View, w: View, x: int, y: Block)
    requires forall j, k :: Slot(w, j, k) == Slot(v, j, k)
    requires forall j, k :: k != NDIRECT && Slot(v, j, k) == x ==> x == 0
    requires w.disk == v.disk[x := y]
    ensures SameBytes(v, w)
  {
    hide Slot;
    forall j, o | 0 <= o ensures Byte(w, j, o) == Byte(v, j, o) {
      assert Slot(w, j, Key(o / BSIZE)) == Slot(v, j, Key(o / BSIZE));
    }
  }

  /** A slot filled with a zero block reads as before. */
  lemma FilledBytes(v: View, w: View, i: int, k: int, b: int)
    requires Filled(v, w, i, k, b) && b in w.disk && w.disk[b] == Zeros()
    requires forall j, m :: m != NDIRECT && Slot(v, j, m) != 0 ==>
      (Slot(v, j, m) in v.disk <==> Slot(v, j, m) in w.disk) && (Slot(v, j, m) in v.disk ==> w.disk[Slot(v, j, m)] == v.disk[Slot(v, j, m)])
    ensures SameBytes(v, w)
  {
    hide Slot;
    forall j, o | 0 <= o ensures Byte(w, j, o) == Byte(v, j, o) {}
  }

  /** Writing a data block of file `i` changes the bytes of that block of that file only. */
  lemma DataBytes(v: View, sb: Super, i: int, bn: int, y: Block)
    requires Slotted(v, sb) && 0 <= bn && IsBlock(y) && Slot(v, i, Key(bn)) != 0
    ensures !Indirect(v, Slot(v, i, Key(bn)))
    ensures var w := View(v.disk[Slot(v, i, Key(bn)) := y], v.ino);
      && Slotted(w, sb) && (forall j, k :: Slot(w, j, k) == Slot(v, j, k))
      && forall j, o :: 0 <= o ==> Byte(w, j, o) == if j == i && o / BSIZE == bn then y[o % BSIZE] else Byte(v, j, o)
  {
    var x := Slot(v, i, Key(bn));
    var w := View(v.disk[x := y], v.ino);
    hide Slot;
    LoPositive(v, sb);
    PlainSlots(v, sb, x, y);
    forall j, o | 0 <= o ensures Byte(w, j, o) == if j == i && o / BSIZE == bn then y[o % BSIZE] else Byte(v, j, o) {
      assert Slot(w, j, Key(o / BSIZE)) == Slot(v, j, Key(o / BSIZE));
    }
  }

  lemma DataWrite(v: View, sb: Super, i: int, bn: int, y: Block)
    requires Inv(v, sb, {}) && 0 <= bn && IsBlock(y) && Slot(v, i, Key(bn)) != 0
    ensures Inv(View(v.disk[Slot(v, i, Key(bn)) := y], v.ino), sb, {})
  {
    hide Slot, BitOf, Indirect;
    LoPositive(v, sb);
    DataBytes(v, sb, i, bn, y);
    PlainWrite(v, sb, {}, Slot(v, i, Key(bn)), y);
  }

}
