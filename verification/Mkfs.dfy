/** The offline image builder, and that the kernel reads back from its images what was appended. */
module Mkfs {
  import opened Layout
  import opened FsSpec
  import opened Fs
  import opened Seqs

  const FSSIZE: int := 100
  const NINODES: int := 200
  const NLOG: int := 30
  const NINODEBLOCKS: int := NINODES / IPB + 1
  const NBITMAP: int := FSSIZE / BPB + 1
  const NMETA: int := 2 + NLOG + NINODEBLOCKS + NBITMAP
  const FSMAGIC: int := 0x1020_3040

  const SB := Super(FSSIZE, FSSIZE - NMETA, NINODES, 2 + NLOG, 2 + NLOG + NINODEBLOCKS)

  const EMPTY := Dinode(0, 0, 0, 0, 0, [0, 0, 0, 0, 0, 0, 0, 0, 0, 0, 0, 0, 0])

  /** The kernel's reading of the super block, if the magic number is right. */
  function ReadSuper(b: Block): (bool, Super)
    requires |b| == BSIZE
  {
    (Word(b, 0) == FSMAGIC, Super(Word(b, 1), Word(b, 2), Word(b, 3), Word(b, 6), Word(b, 7)))
  }

  /** How many blocks a file of `size` bytes takes, its indirect block included. */
  function BlocksFor(size: int): int {
    (size + BSIZE - 1) / BSIZE + (if size > NDIRECT * BSIZE then 1 else 0)
  }

  /** File `i` has the blocks its size needs and no others. */
  ghost predicate Exact(v: View, i: int, size: int) {
    && i in v.ino && 0 <= size <= MAXFILE * BSIZE
    && (forall bn :: 0 <= bn ==> (Slot(v, i, Key(bn)) != 0 <==> bn * BSIZE < size))
    && (Slot(v, i, NDIRECT) != 0 <==> NDIRECT * BSIZE < size)
  }

  /** Blocks below `fb` are in use, from there on they are untouched. */
  ghost predicate Image(v: View, fb: int) {
    && Slotted(v, SB) && NMETA <= fb <= FSSIZE
    && (forall i, k :: Slot(v, i, k) < fb)
    && (forall b :: NMETA <= b < fb ==> Owned(v, b))
    && (forall b :: fb <= b < FSSIZE ==> v.disk[b] == Zeros())
  }

  /** The size that the root directory is given at the end. */
  function Rounded(size: int): int {
    (size / BSIZE + 1) * BSIZE
  }

  lemma SbGeometry()
    ensures Geometry(SB) && SB.Lo() == NMETA == 46 && SB.size == FSSIZE
  {
  }

  // ----- taking the next free block

  lemma TakenImage(v: View, w: View, fb: int, i: int, k: int)
    requires Image(v, fb) && fb < FSSIZE && Filled(v, w, i, k, fb) && Shaped(w, SB)
    requires forall b :: fb < b < FSSIZE ==> w.disk[b] == v.disk[b]
    ensures Image(w, fb + 1)
  {
    hide Slot;
    SbGeometry();
    assert !Owned(v, fb);
    FilledOwned(v, w, SB, i, k, fb);
    forall j, m ensures Slot(w, j, m) < fb + 1 {
      assert Slot(v, j, m) < fb;
    }
  }

  lemma TakeAddr(v: View, fb: int, i: int, k: int)
    requires Image(v, fb) && fb < FSSIZE && i in v.ino && 0 <= k <= NDIRECT && Slot(v, i, k) == 0
    ensures |v.ino[i].addrs| == NDIRECT + 1
    ensures Image(WithAddr(v, i, k, fb), fb + 1) && Grows(v, WithAddr(v, i, k, fb), i)
    ensures Filled(v, WithAddr(v, i, k, fb), i, k, fb)
  {
    hide Slot, SameBytes, Filled;
    SbGeometry();
    SetAddrSlots(v, SB, i, k, fb);
    TakenImage(v, WithAddr(v, i, k, fb), fb, i, k);
    BytesSelf(v);
    GrowsFilled(v, v, WithAddr(v, i, k, fb), i, k, fb);
  }

  lemma BytesSelf(v: View)
    ensures SameBytes(v, v)
  {
  }

  lemma TakeEntry(v: View, fb: int, i: int, j: int)
    requires Image(v, fb) && fb < FSSIZE && i in v.ino && 0 <= j < NINDIRECT
    requires Slot(v, i, NDIRECT) != 0 && Slot(v, i, NDIRECT + 1 + j) == 0
    ensures |v.ino[i].addrs| == NDIRECT + 1 && v.ino[i].addrs[NDIRECT] in v.disk
    ensures |v.disk[v.ino[i].addrs[NDIRECT]]| == BSIZE
    ensures Image(WithEntry(v, i, j, fb), fb + 1) && Grows(v, WithEntry(v, i, j, fb), i)
    ensures Filled(v, WithEntry(v, i, j, fb), i, NDIRECT + 1 + j, fb)
  {
    hide Slot, SameBytes, WithWord, IsBlock;
    SbGeometry();
    IndirectBlock(v, SB, i);
    SetEntrySlots(v, SB, i, j, fb);
    var x, w := v.ino[i].addrs[NDIRECT], WithEntry(v, i, j, fb);
    assert x < fb;
    TakenImage(v, w, fb, i, NDIRECT + 1 + j);
    FilledBytes(v, w, i, NDIRECT + 1 + j, fb);
  }

  // ----- appending

  /** What an append has done when the file has got to `off` bytes: `size0` before. */
  ghost predicate Appending(v: View, w: View, i: int, size0: int, p: seq<int>, tot: int, fb0: int, fb: int) {
    && Image(w, fb) && OthersSynced(w, SB, i) && Written(v, w, i, size0, p, tot)
    && Exact(w, i, size0 + tot) && fb == fb0 + BlocksFor(size0 + tot) - BlocksFor(size0)
    && i in w.ino && i in v.ino && w.ino[i].size == v.ino[i].size
  }

  lemma AppendStart(v: View, i: int, p: seq<int>, fb: int)
    requires Image(v, fb) && AllSynced(v, SB) && i in v.ino && Exact(v, i, v.ino[i].size)
    ensures Appending(v, v, i, v.ino[i].size, p, 0, fb, fb)
  {
    hide Slot, Image;
    WrittenStart(v, i, v.ino[i].size, p);
  }

  lemma BlockCount(off: int, m: int)
    requires 0 <= off && 0 < m <= BSIZE - off % BSIZE
    ensures off % BSIZE == 0 ==> BlocksFor(off + m) == BlocksFor(off) + (if off == NDIRECT * BSIZE then 2 else 1)
    ensures off % BSIZE != 0 ==> BlocksFor(off + m) == BlocksFor(off)
  {
    var q, r := off / BSIZE, off % BSIZE;
    assert off == q * BSIZE + r;
    if r == 0 {
      assert (off + m + BSIZE - 1) / BSIZE == q + 1;
      assert (off + BSIZE - 1) / BSIZE == q;
    } else {
      assert (off + m + BSIZE - 1) / BSIZE == q + 1;
      assert (off + BSIZE - 1) / BSIZE == q + 1;
    }
  }

  /** The block that the next byte goes to is there just when it is not the first of its block. */
  lemma NextBlock(v: View, i: int, off: int)
    requires Exact(v, i, off) && off < MAXFILE * BSIZE
    ensures 0 <= off / BSIZE < MAXFILE
    ensures Slot(v, i, Key(off / BSIZE)) != 0 <==> off % BSIZE != 0
    ensures off % BSIZE == 0 && off / BSIZE >= NDIRECT ==> (Slot(v, i, NDIRECT) == 0 <==> off == NDIRECT * BSIZE)
    ensures off % BSIZE != 0 && off / BSIZE >= NDIRECT ==> Slot(v, i, NDIRECT) != 0
  {
    hide Slot;
    assert off == off / BSIZE * BSIZE + off % BSIZE;
  }

  /** With its first byte's block there the file is exact again after the chunk is written. */
  lemma ExactNext(v: View, w: View, i: int, off: int, m: int)
    requires Exact(v, i, off) && i in w.ino && 0 < m <= BSIZE - off % BSIZE && off + m <= MAXFILE * BSIZE
    requires forall k :: k != Key(off / BSIZE) && k != NDIRECT ==> Slot(w, i, k) == Slot(v, i, k)
    requires Slot(w, i, Key(off / BSIZE)) != 0
    requires Slot(w, i, NDIRECT) == 0 <==> (Slot(v, i, NDIRECT) == 0 && off / BSIZE < NDIRECT)
    ensures Exact(w, i, off + m)
  {
    hide Slot;
    forall bn | 0 <= bn ensures Slot(w, i, Key(bn)) != 0 <==> bn * BSIZE < off + m {}
  }

  class Builder {
    var disk: Disk
    var freeinode: int
    var freeblock: int
    ghost var ino: Inodes
    ghost var files: map<int, seq<int>>  // what was appended to each inode

    ghost function V(): View
      reads this
    {
      View(disk, ino)
    }

    ghost predicate Valid()
      reads this
    {
      && Image(V(), freeblock) && AllSynced(V(), SB) && 1 <= freeinode <= NINODES
      && (1 in disk && |disk[1]| == BSIZE && ReadSuper(disk[1]) == (true, SB))
      && FilesOk(V(), files, freeinode)
    }

    /** An image whose inode `r` has its size rounded up; 0 for none. */
    ghost predicate Built(r: int)
      reads this
    {
      && Image(V(), freeblock) && AllSynced(V(), SB) && 1 <= freeinode <= NINODES
      && (1 in disk && |disk[1]| == BSIZE && ReadSuper(disk[1]) == (true, SB))
      && FilesBuilt(V(), files, freeinode, r)
    }

    lemma ValidBuilt()
      requires Valid()
      ensures Built(0)
    {
      hide Image, AllSynced, ReadSuper, FilesOk, FilesBuilt;
      AllBuilt(V(), files, freeinode) by { NoInodeZero(V(), freeblock); }
    }

    /** An empty image: zeros, the super block, no inodes in use. */
    constructor ()
      ensures Valid() && freeinode == 1 && freeblock == NMETA
      ensures forall i :: 0 < i < NINODES ==> i in ino && ino[i].size == 0 && files[i] == []
    {
      freeinode := 1;
      freeblock := NMETA;
      disk, ino, files := map[], map[], map[];
      new;
      for i := 0 to FSSIZE
        invariant forall b :: 0 <= b < i ==> b in disk && disk[b] == Zeros()
        invariant freeinode == 1 && freeblock == NMETA && ino == map[] && files == map[]
      {
        disk := disk[i := Zeros()];
      }
      var buf := SuperBlock();
      disk := disk[1 := buf];
      for i := 1 to NINODES
        invariant forall j :: j in ino <==> 0 < j < i
        invariant forall j :: j in ino ==> ino[j] == EMPTY && j in files && files[j] == []
        invariant forall b :: 0 <= b < FSSIZE ==> b in disk && disk[b] == if b == 1 then buf else Zeros()
        invariant freeinode == 1 && freeblock == NMETA
      {
        ino, files := ino[i := EMPTY], files[i := []];
      }
      FreshImage(disk, ino, files);
    }

    /** The next inode, of the given kind. */
    method Ialloc(kind: int) returns (inum: int)
      requires Valid() && freeinode < NINODES && 0 < kind < 0x1_0000
      modifies this
      ensures Valid() && inum == old(freeinode) && freeinode == inum + 1 && freeblock == old(freeblock)
      ensures ino == old(ino)[inum := EMPTY.(kind := kind, nlink := 1)] && files == old(files)[inum := []]
    {
      hide Image, Slot, SameBytes, OthersSynced, AllSynced, Synced, FilesOk;
      inum := freeinode;
      freeinode := freeinode + 1;
      ghost var v := V();
      var din := EMPTY.(kind := kind, nlink := 1);
      NewInode(v, freeblock, inum, din, files);
      ino := ino[inum := din];
      files := files[inum := []];
      ghost var z := V();
      Winode(inum, din);
      FilesSame(z, V(), files, freeinode);
    }

    /** Marks the first `used` blocks in the bitmap, which completes the image. */
    method Balloc(used: int, ghost r: int)
      requires Built(r) && used == freeblock
      modifies this`disk
      ensures Built(r) && Inv(V(), SB, {})
    {
      hide Image, Slot, SameBytes, AllSynced, FilesBuilt, Inv, BitOf, Bit, WithBit, IsBlock;
      ghost var v := V();
      ImageSlotted(v, freeblock);
      var buf := Zeros();
      var i := 0;
      ZeroBits();
      while i < used
        invariant 0 <= i <= used && IsBlock(buf) && |buf| == BSIZE && disk == v.disk
        invariant forall c :: 0 <= c < BPB ==> (BitAt(buf, c) <==> c < i)
      {
        ghost var b := buf;
        buf := buf[i / 8 := WithBit(buf[i / 8], i % 8, true)];
        BitMore(b, i, buf);
        i := i + 1;
      }
      BitmapWritten(v, freeblock, buf, files, freeinode, r);
      disk := disk[SB.bmapstart := buf];
    }

    /** The kernel mounts the completed image, loads an inode and reads `n` bytes of what was
        appended to it, also of the inode that was rounded up. */
    method ReadBack(i: int, n: int, ghost r: int) returns (size: int, data: seq<int>)
      requires Built(r) && Inv(V(), SB, {}) && 0 < i < freeinode && i in files && 0 <= n < 0x1_0000_0000
      ensures n <= |files[i]| ==> data == files[i][..n]
      ensures n > |files[i]| && i != r ==> data == files[i]
      ensures size == if i == r then Rounded(|files[i]|) else |files[i]|
    {
      hide Image, Slot, SameBytes, AllSynced, Inv, Exact, Contents, FilesBuilt, Shaped, Whole, NoGap;
      InvShaped(V(), SB, {});
      var (ok, sb) := ReadSuper(disk[1]);
      InodeOf(V(), files, freeinode, i, r, freeblock);
      var kernel := new FileSystem(sb, disk, ino);
      kernel.Lock(i);
      OthersFromAll(kernel.V(), sb, i);
      if n <= |files[i]| || i != r { PresentBelow(V(), i, |files[i]|, n); }
      var got;
      got, data := kernel.Read(i, 0, n);
      if n <= |files[i]| || i != r { AllRead(V(), files, i, got, data, n); }
      return kernel.icache[i].size, data;
    }

    /** The kernel mounts the completed image and allocates: the first block the builder did not
        use, or none when it used them all. */
    method KernelBalloc(ghost r: int) returns (x: int)
      requires Built(r) && Inv(V(), SB, {})
      ensures x == if freeblock < FSSIZE then freeblock else 0
    {
      hide Image, Slot, SameBytes, AllSynced, Inv, FilesBuilt, Shaped, BitOf;
      ImageSlotted(V(), freeblock);
      var (ok, sb) := ReadSuper(disk[1]);
      var kernel := new FileSystem(sb, disk, ino);
      OthersFromAll(kernel.V(), sb, 0);
      forall b | 0 <= b < FSSIZE ensures BitOf(disk, SB, b) <==> b < freeblock {
        FreeAbove(V(), freeblock, b);
      }
      ghost var was := disk;
      x := kernel.Balloc({}, 0);
      if freeblock < FSSIZE { assert !BitOf(was, SB, freeblock); }
      if x != 0 { assert !BitOf(was, SB, x); }
    }

    /** Rounds the size of an inode up, past the next block boundary. */
    method RoundSize(i: int)
      requires Valid() && i in ino
      modifies this`disk, this`ino
      ensures Built(i) && SameBytes(old(V()), V())
      ensures ino == old(ino)[i := old(ino)[i].(size := Rounded(old(ino)[i].size))]
      ensures Whole(V(), i) <==> old(ino)[i].size % BSIZE != 0
    {
      hide Image, Slot, SameBytes, OthersSynced, AllSynced, Synced, FilesOk, FilesBuilt, ReadSuper, Whole;
      ghost var v := V();
      FileExact(v, files, freeinode, i);
      ImageSlotted(v, freeblock);
      OthersFromAll(v, SB, i);
      var din := Rinode(i);
      var off := (din.size / BSIZE + 1) * BSIZE;
      RoundedWhole(v, i);
      ImageSized(v, freeblock, i, off);
      din := din.(size := off);
      ino := ino[i := din];
      ghost var z := V();
      Winode(i, din);
      SameTrans(v, z, V());
      WholeSame(z, V(), i);
      RoundedBuilt(v, V(), files, freeinode, i);
    }

    /** The last steps of `main`: the root directory's size, then the bitmap. */
    method Finish(root: int)
      requires Valid() && root in ino
      modifies this`disk, this`ino
      ensures Built(root) && Inv(V(), SB, {})
    {
      hide Valid, Built, Inv, Rounded, SameBytes, Image, AllSynced, FilesOk, ReadSuper;
      RoundSize(root);
      Balloc(freeblock, root);
    }

    /** The block that holds byte block `fbn` of the file, taken from the free ones if new. */
    method BlockFor(i: int, din0: Dinode, fbn: int) returns (x: int, din: Dinode)
      requires Image(V(), freeblock) && i in ino && ino[i] == din0 && 0 <= fbn < MAXFILE && OthersSynced(V(), SB, i)
      requires Slot(V(), i, Key(fbn)) == 0 ==>
        freeblock + (if fbn >= NDIRECT && Slot(V(), i, NDIRECT) == 0 then 2 else 1) <= FSSIZE
      modifies this`disk, this`freeblock, this`ino
      ensures Image(V(), freeblock) && Grows(old(V()), V(), i) && OthersSynced(V(), SB, i)
      ensures i in ino && ino[i] == din && x == Slot(V(), i, Key(fbn)) && x != 0
      ensures freeblock == old(freeblock) + if old(Slot(V(), i, Key(fbn))) != 0 then 0
        else if fbn >= NDIRECT && old(Slot(V(), i, NDIRECT)) == 0 then 2 else 1
      ensures forall k :: k != Key(fbn) && k != NDIRECT ==> Slot(V(), i, k) == Slot(old(V()), i, k)
      ensures Slot(V(), i, NDIRECT) == 0 <==> (old(Slot(V(), i, NDIRECT)) == 0 && fbn < NDIRECT)
      ensures 1 in disk && disk[1] == old(disk)[1]
    {
      hide Image, Slot, SameBytes, OthersSynced, Synced, Grows, Word, WithWord, IsBlock, Filled;
      ghost var v := V();
      ImageSlotted(v, freeblock);
      if fbn < NDIRECT {
        x, din := AddrFor(i, din0, fbn);
        return;
      }
      AddrIs(v, i, NDIRECT);
      EntrySlot(v, SB, i, fbn - NDIRECT);
      x, din := AddrFor(i, din0, NDIRECT);
      ghost var u := V();
      x := EntryFor(i, din, fbn - NDIRECT);
      GrowsTrans(v, u, V(), i);
    }

    /** The block in address `k` of an inode, a direct one or the indirect block. */
    method AddrFor(i: int, din0: Dinode, k: int) returns (x: int, din: Dinode)
      requires Image(V(), freeblock) && i in ino && ino[i] == din0 && 0 <= k <= NDIRECT && OthersSynced(V(), SB, i)
      requires Slot(V(), i, k) == 0 ==> freeblock < FSSIZE
      modifies this`freeblock, this`ino
      ensures Image(V(), freeblock) && Grows(old(V()), V(), i) && OthersSynced(V(), SB, i)
      ensures i in ino && ino[i] == din && x == Slot(V(), i, k) && x != 0
      ensures freeblock == old(freeblock) + if old(Slot(V(), i, k)) != 0 then 0 else 1
      ensures forall m :: m != k ==> Slot(V(), i, m) == Slot(old(V()), i, m)
    {
      hide Image, Slot, SameBytes, OthersSynced, Synced, Grows, Filled;
      din := din0;
      ghost var v := V();
      ImageSlotted(v, freeblock);
      GrowsSelf(v, i);
      AddrIs(v, i, k);
      if din.addrs[k] == 0 {
        TakeAddr(v, freeblock, i, k);
        FilledOne(v, WithAddr(v, i, k, freeblock), i, k, freeblock);
        SyncOther(v, WithAddr(v, i, k, freeblock), SB, i);
        din := din.(addrs := din.addrs[k := freeblock]);
        ino := ino[i := din];
        freeblock := freeblock + 1;
      }
      x := din.addrs[k];
    }

    /** The block in entry `j` of the indirect block. */
    method EntryFor(i: int, din: Dinode, j: int) returns (x: int)
      requires Image(V(), freeblock) && i in ino && ino[i] == din && 0 <= j < NINDIRECT && OthersSynced(V(), SB, i)
      requires Slot(V(), i, NDIRECT) != 0 && (Slot(V(), i, NDIRECT + 1 + j) == 0 ==> freeblock < FSSIZE)
      modifies this`disk, this`freeblock
      ensures Image(V(), freeblock) && Grows(old(V()), V(), i) && OthersSynced(V(), SB, i)
      ensures x == Slot(V(), i, NDIRECT + 1 + j) && x != 0
      ensures freeblock == old(freeblock) + if old(Slot(V(), i, NDIRECT + 1 + j)) != 0 then 0 else 1
      ensures forall k :: k != NDIRECT + 1 + j ==> Slot(V(), i, k) == Slot(old(V()), i, k)
      ensures 1 in disk && disk[1] == old(disk)[1]
    {
      hide Image, Slot, SameBytes, OthersSynced, Synced, Grows, Word, WithWord, IsBlock, Filled;
      ghost var u := V();
      ImageSlotted(u, freeblock);
      GrowsSelf(u, i);
      AddrIs(u, i, NDIRECT);
      EntrySlot(u, SB, i, j);
      var ind := din.addrs[NDIRECT];
      var indirect := disk[ind];
      if Word(indirect, j) == 0 {
        TakeEntry(u, freeblock, i, j);
        FilledOne(u, WithEntry(u, i, j, freeblock), i, NDIRECT + 1 + j, freeblock);
        SyncFrame(u, SB, ind, WithWord(indirect, j, freeblock), i);
        indirect := WithWord(indirect, j, freeblock);
        disk := disk[ind := indirect];
        freeblock := freeblock + 1;
        EntryIs(V(), i, j) by { ImageSlotted(V(), freeblock); }
      }
      x := Word(indirect, j);
    }

    method Rinode(i: int) returns (din: Dinode)
      requires Slotted(V(), SB) && AllSynced(V(), SB) && i in ino
      ensures din == ino[i] && 0 <= din.size
    {
      Loaded(V(), i);
      din := DinodeAt(disk[Iblock(i, SB)], ISIZE * (i % IPB));
    }

    method Winode(i: int, din: Dinode)
      requires Image(V(), freeblock) && i in ino && ino[i] == din && OthersSynced(V(), SB, i)
      modifies this`disk
      ensures Image(V(), freeblock) && AllSynced(V(), SB) && SameBytes(old(V()), V())
      ensures (forall j, k :: Slot(V(), j, k) == Slot(old(V()), j, k)) && (1 in old(disk) ==> 1 in disk && disk[1] == old(disk)[1])
    {
      hide Image, Slot, SameBytes, OthersSynced, AllSynced, WithDinode;
      ImageInode(V(), freeblock, i);
      var buf := disk[Iblock(i, SB)];
      disk := disk[Iblock(i, SB) := WithDinode(buf, i % IPB, din)];
    }

    /** Appends `p` to inode `i`; the image must have room for it. */
    method Iappend(i: int, p: seq<int>)
      requires Valid() && i in ino && forall q :: 0 <= q < |p| ==> 0 <= p[q] < 256
      requires i < freeinode
      requires ino[i].size + |p| <= MAXFILE * BSIZE
      requires freeblock + BlocksFor(ino[i].size + |p|) - BlocksFor(ino[i].size) <= FSSIZE
      modifies this
      ensures Valid() && files == old(files)[i := old(files)[i] + p] && freeinode == old(freeinode)
      ensures freeblock == old(freeblock) + BlocksFor(old(ino)[i].size + |p|) - BlocksFor(old(ino)[i].size)
      ensures ino.Keys == old(ino).Keys
      ensures ino[i].size == old(ino)[i].size + |p| && forall j :: j in ino && j != i ==> ino[j] == old(ino)[j]
    {
      hide Image, Slot, SameBytes, OthersSynced, AllSynced, Synced, Appending, FilesOk, BlocksFor, Word, Patched, IsBlock, Slotted;
      ghost var v, fb0 := V(), freeblock;
      ghost var size0 := ino[i].size;
      ImageSlotted(v, fb0);
      FileExact(v, files, freeinode, i);
      AppendStart(v, i, p, fb0);
      var din := Rinode(i);
      var off, n, k := din.size, |p|, 0;
      while n > 0
        invariant 0 <= k && n == |p| - k >= 0 && off == size0 + k
        invariant i in ino && ino[i] == din
        invariant Appending(v, V(), i, size0, p, k, fb0, freeblock)
        invariant 1 in disk && disk[1] == v.disk[1] && freeinode == old(freeinode) && files == old(files)
        decreases n
      {
        var fbn := off / BSIZE;
        ghost var u, fb1 := V(), freeblock;
        AppendBlock(v, u, i, size0, p, k, fb0, fb1);
        var x;
        x, din := BlockFor(i, din, fbn);
        var n1 := if n < (fbn + 1) * BSIZE - off then n else (fbn + 1) * BSIZE - off;
        ghost var w := V();
        AppendAt(w, i, fbn, freeblock);
        var buf := disk[x];
        var at := off - fbn * BSIZE;
        buf := buf[..at] + p[k..k + n1] + buf[at + n1..];
        PatchedFrom(w, x, at, p[k..k + n1], disk[x], buf);
        AppendChunk(v, u, w, i, size0, p, k, fb0, fb1, freeblock, n1, buf);
        disk := disk[x := buf];
        n := n - n1;
        off := off + n1;
        k := k + n1;
      }
      EndAppend(i, din, off, v, p, fb0);
    }

    /** Writes out the inode with its new size when all of `p` is appended. */
    method EndAppend(i: int, din0: Dinode, off: int, ghost v: View, ghost p: seq<int>, ghost fb0: int)
      requires Image(v, fb0) && i in v.ino && Appending(v, V(), i, v.ino[i].size, p, |p|, fb0, freeblock)
      requires ino[i] == din0 && off == v.ino[i].size + |p| && 0 <= off <= MAXFILE * BSIZE
      requires FilesOk(v, files, freeinode) && i < freeinode && 1 <= freeinode <= NINODES
      requires 1 in disk && |disk[1]| == BSIZE && ReadSuper(disk[1]) == (true, SB)
      modifies this`disk, this`ino, this`files
      ensures Valid() && files == old(files)[i := old(files)[i] + p]
      ensures freeblock == fb0 + BlocksFor(off) - BlocksFor(v.ino[i].size)
      ensures ino.Keys == v.ino.Keys && ino[i] == din0.(size := off)
      ensures forall j :: j in ino && j != i ==> ino[j] == v.ino[j]
    {
      hide Image, Slot, SameBytes, OthersSynced, AllSynced, Synced, Appending, FilesOk, BlocksFor, ReadSuper;
      var din := din0.(size := off);
      ghost var w := V();
      AppendImage(v, w, i, v.ino[i].size, p, fb0, freeblock);
      FileExact(v, files, freeinode, i);
      ImageSized(w, freeblock, i, off);
      ino := ino[i := din];
      ghost var z := V();
      Winode(i, din);
      SameTrans(w, z, V());
      AppendDone(v, w, V(), i, v.ino[i].size, p, fb0, freeblock, files, freeinode);
      files := files[i := files[i] + p];
      SameInodes(v, V(), fb0, freeblock);
    }
  }

  function SuperBlock(): Block {
    WithWord(WithWord(WithWord(WithWord(WithWord(WithWord(WithWord(WithWord(Zeros(),
      0, FSMAGIC), 1, FSSIZE), 2, FSSIZE - NMETA), 3, NINODES), 4, NLOG), 5, 2), 6, 2 + NLOG), 7, 2 + NLOG + NINODEBLOCKS)
  }

  lemma WordsAfter(b: Block, j: int, v: int)
    requires IsBlock(b) && 0 <= j < NINDIRECT && 0 <= v < 0x1_0000_0000
    ensures IsBlock(WithWord(b, j, v)) && |WithWord(b, j, v)| == BSIZE
    ensures forall k :: 0 <= k < NINDIRECT ==> Word(WithWord(b, j, v), k) == if k == j then v else Word(b, k)
  {
    hide Word, WithWord;
    WordAfter(b, j, v, j);
    IsBlockSize(b);
    IsBlockSize(WithWord(b, j, v));
    forall k | 0 <= k < NINDIRECT ensures Word(WithWord(b, j, v), k) == if k == j then v else Word(b, k) {
      WordAfter(b, j, v, k);
    }
  }

  /** The kernel reads from the super block what was put there. */
  lemma SuperRead()
    ensures IsBlock(SuperBlock()) && |SuperBlock()| == BSIZE && ReadSuper(SuperBlock()) == (true, SB)
  {
    hide Word, WithWord, IsBlock;
    ZerosAre();
    var b0 := WithWord(Zeros(), 0, FSMAGIC);
    WordsAfter(Zeros(), 0, FSMAGIC);
    var b1 := WithWord(b0, 1, FSSIZE);
    WordsAfter(b0, 1, FSSIZE);
    var b2 := WithWord(b1, 2, FSSIZE - NMETA);
    WordsAfter(b1, 2, FSSIZE - NMETA);
    var b3 := WithWord(b2, 3, NINODES);
    WordsAfter(b2, 3, NINODES);
    var b4 := WithWord(b3, 4, NLOG);
    WordsAfter(b3, 4, NLOG);
    var b5 := WithWord(b4, 5, 2);
    WordsAfter(b4, 5, 2);
    var b6 := WithWord(b5, 6, 2 + NLOG);
    WordsAfter(b5, 6, 2 + NLOG);
    WordsAfter(b6, 7, 2 + NLOG + NINODEBLOCKS);
  }

  lemma FreshImage(disk: Disk, ino: Inodes, files: map<int, seq<int>>)
    requires forall b :: 0 <= b < FSSIZE ==> b in disk && disk[b] == if b == 1 then SuperBlock() else Zeros()
    requires forall i :: i in ino <==> 0 < i < NINODES
    requires forall i :: i in ino ==> ino[i] == EMPTY && i in files && files[i] == []
    ensures var v := View(disk, ino);
      && Image(v, NMETA) && AllSynced(v, SB) && FilesOk(v, files, 1)
      && 1 in disk && |disk[1]| == BSIZE && ReadSuper(disk[1]) == (true, SB)
  {
    hide SuperBlock, ReadSuper, Word, Slot, IsBlock, OnDisk, FilesOk;
    var v := View(disk, ino);
    SbGeometry();
    SuperRead();
    ZerosAre();
    forall i, k ensures Slot(v, i, k) == 0 { EmptySlots(v, i, k); }
    FreshFiles(v, files);
    forall i ensures Synced(v, SB, i) {
      if i in ino { FreshInode(v, i); }
    }
  }

  lemma EmptySlots(v: View, i: int, k: int)
    requires forall i :: i in v.ino ==> v.ino[i] == EMPTY
    ensures Slot(v, i, k) == 0
  {
  }

  lemma FreshFiles(v: View, files: map<int, seq<int>>)
    requires forall i, k :: Slot(v, i, k) == 0
    requires forall i :: i in v.ino ==> v.ino[i] == EMPTY && 0 < i && i in files && files[i] == []
    ensures FilesOk(v, files, 1)
  {
    hide Slot, Byte;
  }

  lemma ZeroDinode(at: int)
    requires 0 <= at && at + ISIZE <= BSIZE
    ensures DinodeAt(Zeros(), at) == EMPTY
  {
    ZeroBytes();
    hide Zeros;
  }

  lemma ZeroBytes()
    ensures |Zeros()| == BSIZE && forall j :: 0 <= j < BSIZE ==> Zeros()[j] == 0
  {
  }

  lemma FreshInode(v: View, i: int)
    requires 0 < i < NINODES && Iblock(i, SB) in v.disk
    requires forall b :: 2 <= b < FSSIZE && b in v.disk ==> v.disk[b] == Zeros()
    ensures OnDisk(v.disk, SB, i) == EMPTY
  {
    SbGeometry();
    ZerosAre();
    IsBlockSize(Zeros());
    ZeroDinode(ISIZE * (i % IPB));
    hide DinodeAt, IsBlock;
    assert 2 <= Iblock(i, SB) < FSSIZE;
  }

  lemma NewInode(v: View, fb: int, inum: int, din: Dinode, files: map<int, seq<int>>)
    requires Image(v, fb) && AllSynced(v, SB) && FilesOk(v, files, inum) && 0 < inum < NINODES
    requires 0 < din.kind < 0x1_0000 && din == EMPTY.(kind := din.kind, nlink := 1)
    ensures inum in v.ino
    ensures var z := View(v.disk, v.ino[inum := din]);
      Image(z, fb) && OthersSynced(z, SB, inum) && FilesOk(z, files[inum := []], inum + 1)
  {
    hide Slot, IsBlock, FilesOk, Exclusive, SameBytes, Synced;
    var z := View(v.disk, v.ino[inum := din]);
    assert Exact(v, inum, 0) by { FileEmpty(v, files, inum); }
    NewSlots(v, inum, din);
    assert Shaped(z, SB) by { assert IsDinode(din); }
    SameSlots(v, z, SB);
    OthersFromAll(v, SB, inum);
    SyncOther(v, z, SB, inum);
    SameBytesFrom(v, z);
    FilesNew(v, z, files, inum, din);
  }

  lemma FileEmpty(v: View, files: map<int, seq<int>>, inum: int)
    requires FilesOk(v, files, inum) && inum in v.ino
    ensures Exact(v, inum, 0)
  {
  }

  lemma NewSlots(v: View, inum: int, din: Dinode)
    requires Exact(v, inum, 0) && din.addrs == EMPTY.addrs
    ensures forall j, k :: Slot(View(v.disk, v.ino[inum := din]), j, k) == Slot(v, j, k)
  {
    hide Word;
    forall j, k ensures Slot(View(v.disk, v.ino[inum := din]), j, k) == Slot(v, j, k) {
      if j == inum { NoSlots(v, inum, k); }
    }
  }

  lemma NoSlots(v: View, i: int, k: int)
    requires Exact(v, i, 0)
    ensures Slot(v, i, k) == 0
  {
    if k < NDIRECT {
      assert Slot(v, i, Key(k)) == 0 || k < 0;
    } else if k > NDIRECT {
      assert Slot(v, i, Key(k - 1)) == 0;
    }
  }

  lemma FilesNew(v: View, z: View, files: map<int, seq<int>>, inum: int, din: Dinode)
    requires FilesOk(v, files, inum) && inum in v.ino && z.ino == v.ino[inum := din] && din.size == 0 && din.kind != 0
    requires SameBytes(v, z) && forall j, k :: Slot(z, j, k) == Slot(v, j, k)
    ensures FilesOk(z, files[inum := []], inum + 1)
  {
    hide Slot, Byte;
    forall j | j in z.ino ensures Exact(z, j, z.ino[j].size) && Contents(z, j) == files[inum := []][j] {}
  }

  lemma FilesSame(v: View, z: View, files: map<int, seq<int>>, freeinode: int)
    requires FilesOk(v, files, freeinode) && z.ino == v.ino
    requires SameBytes(v, z) && forall j, k :: Slot(z, j, k) == Slot(v, j, k)
    ensures FilesOk(z, files, freeinode)
  {
    hide Slot, Byte;
    forall j | j in z.ino ensures Exact(z, j, z.ino[j].size) && Contents(z, j) == files[j] {}
  }

  predicate BitAt(buf: Block, c: int)
    requires |buf| == BSIZE
  {
    0 <= c < BPB && Bit(buf[c / 8], c % 8)
  }

  lemma NoBit(k: nat)
    ensures !Bit(0, k)
  {
  }

  lemma ZeroBits()
    ensures IsBlock(Zeros()) && forall c :: 0 <= c < BPB ==> !BitAt(Zeros(), c)
  {
    hide Bit;
    forall c | 0 <= c < BPB ensures !BitAt(Zeros(), c) { NoBit(c % 8); }
  }

  lemma BitMore(buf: Block, i: int, y: Block)
    requires IsBlock(buf) && |buf| == BSIZE && 0 <= i < BPB && forall c :: 0 <= c < BPB ==> (BitAt(buf, c) <==> c < i)
    requires y == buf[i / 8 := WithBit(buf[i / 8], i % 8, true)]
    ensures IsBlock(y) && |y| == BSIZE && forall c :: 0 <= c < BPB ==> (BitAt(y, c) <==> c < i + 1)
  {
    hide IsBlock, Bit, WithBit;
    BitBlock(buf, i / 8, i % 8, true);
    forall c | 0 <= c < BPB ensures BitAt(y, c) <==> c < i + 1 {
      assert BitAt(buf, c) <==> c < i;
      if c / 8 == i / 8 {
        BitAfter(buf[i / 8], i % 8, true, c % 8);
        if c % 8 == i % 8 { assert c == c / 8 * 8 + c % 8 == i; }
      }
    }
  }

  lemma BitmapWritten(v: View, fb: int, buf: Block, files: map<int, seq<int>>, freeinode: int, r: int)
    requires Image(v, fb) && AllSynced(v, SB) && FilesBuilt(v, files, freeinode, r) && IsBlock(buf) && |buf| == BSIZE
    requires forall c :: 0 <= c < BPB ==> (BitAt(buf, c) <==> c < fb)
    ensures var w := View(v.disk[SB.bmapstart := buf], v.ino);
      && Image(w, fb) && AllSynced(w, SB) && FilesBuilt(w, files, freeinode, r) && Inv(w, SB, {})
      && (1 in v.disk ==> w.disk[1] == v.disk[1])
  {
    hide Image, Slot, SameBytes, AllSynced, FilesBuilt, Synced, Bit, IsBlock, Indirect;
    var x, w := SB.bmapstart, View(v.disk[SB.bmapstart := buf], v.ino);
    SbGeometry();
    ImageSlotted(v, fb);
    NotIndirect(v, SB, x);
    ImageWrite(v, fb, x, buf);
    ElsewhereBytes(v, w, x, buf);
    AllSyncFrame(v, x, buf);
    BuiltSame(v, w, files, freeinode, r);
    forall b | 0 <= b < FSSIZE ensures BitOf(w.disk, SB, b) <==> b < NMETA || Owned(w, b) {
      assert BitAt(buf, b) <==> b < fb;
      ImageOwned(w, fb, b);
    }
    ImageSlotted(w, fb);
  }

  lemma ImageOwned(w: View, fb: int, b: int)
    requires Image(w, fb) && 0 <= b < FSSIZE
    ensures b < fb <==> b < NMETA || Owned(w, b)
  {
    hide Slot;
  }

  /** A block whose bit is clear in the image is neither metadata nor used by any file: the
      kernel's allocator, which returns only such blocks, starts above them. */
  lemma FreeAbove(v: View, fb: int, b: int)
    requires Image(v, fb) && Inv(v, SB, {}) && 0 <= b < FSSIZE
    ensures BitOf(v.disk, SB, b) <==> b < fb
  {
    ImageOwned(v, fb, b);
  }

  lemma AllSyncFrame(v: View, x: int, y: Block)
    requires Shaped(v, SB) && AllSynced(v, SB) && SB.bmapstart <= x
    ensures AllSynced(View(v.disk[x := y], v.ino), SB)
  {
    var w := View(v.disk[x := y], v.ino);
    forall i ensures Synced(w, SB, i) {
      assert Synced(v, SB, i);
    }
  }

  lemma InodeOf(v: View, files: map<int, seq<int>>, freeinode: int, i: int, r: int, fb: int)
    requires FilesBuilt(v, files, freeinode, r) && Shaped(v, SB) && AllSynced(v, SB) && Image(v, fb)
    requires 0 < i < freeinode <= NINODES
    ensures i in v.ino && v.ino[i].kind != 0 && OnDisk(v.disk, SB, i) == v.ino[i] && i in files
    ensures 0 <= |files[i]| <= v.ino[i].size <= MAXFILE * BSIZE && FileBuilt(v, i, files[i])
    ensures v.ino[i].size == if i == r then Rounded(|files[i]|) else |files[i]|
  {
    hide Image;
    assert Synced(v, SB, i);
    SmallFile(v, fb, i, |files[i]|);
  }

  ghost function Used(v: View, i: int, n: nat): set<int> {
    set bn | 0 <= bn < n :: Slot(v, i, Key(bn))
  }

  /** The blocks of a file are different ones. */
  lemma {:induction false} UsedSize(v: View, fb: int, i: int, n: nat)
    requires Image(v, fb) && forall bn :: 0 <= bn < n ==> Slot(v, i, Key(bn)) != 0
    ensures |Used(v, i, n)| == n && forall b :: b in Used(v, i, n) ==> NMETA <= b < fb
  {
    hide Slot, Image;
    if n > 0 {
      UsedSize(v, fb, i, n - 1);
      var x := Slot(v, i, Key(n - 1));
      OwnSlot(v, fb, i, n);
      assert Used(v, i, n) == Used(v, i, n - 1) + {x};
    }
  }

  lemma OwnSlot(v: View, fb: int, i: int, n: nat)
    requires Image(v, fb) && n > 0 && Slot(v, i, Key(n - 1)) != 0
    ensures NMETA <= Slot(v, i, Key(n - 1)) < fb && Slot(v, i, Key(n - 1)) !in Used(v, i, n - 1)
  {
    hide Slot;
    SbGeometry();
    forall bn | 0 <= bn < n - 1 ensures Slot(v, i, Key(bn)) != Slot(v, i, Key(n - 1)) {
      assert Key(bn) != Key(n - 1);
    }
  }

  ghost function Span(lo: int, hi: int): (s: set<int>)
    ensures (forall b :: b in s <==> lo <= b < hi) && (lo <= hi ==> |s| == hi - lo)
    decreases hi - lo
  {
    if hi <= lo then {} else Span(lo, hi - 1) + {hi - 1}
  }

  /** No file of the image is near the maximum: its blocks would not fit. */
  lemma SmallFile(v: View, fb: int, i: int, size: int)
    requires Image(v, fb) && Exact(v, i, size)
    ensures size <= FSSIZE * BSIZE && Rounded(size) <= MAXFILE * BSIZE
  {
    hide Slot, Image;
    var n := size / BSIZE;
    assert n * BSIZE <= size;
    if n >= FSSIZE {
      forall bn | 0 <= bn < FSSIZE ensures Slot(v, i, Key(bn)) != 0 {}
      UsedSize(v, fb, i, FSSIZE);
      SubsetSize(Used(v, i, FSSIZE), Span(NMETA, FSSIZE)) by { ImageSlotted(v, fb); }
    }
  }

  lemma PresentBelow(v: View, i: int, size: int, n: int)
    requires Exact(v, i, size) && i in v.ino && 0 <= n && size <= v.ino[i].size && (n <= size || size == v.ino[i].size)
    ensures NoGap(v, i, 0 + n)
  {
    hide Slot;
  }

  lemma AllRead(v: View, files: map<int, seq<int>>, i: int, got: int, data: seq<int>, n: int)
    requires i in v.ino && i in files && FileBuilt(v, i, files[i])
    requires |files[i]| <= v.ino[i].size <= MAXFILE * BSIZE && (n <= |files[i]| || |files[i]| == v.ino[i].size)
    requires got == |data| <= n && (got > 0 ==> got <= v.ino[i].size) && (got == n || got == v.ino[i].size)
    requires got > 0 ==> data == Contents(v, i)[0..got]
    ensures data == files[i][..if n <= |files[i]| then n else |files[i]|]
  {
    hide Byte, Exact;
  }

  /** Rounding the root directory's size up to whole blocks leaves no block missing just when it
      was not a whole number of blocks already. */
  lemma RoundedWhole(v: View, i: int)
    requires i in v.ino && Exact(v, i, v.ino[i].size)
    ensures var size := Rounded(v.ino[i].size);
      Whole(View(v.disk, v.ino[i := v.ino[i].(size := size)]), i) <==> v.ino[i].size % BSIZE != 0
  {
    var off := v.ino[i].size;
    var w := View(v.disk, v.ino[i := v.ino[i].(size := (off / BSIZE + 1) * BSIZE)]);
    assert off == off / BSIZE * BSIZE + off % BSIZE;
    assert forall k :: Slot(w, i, k) == Slot(v, i, k);
    hide Slot;
    assert Slot(w, i, Key(off / BSIZE)) != 0 <==> off / BSIZE * BSIZE < off;
  }

  lemma WholeSame(v: View, w: View, i: int)
    requires w.ino == v.ino && forall k :: Slot(w, i, k) == Slot(v, i, k)
    ensures Whole(w, i) <==> Whole(v, i)
  {
  }

  /** A root directory of sixty-four entries: rounded up, it lacks its second block. */
  method ShortRoot() returns (b: Builder)
    ensures fresh(b) && 1 in b.ino && b.ino[1].size == 2048 && !Whole(b.V(), 1)
  {
    assert BlocksFor(1024) == 1 && BlocksFor(0) == 0;
    hide Image, Slot, SameBytes, OthersSynced, AllSynced, Synced, FilesOk, Whole, BlocksFor;
    b := new Builder();
    var root := b.Ialloc(1);
    b.Iappend(root, seq(1024, k => 0));
    ImageSlotted(b.V(), b.freeblock);
    b.RoundSize(root);
  }

  /** What `main` does with a root directory and one file. */
  method Build(dir: seq<int>, file: seq<int>) returns (b: Builder, root: int, i: int)
    requires forall q :: 0 <= q < |dir| ==> 0 <= dir[q] < 256
    requires forall q :: 0 <= q < |file| ==> 0 <= file[q] < 256
    requires |dir| <= MAXFILE * BSIZE && |file| <= MAXFILE * BSIZE
    requires NMETA + BlocksFor(|dir|) + BlocksFor(|file|) <= FSSIZE
    ensures fresh(b) && b.Built(root) && Inv(b.V(), SB, {})
    ensures 0 < root < i < b.freeinode && root in b.files && b.files[root] == dir && i in b.files && b.files[i] == file
    ensures b.freeblock == NMETA + BlocksFor(|dir|) + BlocksFor(|file|)
  {
    hide Builder.Valid, Builder.Built, Image, AllSynced, FilesOk, ReadSuper, Inv, BlocksFor, Whole, SameBytes, Rounded;
    NoBlocks(|file|);
    b := new Builder();
    root := b.Ialloc(1);
    i := b.Ialloc(2);
    assert b.ino[root].size == 0 && b.ino[i].size == 0 && b.freeblock == NMETA;
    assert b.files[root] == [] && b.files[i] == [];
    b.Iappend(root, dir);
    assert b.files[root] == dir && b.files[i] == [] && b.freeblock == NMETA + BlocksFor(|dir|);
    b.Iappend(i, file);
    assert b.files[root] == dir && b.files[i] == file;
    b.Finish(root);
  }

  lemma NoBlocks(n: nat)
    ensures BlocksFor(0) == 0 && BlocksFor(n) >= 0
  {
  }

  /** The kernel finds both files as they were appended, the directory's size rounded up, and the
      first free block behind them. */
  method BuildAndMount(dir: seq<int>, file: seq<int>) returns (dsize: int, d: seq<int>, fsize: int, f: seq<int>, x: int)
    requires forall q :: 0 <= q < |dir| ==> 0 <= dir[q] < 256
    requires forall q :: 0 <= q < |file| ==> 0 <= file[q] < 256
    requires |dir| <= MAXFILE * BSIZE && |file| <= MAXFILE * BSIZE
    requires NMETA + BlocksFor(|dir|) + BlocksFor(|file|) <= FSSIZE
    ensures d == dir && dsize == Rounded(|dir|) && f == file && fsize == |file|
    ensures var free := NMETA + BlocksFor(|dir|) + BlocksFor(|file|); x == if free < FSSIZE then free else 0
  {
    hide Builder.Built, Inv, BlocksFor, Rounded;
    var b, root, i := Build(dir, file);
    dsize, d := b.ReadBack(root, |dir|, root);
    fsize, f := b.ReadBack(i, |file|, root);
    x := b.KernelBalloc(root);
  }

  lemma FileExact(v: View, files: map<int, seq<int>>, freeinode: int, i: int)
    requires FilesOk(v, files, freeinode) && i in v.ino
    ensures Exact(v, i, v.ino[i].size) && 0 <= v.ino[i].size <= MAXFILE * BSIZE && i in files
  {
  }

  lemma PatchedFrom(v: View, x: int, at: int, s: seq<int>, b: Block, y: Block)
    requires x != 0 && x in v.disk && v.disk[x] == b && IsBlock(b) && 0 <= at && at + |s| <= BSIZE == |b|
    requires y == b[..at] + s + b[at + |s|..]
    ensures Patched(v, x, at, s, y)
  {
  }

  lemma AppendImage(v: View, w: View, i: int, size0: int, p: seq<int>, fb0: int, fb: int)
    requires Appending(v, w, i, size0, p, |p|, fb0, fb)
    ensures Image(w, fb) && OthersSynced(w, SB, i) && i in w.ino && fb == fb0 + BlocksFor(size0 + |p|) - BlocksFor(size0)
    ensures Written(v, w, i, size0, p, |p|)
  {
  }

  lemma Loaded(v: View, i: int)
    requires Slotted(v, SB) && AllSynced(v, SB) && i in v.ino
    ensures Iblock(i, SB) in v.disk && |v.disk[Iblock(i, SB)]| == BSIZE
    ensures DinodeAt(v.disk[Iblock(i, SB)], ISIZE * (i % IPB)) == v.ino[i] && 0 <= v.ino[i].size
  {
    InodeBlock(v, SB, i);
    assert Synced(v, SB, i);
    assert IsDinode(v.ino[i]);
  }

  /** There is room for the block that the next byte goes to. */
  lemma AppendBlock(v: View, u: View, i: int, size0: int, p: seq<int>, k: int, fb0: int, fb: int)
    requires Appending(v, u, i, size0, p, k, fb0, fb) && 0 <= k < |p| && 0 <= size0 && size0 + |p| <= MAXFILE * BSIZE
    requires fb0 + BlocksFor(size0 + |p|) - BlocksFor(size0) <= FSSIZE
    ensures Image(u, fb) && OthersSynced(u, SB, i)
    ensures var fbn := (size0 + k) / BSIZE;
      && 0 <= fbn < MAXFILE
      && (Slot(u, i, Key(fbn)) == 0 ==> fb + (if fbn >= NDIRECT && Slot(u, i, NDIRECT) == 0 then 2 else 1) <= FSSIZE)
  {
    hide Image, Slot, OthersSynced, Exact, Written;
    var off := size0 + k;
    NextBlock(u, i, off);
    BlockCount(off, 1);
  }

  lemma AppendAt(w: View, i: int, fbn: int, fb: int)
    requires Image(w, fb) && Slot(w, i, Key(fbn)) != 0
    ensures var x := Slot(w, i, Key(fbn)); x in w.disk && IsBlock(w.disk[x]) && |w.disk[x]| == BSIZE && NMETA <= x < fb
  {
    DataAt(w, SB, i, fbn);
  }

  /** Writing a block below the free ones that is no indirect block. */
  lemma ImageWrite(w: View, fb: int, x: int, y: Block)
    requires Image(w, fb) && IsBlock(y) && x < fb && x != 1 && !Indirect(w, x)
    ensures Image(View(w.disk[x := y], w.ino), fb)
    ensures forall j, k :: Slot(View(w.disk[x := y], w.ino), j, k) == Slot(w, j, k)
  {
    hide Slot, Slotted, IsBlock, Indirect;
    PlainSlots(w, SB, x, y);
    SlottedOwned(w, View(w.disk[x := y], w.ino));
  }

  lemma SlottedOwned(v: View, w: View)
    requires Slotted(v, SB) && forall i, k :: Slot(w, i, k) == Slot(v, i, k)
    ensures forall b :: Owned(w, b) <==> Owned(v, b)
  {
    SameSlots(v, w, SB);
  }

  lemma AppendChunk(v: View, u: View, w: View, i: int, size0: int, p: seq<int>, k: int, fb0: int, fb1: int, fb: int,
                    n1: int, y: Block)
    requires Appending(v, u, i, size0, p, k, fb0, fb1) && 0 <= k && 0 <= size0 && size0 + |p| <= MAXFILE * BSIZE
    requires Image(w, fb) && Grows(u, w, i) && OthersSynced(w, SB, i)
    requires forall q :: 0 <= q < |p| ==> 0 <= p[q] < 256
    requires var fbn := (size0 + k) / BSIZE;
      && 0 < n1 <= |p| - k && n1 <= (fbn + 1) * BSIZE - (size0 + k)
      && (forall m :: m != Key(fbn) && m != NDIRECT ==> Slot(w, i, m) == Slot(u, i, m))
      && (Slot(w, i, NDIRECT) == 0 <==> (Slot(u, i, NDIRECT) == 0 && fbn < NDIRECT))
      && fb == fb1 + (if Slot(u, i, Key(fbn)) != 0 then 0 else if fbn >= NDIRECT && Slot(u, i, NDIRECT) == 0 then 2 else 1)
      && Patched(w, Slot(w, i, Key(fbn)), size0 + k - fbn * BSIZE, p[k..k + n1], y)
    ensures Appending(v, View(w.disk[Slot(w, i, Key((size0 + k) / BSIZE)) := y], w.ino), i, size0, p, k + n1, fb0, fb)
    ensures NMETA <= Slot(w, i, Key((size0 + k) / BSIZE))
  {
    hide Image, Slot, OthersSynced, Synced, Exact, Written, Grows, Patched, IsBlock;
    var off := size0 + k;
    var fbn := off / BSIZE;
    var x := Slot(w, i, Key(fbn));
    assert off - fbn * BSIZE == off % BSIZE && (fbn + 1) * BSIZE - off == BSIZE - off % BSIZE;
    PatchedIn(w, x, off % BSIZE, p[k..k + n1], y);
    ImageSlotted(w, fb);
    AppendAt(w, i, fbn, fb);
    WrittenGrows(v, u, w, i, size0, p, k);
    WriteChunk(v, w, SB, i, size0, p, k, n1, y);
    DataBytes(w, SB, i, fbn, y);
    ImageWrite(w, fb, x, y);
    SyncFrame(w, SB, x, y, i);
    NextBlock(u, i, off);
    BlockCount(off, n1);
    ExactNext(u, View(w.disk[x := y], w.ino), i, off, n1);
  }

  lemma ImageSized(w: View, fb: int, i: int, size: int)
    requires Image(w, fb) && i in w.ino && 0 <= size < 0x1_0000_0000 && OthersSynced(w, SB, i)
    ensures var z := View(w.disk, w.ino[i := w.ino[i].(size := size)]);
      && Image(z, fb) && OthersSynced(z, SB, i) && SameBytes(w, z) && forall j, k :: Slot(z, j, k) == Slot(w, j, k)
  {
    var z := View(w.disk, w.ino[i := w.ino[i].(size := size)]);
    hide Word, IsBlock, Byte;
    forall j, k ensures Slot(z, j, k) == Slot(w, j, k) {}
    assert IsDinode(w.ino[i]);
    SameSlots(w, z, SB);
    SyncOther(w, z, SB, i);
    SameBytesFrom(w, z);
  }

  /** Writing the inode out at the end. */
  lemma ImageInode(z: View, fb: int, i: int)
    requires Image(z, fb) && i in z.ino && OthersSynced(z, SB, i)
    ensures Iblock(i, SB) in z.disk && |z.disk[Iblock(i, SB)]| == BSIZE && Iblock(i, SB) != 1
    ensures var x := Iblock(i, SB); var t := View(z.disk[x := WithDinode(z.disk[x], i % IPB, z.ino[i])], z.ino);
      Image(t, fb) && AllSynced(t, SB) && SameBytes(z, t) && forall j, k :: Slot(t, j, k) == Slot(z, j, k)
  {
    hide Image, Slot, SameBytes, OthersSynced, AllSynced, WithDinode, IsBlock, Indirect, Slotted;
    ImageSlotted(z, fb);
    InodeBlock(z, SB, i);
    InodeWrite(z, SB, i);
    ImageWrite(z, fb, Iblock(i, SB), WithDinode(z.disk[Iblock(i, SB)], i % IPB, z.ino[i]));
  }

  ghost predicate FilesOk(v: View, files: map<int, seq<int>>, freeinode: int) {
    && (forall i :: i in v.ino ==> Exact(v, i, v.ino[i].size))
    && (forall i :: i in v.ino && i >= freeinode ==> v.ino[i].size == 0)
    && (forall i :: i in v.ino && i < freeinode ==> v.ino[i].kind != 0)
    && (forall i :: i in v.ino ==> 0 <= v.ino[i].size && i in files && Contents(v, i) == files[i])
  }

  /** The inodes hold what was appended to them; all sizes but that of `r` say how much it was. */
  ghost predicate FilesBuilt(v: View, files: map<int, seq<int>>, freeinode: int, r: int) {
    forall i :: i in v.ino ==>
      && i in files && FileBuilt(v, i, files[i]) && (i < freeinode ==> v.ino[i].kind != 0)
      && v.ino[i].size == if i == r then Rounded(|files[i]|) else |files[i]|
  }

  ghost predicate FileBuilt(v: View, i: int, file: seq<int>) {
    Exact(v, i, |file|) && forall o :: 0 <= o < |file| ==> file[o] == Byte(v, i, o)
  }

  lemma SameInodes(v: View, w: View, fb0: int, fb: int)
    requires Image(v, fb0) && Image(w, fb)
    ensures v.ino.Keys == w.ino.Keys
  {
    assert forall i :: i in v.ino <==> i in w.ino;
  }

  lemma NoInodeZero(v: View, fb: int)
    requires Image(v, fb)
    ensures 0 !in v.ino
  {
  }

  lemma AllBuilt(v: View, files: map<int, seq<int>>, freeinode: int)
    requires FilesOk(v, files, freeinode) && 0 !in v.ino
    ensures FilesBuilt(v, files, freeinode, 0)
  {
    hide Exact, Byte;
    forall i | i in v.ino ensures i in files && FileBuilt(v, i, files[i]) && v.ino[i].size == |files[i]| {
      assert Contents(v, i) == files[i];
    }
  }

  lemma RoundedBuilt(v: View, w: View, files: map<int, seq<int>>, freeinode: int, r: int)
    requires FilesOk(v, files, freeinode) && r in v.ino
    requires w.ino == v.ino[r := v.ino[r].(size := Rounded(v.ino[r].size))]
    requires SameBytes(v, w) && forall j, k :: Slot(w, j, k) == Slot(v, j, k)
    ensures FilesBuilt(w, files, freeinode, r)
  {
    hide Slot, Byte;
    forall i | i in w.ino
      ensures i in files && FileBuilt(w, i, files[i])
      ensures w.ino[i].size == if i == r then Rounded(|files[i]|) else |files[i]|
    {
      assert Exact(v, i, v.ino[i].size) && Contents(v, i) == files[i];
    }
  }

  lemma BuiltSame(v: View, z: View, files: map<int, seq<int>>, freeinode: int, r: int)
    requires FilesBuilt(v, files, freeinode, r) && z.ino == v.ino
    requires SameBytes(v, z) && forall j, k :: Slot(z, j, k) == Slot(v, j, k)
    ensures FilesBuilt(z, files, freeinode, r)
  {
    hide Slot, Byte;
    forall i | i in z.ino ensures i in files && FileBuilt(z, i, files[i]) {
      assert FileBuilt(v, i, files[i]);
    }
  }

  lemma AppendDone(v: View, w: View, t: View, i: int, size0: int, p: seq<int>, fb0: int, fb: int,
                   files: map<int, seq<int>>, freeinode: int)
    requires Appending(v, w, i, size0, p, |p|, fb0, fb) && FilesOk(v, files, freeinode) && i in v.ino && i < freeinode
    requires size0 == v.ino[i].size && 0 <= size0 + |p| <= MAXFILE * BSIZE
    requires i in w.ino && t.ino == w.ino[i := w.ino[i].(size := size0 + |p|)] && SameBytes(w, t)
    requires forall j, k :: Slot(t, j, k) == Slot(w, j, k)
    ensures FilesOk(t, files[i := files[i] + p], freeinode)
  {
    hide Slot, Byte, Image, OthersSynced, Contents, BlocksFor, SameBytes;
    WrittenSame(v, w, t, i, size0, p, |p|);
    forall j | j in t.ino ensures Exact(t, j, t.ino[j].size) && Contents(t, j) == files[i := files[i] + p][j] {
      hide Written;
      WrittenContents(v, t, i, size0, p, |p|, j);
      assert p[..|p|] == p;
      ContentsLength(v, i);
      assert Overwritten(files[i], size0, p) == files[i] + p;
    }
    forall j | j in t.ino && j >= freeinode ensures t.ino[j].size == 0 {}
    forall j | j in t.ino && j < freeinode ensures t.ino[j].kind != 0 {}
  }

  lemma ContentsLength(v: View, i: int)
    requires i in v.ino && 0 <= v.ino[i].size
    ensures |Contents(v, i)| == v.ino[i].size
  {
  }

  lemma ImageSlotted(v: View, fb: int)
    requires Image(v, fb)
    ensures Slotted(v, SB) && NMETA <= fb <= FSSIZE && Geometry(SB) && SB.Lo() == NMETA && SB.bmapstart <= NMETA
    ensures 1 in v.disk && |v.disk[1]| == BSIZE
  {
  }

  lemma AddrIs(v: View, i: int, k: int)
    requires Slotted(v, SB) && i in v.ino && 0 <= k <= NDIRECT
    ensures |v.ino[i].addrs| == NDIRECT + 1 && Slot(v, i, k) == v.ino[i].addrs[k]
  {
    assert IsDinode(v.ino[i]);
  }

  lemma EntryIs(v: View, i: int, j: int)
    requires Slotted(v, SB) && i in v.ino && 0 <= j < NINDIRECT && Slot(v, i, NDIRECT) != 0
    ensures var x := Slot(v, i, NDIRECT);
      x in v.disk && |v.disk[x]| == BSIZE && Slot(v, i, NDIRECT + 1 + j) == Word(v.disk[x], j)
  {
    EntrySlot(v, SB, i, j);
  }

  lemma FilledOne(v: View, w: View, i: int, k: int, b: int)
    requires Filled(v, w, i, k, b)
    ensures Slot(w, i, k) == b && Slot(v, i, k) == 0 && forall m :: m != k ==> Slot(w, i, m) == Slot(v, i, m)
  {
  }
}
