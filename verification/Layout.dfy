/** What the bytes of a disk image mean: little-endian numbers, inodes, bitmaps. */
module Layout {
  import opened Bits

  const BSIZE: int := 1024
  const NDIRECT: int := 12
  const NINDIRECT: int := 256
  const MAXFILE: int := 268   // NDIRECT + NINDIRECT
  const BPB: int := 8192      // bitmap bits per block
  const IPB: int := 16        // inodes per block
  const ISIZE: int := 64      // bytes in an inode

  type Block = seq<int>

  ghost predicate IsBlock(b: Block) {
    |b| == BSIZE && forall i :: 0 <= i < BSIZE ==> 0 <= b[i] < 256
  }

  function Zeros(): Block {
    seq(BSIZE, i => 0)
  }

  // ----- numbers in bytes

  function U16(b: seq<int>, at: int): int
    requires 0 <= at && at + 2 <= |b|
  {
    b[at] + b[at + 1] * 256
  }

  function U32(b: seq<int>, at: int): int
    requires 0 <= at && at + 4 <= |b|
  {
    b[at] + b[at + 1] * 256 + b[at + 2] * 65536 + b[at + 3] * 16777216
  }

  function Bytes16(v: int): seq<int> {
    [v % 256, v / 256 % 256]
  }

  function Bytes32(v: int): seq<int> {
    [v % 256, v / 256 % 256, v / 65536 % 256, v / 16777216 % 256]
  }

  lemma Digits(v: int)
    requires 0 <= v < 0x1_0000_0000
    ensures v == v % 256 + v / 256 % 256 * 256 + v / 65536 % 256 * 65536 + v / 16777216 % 256 * 16777216
  {
    var a, b, c := v / 256, v / 65536, v / 16777216;
    assert b == a / 256 && c == b / 256;
  }

  lemma Bytes32Read(v: int)
    requires 0 <= v < 0x1_0000_0000
    ensures U32(Bytes32(v), 0) == v
  {
    Digits(v);
  }

  lemma Bytes16Read(v: int)
    requires 0 <= v < 0x1_0000
    ensures U16(Bytes16(v), 0) == v
  {
  }

  // ----- an array of numbers in a block

  function Word(b: Block, j: int): int
    requires |b| == BSIZE && 0 <= j < NINDIRECT
  {
    U32(b, 4 * j)
  }

  function WithWord(b: Block, j: int, v: int): Block
    requires |b| == BSIZE && 0 <= j < NINDIRECT
  {
    b[..4 * j] + Bytes32(v) + b[4 * j + 4..]
  }

  lemma WordAfter(b: Block, j: int, v: int, k: int)
    requires IsBlock(b) && 0 <= j < NINDIRECT && 0 <= k < NINDIRECT && 0 <= v < 0x1_0000_0000
    ensures IsBlock(WithWord(b, j, v))
    ensures Word(WithWord(b, j, v), k) == if k == j then v else Word(b, k)
  {
    var c := WithWord(b, j, v);
    if k == j {
      assert c[4 * j] == Bytes32(v)[0] && c[4 * j + 1] == Bytes32(v)[1];
      assert c[4 * j + 2] == Bytes32(v)[2] && c[4 * j + 3] == Bytes32(v)[3];
      Bytes32Read(v);
    } else {
      assert c[4 * k + 0] == b[4 * k + 0] && c[4 * k + 1] == b[4 * k + 1];
      assert c[4 * k + 2] == b[4 * k + 2] && c[4 * k + 3] == b[4 * k + 3];
    }
  }

  lemma ZerosAre()
    ensures IsBlock(Zeros()) && forall j :: 0 <= j < NINDIRECT ==> Word(Zeros(), j) == 0
  {
  }

  // ----- bits in a byte

  /** Bit `k` of `x`, counted from the least significant. */
  function Bit(x: int, k: nat): bool
    decreases k
  {
    if k == 0 then x % 2 == 1 else Bit(x / 2, k - 1)
  }

  /** `x | (1 << k)`, or `x & ~(1 << k)`. */
  function WithBit(x: int, k: nat, on: bool): int
    decreases k
  {
    if k == 0 then x / 2 * 2 + (if on then 1 else 0) else WithBit(x / 2, k - 1, on) * 2 + x % 2
  }

  lemma Double(h: int, r: int)
    requires 0 <= r < 2
    ensures (h * 2 + r) / 2 == h && (h * 2 + r) % 2 == r
  {
  }

  lemma {:induction false} BitAfter(x: int, k: nat, on: bool, j: nat)
    ensures Bit(WithBit(x, k, on), j) == if j == k then on else Bit(x, j)
    decreases k
  {
    var y := WithBit(x, k, on);
    if k > 0 {
      Double(WithBit(x / 2, k - 1, on), x % 2);
      if j > 0 { BitAfter(x / 2, k - 1, on, j - 1); }
    } else {
      Double(x / 2, if on then 1 else 0);
    }
  }

  /** A byte with one bit changed is a byte, and only that bit's weight is gained or lost. */
  lemma {:induction false} BitWeight(x: int, k: nat, on: bool)
    ensures WithBit(x, k, on) == if on == Bit(x, k) then x else if on then x + Pow2(k) else x - Pow2(k)
    decreases k
  {
    if k > 0 { BitWeight(x / 2, k - 1, on); }
  }

  /** Setting a clear bit and clearing it again restores the byte. */
  lemma BitBack(x: int, k: nat)
    requires !Bit(x, k)
    ensures WithBit(WithBit(x, k, true), k, false) == x
  {
    var y := WithBit(x, k, true);
    BitAfter(x, k, true, k);
    BitWeight(x, k, true);
    BitWeight(y, k, false);
  }

  lemma HalfBelow(x: int, p: int)
    requires 0 <= x < 2 * p
    ensures 0 <= x / 2 < p && 0 <= x % 2 < 2
  {
  }

  lemma {:induction false} ByteStays(x: int, k: nat, on: bool, n: nat)
    requires 0 <= x < Pow2(n) && k < n
    ensures 0 <= WithBit(x, k, on) < Pow2(n)
    decreases k
  {
    var p := Pow2(n - 1);
    assert Pow2(n) == 2 * p;
    HalfBelow(x, p);
    if k > 0 {
      ByteStays(x / 2, k - 1, on, n - 1);
      assert WithBit(x, k, on) == WithBit(x / 2, k - 1, on) * 2 + x % 2;
    }
  }

  // ----- inodes

  datatype Dinode = Dinode(kind: int, major: int, minor: int, nlink: int, size: int, addrs: seq<int>)

  ghost predicate IsDinode(d: Dinode) {
    && 0 <= d.kind < 0x1_0000 && 0 <= d.major < 0x1_0000 && 0 <= d.minor < 0x1_0000 && 0 <= d.nlink < 0x1_0000
    && 0 <= d.size < 0x1_0000_0000 && |d.addrs| == NDIRECT + 1
    && forall k :: 0 <= k <= NDIRECT ==> 0 <= d.addrs[k] < 0x1_0000_0000
  }

  function Addrs(b: seq<int>, at: int): seq<int>
    requires 0 <= at && at + 52 <= |b|
  {
    [U32(b, at), U32(b, at + 4), U32(b, at + 8), U32(b, at + 12), U32(b, at + 16), U32(b, at + 20), U32(b, at + 24),
     U32(b, at + 28), U32(b, at + 32), U32(b, at + 36), U32(b, at + 40), U32(b, at + 44), U32(b, at + 48)]
  }

  function DinodeAt(b: seq<int>, at: int): Dinode
    requires 0 <= at && at + ISIZE <= |b|
  {
    Dinode(U16(b, at), U16(b, at + 2), U16(b, at + 4), U16(b, at + 6), U32(b, at + 8), Addrs(b, at + 12))
  }

  function AddrBytes(a: seq<int>): seq<int> {
    if a == [] then [] else Bytes32(a[0]) + AddrBytes(a[1..])
  }

  function DinodeBytes(d: Dinode): seq<int> {
    Bytes16(d.kind) + Bytes16(d.major) + Bytes16(d.minor) + Bytes16(d.nlink) + Bytes32(d.size) + AddrBytes(d.addrs)
  }

  lemma AddrBytesLength(a: seq<int>)
    ensures |AddrBytes(a)| == 4 * |a|
  {
  }

  lemma {:induction false} AddrBytesAt(a: seq<int>, k: nat, pre: seq<int>, post: seq<int>)
    requires k < |a| && 0 <= a[k] < 0x1_0000_0000
    ensures |AddrBytes(a)| == 4 * |a|
    ensures U32(pre + AddrBytes(a) + post, |pre| + 4 * k) == a[k]
    decreases k
  {
    AddrBytesLength(a);
    var s := pre + AddrBytes(a) + post;
    if k == 0 {
      var at := |pre|;
      assert s[at] == Bytes32(a[0])[0] && s[at + 1] == Bytes32(a[0])[1];
      assert s[at + 2] == Bytes32(a[0])[2] && s[at + 3] == Bytes32(a[0])[3];
      Bytes32Read(a[0]);
    } else {
      AddrBytesAt(a[1..], k - 1, pre + Bytes32(a[0]), post);
      assert s == (pre + Bytes32(a[0])) + AddrBytes(a[1..]) + post;
    }
  }

  lemma {:induction false} AddrBytesAre(a: seq<int>)
    requires forall k :: 0 <= k < |a| ==> 0 <= a[k]
    ensures forall i :: 0 <= i < |AddrBytes(a)| ==> 0 <= AddrBytes(a)[i] < 256
  {
    if a != [] { AddrBytesAre(a[1..]); }
  }

  function WithDinode(b: Block, j: int, d: Dinode): Block
    requires |b| == BSIZE && 0 <= j < IPB
  {
    b[..ISIZE * j] + DinodeBytes(d) + b[ISIZE * j + ISIZE..]
  }

  lemma HeaderRead(d: Dinode, pre: seq<int>, post: seq<int>)
    requires IsDinode(d)
    ensures |DinodeBytes(d)| == ISIZE
    ensures var s, at := pre + DinodeBytes(d) + post, |pre|;
      && U16(s, at) == d.kind && U16(s, at + 2) == d.major && U16(s, at + 4) == d.minor && U16(s, at + 6) == d.nlink
      && U32(s, at + 8) == d.size
  {
    AddrBytesLength(d.addrs);
    var e := DinodeBytes(d);
    var s, at := pre + e + post, |pre|;
    Bytes16Read(d.kind);
    Bytes16Read(d.major);
    Bytes16Read(d.minor);
    Bytes16Read(d.nlink);
    Bytes32Read(d.size);
    assert e[0..2] == Bytes16(d.kind) && e[2..4] == Bytes16(d.major) && e[4..6] == Bytes16(d.minor);
    assert e[6..8] == Bytes16(d.nlink) && e[8..12] == Bytes32(d.size);
  }

  lemma AddrsRead(d: Dinode, pre: seq<int>, post: seq<int>)
    requires IsDinode(d)
    ensures |DinodeBytes(d)| == ISIZE
    ensures Addrs(pre + DinodeBytes(d) + post, |pre| + 12) == d.addrs
  {
    AddrBytesLength(d.addrs);
    var head := Bytes16(d.kind) + Bytes16(d.major) + Bytes16(d.minor) + Bytes16(d.nlink) + Bytes32(d.size);
    var p := pre + head;
    assert pre + DinodeBytes(d) + post == p + AddrBytes(d.addrs) + post;
    forall k: nat | k < 13 ensures U32(p + AddrBytes(d.addrs) + post, |p| + 4 * k) == d.addrs[k] {
      AddrBytesAt(d.addrs, k, p, post);
    }
    ThirteenWords(p + AddrBytes(d.addrs) + post, |p|, d.addrs);
  }

  lemma ThirteenWords(s: seq<int>, at: int, a: seq<int>)
    requires |a| == 13 && 0 <= at && at + 52 <= |s|
    requires forall k: nat :: k < 13 ==> U32(s, at + 4 * k) == a[k]
    ensures Addrs(s, at) == a
  {
    hide U32;
    var w := Addrs(s, at);
    assert w[0] == U32(s, at + 4 * 0) && w[1] == U32(s, at + 4 * 1) && w[2] == U32(s, at + 4 * 2);
    assert w[3] == U32(s, at + 4 * 3) && w[4] == U32(s, at + 4 * 4) && w[5] == U32(s, at + 4 * 5);
    assert w[6] == U32(s, at + 4 * 6) && w[7] == U32(s, at + 4 * 7) && w[8] == U32(s, at + 4 * 8);
    assert w[9] == U32(s, at + 4 * 9) && w[10] == U32(s, at + 4 * 10) && w[11] == U32(s, at + 4 * 11);
    assert w[12] == U32(s, at + 4 * 12);
  }

  lemma DinodeBytesAre(d: Dinode)
    requires IsDinode(d)
    ensures |DinodeBytes(d)| == ISIZE && forall i :: 0 <= i < ISIZE ==> 0 <= DinodeBytes(d)[i] < 256
  {
    AddrBytesLength(d.addrs);
    AddrBytesAre(d.addrs);
  }

  lemma DinodeHere(b: Block, j: int, d: Dinode)
    requires IsBlock(b) && 0 <= j < IPB && IsDinode(d)
    ensures IsBlock(WithDinode(b, j, d)) && DinodeAt(WithDinode(b, j, d), ISIZE * j) == d
  {
    HeaderRead(d, b[..ISIZE * j], b[ISIZE * j + ISIZE..]);
    AddrsRead(d, b[..ISIZE * j], b[ISIZE * j + ISIZE..]);
    DinodeBytesAre(d);
    hide U16, U32, DinodeBytes, Addrs;
  }

  lemma DinodeThere(b: Block, j: int, d: Dinode, k: int)
    requires IsBlock(b) && 0 <= j < IPB && 0 <= k < IPB && k != j && IsDinode(d)
    ensures |WithDinode(b, j, d)| == BSIZE && DinodeAt(WithDinode(b, j, d), ISIZE * k) == DinodeAt(b, ISIZE * k)
  {
    DinodeBytesAre(d);
    hide DinodeAt, DinodeBytes;
    var c := WithDinode(b, j, d);
    assert c[ISIZE * k..ISIZE * k + ISIZE] == b[ISIZE * k..ISIZE * k + ISIZE];
    SameDinode(b, c, ISIZE * k);
  }

  /** Writing an inode into its block and reading it back; the others stay. */
  lemma DinodeAfter(b: Block, j: int, d: Dinode, k: int)
    requires IsBlock(b) && 0 <= j < IPB && 0 <= k < IPB && IsDinode(d)
    ensures IsBlock(WithDinode(b, j, d))
    ensures DinodeAt(WithDinode(b, j, d), ISIZE * k) == if k == j then d else DinodeAt(b, ISIZE * k)
  {
    hide DinodeAt, WithDinode;
    DinodeHere(b, j, d);
    if k != j { DinodeThere(b, j, d, k); }
  }

  lemma Same16(b: seq<int>, c: seq<int>, i: int)
    requires 0 <= i && i + 2 <= |b| == |c| && b[i] == c[i] && b[i + 1] == c[i + 1]
    ensures U16(b, i) == U16(c, i)
  {
  }

  lemma Same32(b: seq<int>, c: seq<int>, i: int)
    requires 0 <= i && i + 4 <= |b| == |c|
    requires b[i] == c[i] && b[i + 1] == c[i + 1] && b[i + 2] == c[i + 2] && b[i + 3] == c[i + 3]
    ensures U32(b, i) == U32(c, i)
  {
  }

  lemma SameAddrs(b: seq<int>, c: seq<int>, a: int)
    requires 0 <= a && a + 52 <= |b| == |c| && forall i :: a <= i < a + 52 ==> b[i] == c[i]
    ensures Addrs(b, a) == Addrs(c, a)
  {
    hide U32;
    Same32(b, c, a);
    Same32(b, c, a + 4);
    Same32(b, c, a + 8);
    Same32(b, c, a + 12);
    Same32(b, c, a + 16);
    Same32(b, c, a + 20);
    Same32(b, c, a + 24);
    Same32(b, c, a + 28);
    Same32(b, c, a + 32);
    Same32(b, c, a + 36);
    Same32(b, c, a + 40);
    Same32(b, c, a + 44);
    Same32(b, c, a + 48);
  }

  lemma SameDinode(b: seq<int>, c: seq<int>, at: int)
    requires 0 <= at && at + ISIZE <= |b| && |c| == |b| && b[at..at + ISIZE] == c[at..at + ISIZE]
    ensures DinodeAt(b, at) == DinodeAt(c, at)
  {
    hide U16, U32;
    forall i | at <= i < at + ISIZE ensures b[i] == c[i] {
      assert b[at..at + ISIZE][i - at] == c[at..at + ISIZE][i - at];
    }
    Same16(b, c, at);
    Same16(b, c, at + 2);
    Same16(b, c, at + 4);
    Same16(b, c, at + 6);
    Same32(b, c, at + 8);
    SameAddrs(b, c, at + 12);
  }
}
