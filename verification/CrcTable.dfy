/** The checksum's table of 256 words, checked entry by entry against the polynomial. */
module CrcTable {

  /** The reflected CRC-32 polynomial (section 8 of RFC 1952). */
  const POLY: bv32 := 0xEDB88320

  function Half(c: bv32): bv32 { c >> 1 }
  function Feedback(c: bv32): bv32 { if c & 1 == 1 then POLY else 0 }

  /** One step of the shift register. */
  function Shift1(c: bv32): bv32 { Half(c) ^ Feedback(c) }

  function Shift8(c: bv32): bv32 {
    Shift1(Shift1(Shift1(Shift1(Shift1(Shift1(Shift1(Shift1(c))))))))
  }

  // The table, in rows of eight words.
  const ROW0: seq<bv32> := [
    0x00000000, 0x77073096, 0xee0e612c, 0x990951ba,
    0x076dc419, 0x706af48f, 0xe963a535, 0x9e6495a3]
  const ROW1: seq<bv32> := [
    0x0edb8832, 0x79dcb8a4, 0xe0d5e91e, 0x97d2d988,
    0x09b64c2b, 0x7eb17cbd, 0xe7b82d07, 0x90bf1d91]
  const ROW2: seq<bv32> := [
    0x1db71064, 0x6ab020f2, 0xf3b97148, 0x84be41de,
    0x1adad47d, 0x6ddde4eb, 0xf4d4b551, 0x83d385c7]
  const ROW3: seq<bv32> := [
    0x136c9856, 0x646ba8c0, 0xfd62f97a, 0x8a65c9ec,
    0x14015c4f, 0x63066cd9, 0xfa0f3d63, 0x8d080df5]
  const ROW4: seq<bv32> := [
    0x3b6e20c8, 0x4c69105e, 0xd56041e4, 0xa2677172,
    0x3c03e4d1, 0x4b04d447, 0xd20d85fd, 0xa50ab56b]
  const ROW5: seq<bv32> := [
    0x35b5a8fa, 0x42b2986c, 0xdbbbc9d6, 0xacbcf940,
    0x32d86ce3, 0x45df5c75, 0xdcd60dcf, 0xabd13d59]
  const ROW6: seq<bv32> := [
    0x26d930ac, 0x51de003a, 0xc8d75180, 0xbfd06116,
    0x21b4f4b5, 0x56b3c423, 0xcfba9599, 0xb8bda50f]
  const ROW7: seq<bv32> := [
    0x2802b89e, 0x5f058808, 0xc60cd9b2, 0xb10be924,
    0x2f6f7c87, 0x58684c11, 0xc1611dab, 0xb6662d3d]
  const ROW8: seq<bv32> := [
    0x76dc4190, 0x01db7106, 0x98d220bc, 0xefd5102a,
    0x71b18589, 0x06b6b51f, 0x9fbfe4a5, 0xe8b8d433]
  const ROW9: seq<bv32> := [
    0x7807c9a2, 0x0f00f934, 0x9609a88e, 0xe10e9818,
    0x7f6a0dbb, 0x086d3d2d, 0x91646c97, 0xe6635c01]
  const ROW10: seq<bv32> := [
    0x6b6b51f4, 0x1c6c6162, 0x856530d8, 0xf262004e,
    0x6c0695ed, 0x1b01a57b, 0x8208f4c1, 0xf50fc457]
  const ROW11: seq<bv32> := [
    0x65b0d9c6, 0x12b7e950, 0x8bbeb8ea, 0xfcb9887c,
    0x62dd1ddf, 0x15da2d49, 0x8cd37cf3, 0xfbd44c65]
  const ROW12: seq<bv32> := [
    0x4db26158, 0x3ab551ce, 0xa3bc0074, 0xd4bb30e2,
    0x4adfa541, 0x3dd895d7, 0xa4d1c46d, 0xd3d6f4fb]
  const ROW13: seq<bv32> := [
    0x4369e96a, 0x346ed9fc, 0xad678846, 0xda60b8d0,
    0x44042d73, 0x33031de5, 0xaa0a4c5f, 0xdd0d7cc9]
  const ROW14: seq<bv32> := [
    0x5005713c, 0x270241aa, 0xbe0b1010, 0xc90c2086,
    0x5768b525, 0x206f85b3, 0xb966d409, 0xce61e49f]
  const ROW15: seq<bv32> := [
    0x5edef90e, 0x29d9c998, 0xb0d09822, 0xc7d7a8b4,
    0x59b33d17, 0x2eb40d81, 0xb7bd5c3b, 0xc0ba6cad]
  const ROW16: seq<bv32> := [
    0xedb88320, 0x9abfb3b6, 0x03b6e20c, 0x74b1d29a,
    0xead54739, 0x9dd277af, 0x04db2615, 0x73dc1683]
  const ROW17: seq<bv32> := [
    0xe3630b12, 0x94643b84, 0x0d6d6a3e, 0x7a6a5aa8,
    0xe40ecf0b, 0x9309ff9d, 0x0a00ae27, 0x7d079eb1]
  const ROW18: seq<bv32> := [
    0xf00f9344, 0x8708a3d2, 0x1e01f268, 0x6906c2fe,
    0xf762575d, 0x806567cb, 0x196c3671, 0x6e6b06e7]
  const ROW19: seq<bv32> := [
    0xfed41b76, 0x89d32be0, 0x10da7a5a, 0x67dd4acc,
    0xf9b9df6f, 0x8ebeeff9, 0x17b7be43, 0x60b08ed5]
  const ROW20: seq<bv32> := [
    0xd6d6a3e8, 0xa1d1937e, 0x38d8c2c4, 0x4fdff252,
    0xd1bb67f1, 0xa6bc5767, 0x3fb506dd, 0x48b2364b]
  const ROW21: seq<bv32> := [
    0xd80d2bda, 0xaf0a1b4c, 0x36034af6, 0x41047a60,
    0xdf60efc3, 0xa867df55, 0x316e8eef, 0x4669be79]
  const ROW22: seq<bv32> := [
    0xcb61b38c, 0xbc66831a, 0x256fd2a0, 0x5268e236,
    0xcc0c7795, 0xbb0b4703, 0x220216b9, 0x5505262f]
  const ROW23: seq<bv32> := [
    0xc5ba3bbe, 0xb2bd0b28, 0x2bb45a92, 0x5cb36a04,
    0xc2d7ffa7, 0xb5d0cf31, 0x2cd99e8b, 0x5bdeae1d]
  const ROW24: seq<bv32> := [
    0x9b64c2b0, 0xec63f226, 0x756aa39c, 0x026d930a,
    0x9c0906a9, 0xeb0e363f, 0x72076785, 0x05005713]
  const ROW25: seq<bv32> := [
    0x95bf4a82, 0xe2b87a14, 0x7bb12bae, 0x0cb61b38,
    0x92d28e9b, 0xe5d5be0d, 0x7cdcefb7, 0x0bdbdf21]
  const ROW26: seq<bv32> := [
    0x86d3d2d4, 0xf1d4e242, 0x68ddb3f8, 0x1fda836e,
    0x81be16cd, 0xf6b9265b, 0x6fb077e1, 0x18b74777]
  const ROW27: seq<bv32> := [
    0x88085ae6, 0xff0f6a70, 0x66063bca, 0x11010b5c,
    0x8f659eff, 0xf862ae69, 0x616bffd3, 0x166ccf45]
  const ROW28: seq<bv32> := [
    0xa00ae278, 0xd70dd2ee, 0x4e048354, 0x3903b3c2,
    0xa7672661, 0xd06016f7, 0x4969474d, 0x3e6e77db]
  const ROW29: seq<bv32> := [
    0xaed16a4a, 0xd9d65adc, 0x40df0b66, 0x37d83bf0,
    0xa9bcae53, 0xdebb9ec5, 0x47b2cf7f, 0x30b5ffe9]
  const ROW30: seq<bv32> := [
    0xbdbdf21c, 0xcabac28a, 0x53b39330, 0x24b4a3a6,
    0xbad03605, 0xcdd70693, 0x54de5729, 0x23d967bf]
  const ROW31: seq<bv32> := [
    0xb3667a2e, 0xc4614ab8, 0x5d681b02, 0x2a6f2b94,
    0xb40bbe37, 0xc30c8ea1, 0x5a05df1b, 0x2d02ef8d]

  function Rows0(k: bv8): seq<bv32> {
    match k
    case 0 => ROW0
    case 1 => ROW1
    case 2 => ROW2
    case 3 => ROW3
    case 4 => ROW4
    case 5 => ROW5
    case 6 => ROW6
    case _ => ROW7
  }

  function Rows1(k: bv8): seq<bv32> {
    match k
    case 8 => ROW8
    case 9 => ROW9
    case 10 => ROW10
    case 11 => ROW11
    case 12 => ROW12
    case 13 => ROW13
    case 14 => ROW14
    case _ => ROW15
  }

  function Rows2(k: bv8): seq<bv32> {
    match k
    case 16 => ROW16
    case 17 => ROW17
    case 18 => ROW18
    case 19 => ROW19
    case 20 => ROW20
    case 21 => ROW21
    case 22 => ROW22
    case _ => ROW23
  }

  function Rows3(k: bv8): seq<bv32> {
    match k
    case 24 => ROW24
    case 25 => ROW25
    case 26 => ROW26
    case 27 => ROW27
    case 28 => ROW28
    case 29 => ROW29
    case 30 => ROW30
    case _ => ROW31
  }

  function Row(k: bv8): seq<bv32>
    requires k < 32
  {
    if k < 8 then Rows0(k) else if k < 16 then Rows1(k) else if k < 24 then Rows2(k) else Rows3(k)
  }

  /** The byte with high five bits `k` and low three bits `j`. */
  function Join(k: bv8, j: bv8): bv8 { (k << 3) | j }

  function Eight(b: bv8): bv32 { Shift8(b as bv32) }

  predicate RowRight(row: seq<bv32>, k: bv8) {
    && |row| == 8
    && row[0] == Eight(Join(k, 0)) && row[1] == Eight(Join(k, 1))
    && row[2] == Eight(Join(k, 2)) && row[3] == Eight(Join(k, 3))
    && row[4] == Eight(Join(k, 4)) && row[5] == Eight(Join(k, 5))
    && row[6] == Eight(Join(k, 6)) && row[7] == Eight(Join(k, 7))
  }

  lemma Row0Right() ensures RowRight(ROW0, 0) {}
  lemma Row1Right() ensures RowRight(ROW1, 1) {}
  lemma Row2Right() ensures RowRight(ROW2, 2) {}
  lemma Row3Right() ensures RowRight(ROW3, 3) {}
  lemma Row4Right() ensures RowRight(ROW4, 4) {}
  lemma Row5Right() ensures RowRight(ROW5, 5) {}
  lemma Row6Right() ensures RowRight(ROW6, 6) {}
  lemma Row7Right() ensures RowRight(ROW7, 7) {}
  lemma Row8Right() ensures RowRight(ROW8, 8) {}
  lemma Row9Right() ensures RowRight(ROW9, 9) {}
  lemma Row10Right() ensures RowRight(ROW10, 10) {}
  lemma Row11Right() ensures RowRight(ROW11, 11) {}
  lemma Row12Right() ensures RowRight(ROW12, 12) {}
  lemma Row13Right() ensures RowRight(ROW13, 13) {}
  lemma Row14Right() ensures RowRight(ROW14, 14) {}
  lemma Row15Right() ensures RowRight(ROW15, 15) {}
  lemma Row16Right() ensures RowRight(ROW16, 16) {}
  lemma Row17Right() ensures RowRight(ROW17, 17) {}
  lemma Row18Right() ensures RowRight(ROW18, 18) {}
  lemma Row19Right() ensures RowRight(ROW19, 19) {}
  lemma Row20Right() ensures RowRight(ROW20, 20) {}
  lemma Row21Right() ensures RowRight(ROW21, 21) {}
  lemma Row22Right() ensures RowRight(ROW22, 22) {}
  lemma Row23Right() ensures RowRight(ROW23, 23) {}
  lemma Row24Right() ensures RowRight(ROW24, 24) {}
  lemma Row25Right() ensures RowRight(ROW25, 25) {}
  lemma Row26Right() ensures RowRight(ROW26, 26) {}
  lemma Row27Right() ensures RowRight(ROW27, 27) {}
  lemma Row28Right() ensures RowRight(ROW28, 28) {}
  lemma Row29Right() ensures RowRight(ROW29, 29) {}
  lemma Row30Right() ensures RowRight(ROW30, 30) {}
  lemma Row31Right() ensures RowRight(ROW31, 31) {}
  /** The table word for a byte: row and column are the byte's high five and low three bits. */
  function Lookup(b: bv8): bv32
  {
    Row(b >> 3)[(b & 7) as int]
  }

  lemma Rows0Right(k: bv8)
    requires 0 <= k < 8
    ensures |Rows0(k)| == 8 && RowRight(Rows0(k), k)
  {
    hide RowRight;
    match k {
      case 0 => Row0Right();
      case 1 => Row1Right();
      case 2 => Row2Right();
      case 3 => Row3Right();
      case 4 => Row4Right();
      case 5 => Row5Right();
      case 6 => Row6Right();
      case 7 => Row7Right();
      case _ => assert false;
    }
  }

  lemma Rows1Right(k: bv8)
    requires 8 <= k < 16
    ensures |Rows1(k)| == 8 && RowRight(Rows1(k), k)
  {
    hide RowRight;
    match k {
      case 8 => Row8Right();
      case 9 => Row9Right();
      case 10 => Row10Right();
      case 11 => Row11Right();
      case 12 => Row12Right();
      case 13 => Row13Right();
      case 14 => Row14Right();
      case 15 => Row15Right();
      case _ => assert false;
    }
  }

  lemma Rows2Right(k: bv8)
    requires 16 <= k < 24
    ensures |Rows2(k)| == 8 && RowRight(Rows2(k), k)
  {
    hide RowRight;
    match k {
      case 16 => Row16Right();
      case 17 => Row17Right();
      case 18 => Row18Right();
      case 19 => Row19Right();
      case 20 => Row20Right();
      case 21 => Row21Right();
      case 22 => Row22Right();
      case 23 => Row23Right();
      case _ => assert false;
    }
  }

  lemma Rows3Right(k: bv8)
    requires 24 <= k < 32
    ensures |Rows3(k)| == 8 && RowRight(Rows3(k), k)
  {
    hide RowRight;
    match k {
      case 24 => Row24Right();
      case 25 => Row25Right();
      case 26 => Row26Right();
      case 27 => Row27Right();
      case 28 => Row28Right();
      case 29 => Row29Right();
      case 30 => Row30Right();
      case 31 => Row31Right();
      case _ => assert false;
    }
  }

  lemma RowOf(k: bv8)
    requires k < 32
    ensures |Row(k)| == 8 && RowRight(Row(k), k)
  {
    hide RowRight, Rows0, Rows1, Rows2, Rows3;
    if k < 8 { Rows0Right(k); } else if k < 16 { Rows1Right(k); }
    else if k < 24 { Rows2Right(k); } else { Rows3Right(k); }
  }

  lemma InRow(row: seq<bv32>, k: bv8, j: bv8)
    requires RowRight(row, k) && j < 8
    ensures 0 <= j as int < |row| && row[j as int] == Eight(Join(k, j))
  {
    hide Eight, Join;
    match j {
      case 0 =>
      case 1 =>
      case 2 =>
      case 3 =>
      case 4 =>
      case 5 =>
      case 6 =>
      case 7 =>
      case _ => assert false;
    }
  }

  /** Every word of the table is its index after eight register steps. */
  lemma LookupRight(b: bv8)
    ensures Lookup(b) == Eight(b)
  {
    hide Eight, Row, RowRight, Join;
    RowOf(b >> 3);
    InRow(Row(b >> 3), b >> 3, b & 7);
    Split(b);
  }

  lemma Split(b: bv8)
    ensures Join(b >> 3, b & 7) == b
    ensures (b >> 3) < 32 && (b & 7) < 8
  {
  }
}
