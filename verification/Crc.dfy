/** The table-driven CRC-32 of the boot loader, its bit-by-bit meaning, and what it detects. */
module Crc {
  import opened CrcTable

  // ----- exclusive or as an algebra

  function X(a: bv32, b: bv32): bv32 { a ^ b }

  lemma XAssoc(a: bv32, b: bv32, c: bv32)
    ensures X(X(a, b), c) == X(a, X(b, c))
  {
  }

  lemma XCancel(a: bv32, b: bv32, c: bv32)
    ensures X(a, c) == X(b, c) ==> a == b
    ensures X(c, a) == X(c, b) ==> a == b
  {
  }

  lemma XComm(a: bv32, b: bv32)
    ensures X(a, b) == X(b, a)
  {
  }

  lemma XSwap(p: bv32, q: bv32, m: bv32, n: bv32)
    ensures X(X(p, q), X(m, n)) == X(X(p, m), X(q, n))
  {
    hide X;
    XAssoc(p, q, X(m, n)); XAssoc(q, m, n); XComm(q, m); XAssoc(m, q, n); XAssoc(p, m, X(q, n));
  }

  // ----- the register is linear and reversible

  lemma HalfX(a: bv32, b: bv32)
    ensures Half(X(a, b)) == X(Half(a), Half(b))
  {
  }

  lemma FeedbackX(a: bv32, b: bv32)
    ensures Feedback(X(a, b)) == X(Feedback(a), Feedback(b))
  {
  }

  lemma Shift1IsX(c: bv32)
    ensures Shift1(c) == X(Half(c), Feedback(c))
  {
  }

  lemma Shift1Linear(a: bv32, b: bv32)
    ensures Shift1(X(a, b)) == X(Shift1(a), Shift1(b))
  {
    hide X, Half, Feedback, Shift1;
    Shift1IsX(a); Shift1IsX(b); Shift1IsX(X(a, b));
    HalfX(a, b); FeedbackX(a, b);
    XSwap(Half(a), Half(b), Feedback(a), Feedback(b));
  }

  lemma Shift1Injective(a: bv32, b: bv32)
    requires Shift1(a) == Shift1(b)
    ensures a == b
  {
  }

  function Shift(c: bv32, n: nat): bv32
    decreases n
  {
    if n == 0 then c else Shift(Shift1(c), n - 1)
  }

  lemma {:induction false} ShiftLinear(a: bv32, b: bv32, n: nat)
    ensures Shift(X(a, b), n) == X(Shift(a, n), Shift(b, n))
    decreases n
  {
    hide X, Shift1;
    if n > 0 {
      Shift1Linear(a, b);
      ShiftLinear(Shift1(a), Shift1(b), n - 1);
    }
  }

  lemma {:induction false} ShiftInjective(a: bv32, b: bv32, n: nat)
    requires Shift(a, n) == Shift(b, n)
    ensures a == b
    decreases n
  {
    hide Shift1;
    if n > 0 {
      ShiftInjective(Shift1(a), Shift1(b), n - 1);
      Shift1Injective(a, b);
    }
  }

  lemma {:induction false} ShiftAdd(c: bv32, m: nat, n: nat)
    ensures Shift(c, m + n) == Shift(Shift(c, m), n)
    decreases m
  {
    hide Shift1;
    if m > 0 { ShiftAdd(Shift1(c), m - 1, n); }
  }

  lemma Shift8Is(c: bv32)
    ensures Shift8(c) == Shift(c, 8)
  {
    hide Shift1;
    assert Shift(Shift1(Shift1(Shift1(Shift1(c)))), 4)
        == Shift(Shift1(Shift1(Shift1(Shift1(Shift1(Shift1(c)))))), 2);
    assert Shift(Shift1(Shift1(Shift1(Shift1(Shift1(Shift1(c)))))), 2) == Shift8(c);
    assert Shift(Shift1(Shift1(c)), 6) == Shift(Shift1(Shift1(Shift1(Shift1(c)))), 4);
    assert Shift(c, 8) == Shift(Shift1(Shift1(c)), 6);
  }

  // ----- bytes

  function Low(x: bv32): bv8 { (x & 0xFF) as bv8 }
  function High(x: bv32): bv32 { x & 0xFFFF_FF00 }
  function Down8(x: bv32): bv32 { x >> 8 }
  function Up8(x: bv32): bv32 { x << 8 }
  function Wide(b: bv8): bv32 { b as bv32 }

  lemma SplitLow(x: bv32)
    ensures x == X(Wide(Low(x)), High(x))
  {
  }

  lemma HighDown(x: bv32)
    ensures Down8(High(x)) == Down8(x)
  {
  }

  lemma ByteAbove(c: bv32, b: bv8)
    ensures Down8(X(c, Wide(b))) == Down8(c)
  {
  }

  /** Eight steps without feedback drop the low byte. */
  lemma EightHigh(x: bv32)
    ensures Shift8(High(x)) == Down8(High(x))
  {
    var h := High(x);
    assert h & 1 == 0 && (h >> 1) & 1 == 0 && (h >> 2) & 1 == 0 && (h >> 3) & 1 == 0;
    assert (h >> 4) & 1 == 0 && (h >> 5) & 1 == 0 && (h >> 6) & 1 == 0 && (h >> 7) & 1 == 0;
  }

  /** One table lookup does eight register steps on the next byte. */
  lemma TableStep(crc: bv32, b: bv8)
    ensures X(Lookup(Low(X(crc, Wide(b)))), Down8(crc)) == Shift(X(crc, Wide(b)), 8)
  {
    hide X, Lookup, Low, High, Down8, Shift8, Shift;
    var x := X(crc, Wide(b));
    LookupRight(Low(x));
    assert Eight(Low(x)) == Shift8(Wide(Low(x)));
    hide Wide, Eight;
    SplitLow(x);
    EightHigh(x); HighDown(x); ByteAbove(crc, b);
    ShiftLinear(Wide(Low(x)), High(x), 8);
    Shift8Is(x); Shift8Is(Wide(Low(x))); Shift8Is(High(x));
  }

  // ----- the checksum bit by bit

  /** One message bit enters the register. */
  function BitStep(c: bv32, bit: bool): bv32 {
    Shift1(X(c, if bit then 1 else 0))
  }

  function Serial(c: bv32, bits: seq<bool>): bv32
    decreases |bits|
  {
    if bits == [] then c else Serial(BitStep(c, bits[0]), bits[1..])
  }

  /** The low `n` bits of `w`, least significant first. */
  function BitsOf(w: bv32, n: nat): seq<bool>
    decreases n
  {
    if n == 0 then [] else [w & 1 == 1] + BitsOf(Half(w), n - 1)
  }

  /** A message is the bits of its bytes in order. */
  function Bits(bytes: seq<bv8>): seq<bool> {
    if bytes == [] then [] else BitsOf(Wide(bytes[0]), 8) + Bits(bytes[1..])
  }

  ghost predicate Fits(w: bv32, n: nat)
    decreases n
  {
    if n == 0 then w == 0 else Fits(Half(w), n - 1)
  }

  function LowBit(w: bv32): bv32 { if w & 1 == 1 then 1 else 0 }
  function Even(w: bv32): bv32 { w & 0xFFFF_FFFE }

  lemma SplitBit(w: bv32)
    ensures w == X(LowBit(w), Even(w)) && Half(Even(w)) == Half(w)
  {
  }

  lemma EvenNoFeedback(w: bv32)
    ensures Shift1(Even(w)) == Half(Even(w))
  {}

  /** Feeding the bits of a word one at a time is mixing the word in and stepping. */
  lemma {:induction false} SerialWord(c: bv32, w: bv32, n: nat)
    requires Fits(w, n)
    ensures Serial(c, BitsOf(w, n)) == Shift(X(c, w), n)
    decreases n
  {
    if n > 0 {
      FirstBit(c, w);
      hide X, Half, Shift1, BitStep;
      SerialWord(BitStep(c, w & 1 == 1), Half(w), n - 1);
      var bits := BitsOf(w, n);
      assert bits[1..] == BitsOf(Half(w), n - 1);
    }
  }

  lemma FirstBit(c: bv32, w: bv32)
    ensures Shift1(X(c, w)) == X(BitStep(c, w & 1 == 1), Half(w))
  {
    assert BitStep(c, w & 1 == 1) == Shift1(X(c, LowBit(w)));
    hide X, Half, Shift1, LowBit, Even, BitStep;
    SplitBit(w);
    EvenNoFeedback(w);
    XAssoc(c, LowBit(w), Even(w));
    Shift1Linear(X(c, LowBit(w)), Even(w));
  }

  lemma WideFits(b: bv8)
    ensures Fits(Wide(b), 8)
  {
    var w := Wide(b);
    var w4 := Half(Half(Half(Half(w))));
    assert Half(Half(Half(Half(w4)))) == 0;
    assert Fits(w4, 4);
  }

  lemma {:induction false} SerialAppend(c: bv32, s: seq<bool>, t: seq<bool>)
    ensures Serial(c, s + t) == Serial(Serial(c, s), t)
    decreases |s|
  {
    hide BitStep;
    if s == [] {
      assert s + t == t;
    } else {
      assert (s + t)[1..] == s[1..] + t;
      SerialAppend(BitStep(c, s[0]), s[1..], t);
    }
  }

  /** The register after the bytes of a buffer, eight steps a byte. */
  function Run(c: bv32, bytes: seq<bv8>): bv32
    decreases |bytes|
  {
    if bytes == [] then c else Run(Shift(X(c, Wide(bytes[0])), 8), bytes[1..])
  }

  lemma {:induction false} RunIsSerial(c: bv32, bytes: seq<bv8>)
    ensures Run(c, bytes) == Serial(c, Bits(bytes))
    decreases |bytes|
  {
    hide Shift, X, Wide, BitsOf;
    if bytes != [] {
      var w := Wide(bytes[0]);
      WideFits(bytes[0]);
      SerialWord(c, w, 8);
      SerialAppend(c, BitsOf(w, 8), Bits(bytes[1..]));
      RunIsSerial(Shift(X(c, w), 8), bytes[1..]);
    }
  }

  lemma {:induction false} RunAppend(c: bv32, s: seq<bv8>, t: seq<bv8>)
    ensures Run(c, s + t) == Run(Run(c, s), t)
    decreases |s|
  {
    hide Shift, X, Wide;
    if s == [] {
      assert s + t == t;
    } else {
      assert (s + t)[1..] == s[1..] + t;
      RunAppend(Shift(X(c, Wide(s[0])), 8), s[1..], t);
    }
  }

  // ----- the checksum

  function Not(c: bv32): bv32 { X(c, 0xFFFF_FFFF) }

  lemma NotNot(c: bv32)
    ensures Not(Not(c)) == c
  {
  }

  /** The checksum of section 8 of RFC 1952 continued from `crc`, defined on message bits. */
  ghost function Update(crc: bv32, bytes: seq<bv8>): bv32 {
    Not(Serial(Not(crc), Bits(bytes)))
  }

  /** The table-driven loop computes the bit-by-bit checksum. */
  method Crc32Inc(buf: array<bv8>, size0: nat, crc0: bv32) returns (crc: bv32)
    requires size0 <= buf.Length
    ensures crc == Update(crc0, buf[..size0])
  {
    hide Lookup, X, Wide, Low, Down8, Shift, Serial, Bits, Not;
    crc := Not(crc0);
    var p, size := 0, size0;
    assert buf[..0] == [];
    while size > 0
      invariant p + size == size0
      invariant crc == Run(Not(crc0), buf[..p])
    {
      TableStep(crc, buf[p]);
      RunAppend(Not(crc0), buf[..p], [buf[p]]);
      assert buf[..p + 1] == buf[..p] + [buf[p]];
      crc := X(Lookup(Low(X(crc, Wide(buf[p])))), Down8(crc));
      p := p + 1;
      size := size - 1;
    }
    RunIsSerial(Not(crc0), buf[..p]);
    return Not(crc);
  }

  method Crc32(buf: array<bv8>) returns (crc: bv32)
    ensures crc == Update(0, buf[..])
  {
    assert buf[..buf.Length] == buf[..];
    crc := Crc32Inc(buf, buf.Length, 0);
  }

  /** Checksums compose: continuing over a second buffer is checksumming the concatenation. */
  lemma UpdateAppend(crc: bv32, s: seq<bv8>, t: seq<bv8>)
    ensures Update(Update(crc, s), t) == Update(crc, s + t)
  {
    hide Serial, Bits, Not, Run;
    RunIsSerial(Not(crc), s);
    RunIsSerial(Not(crc), s + t);
    RunIsSerial(Run(Not(crc), s), t);
    RunAppend(Not(crc), s, t);
    NotNot(Run(Not(crc), s));
  }

  // ----- detection

  lemma {:induction false} RunInjective(c: bv32, d: bv32, bytes: seq<bv8>)
    requires Run(c, bytes) == Run(d, bytes)
    ensures c == d
    decreases |bytes|
  {
    hide Shift, X, Wide;
    if bytes != [] {
      var w := Wide(bytes[0]);
      RunInjective(Shift(X(c, w), 8), Shift(X(d, w), 8), bytes[1..]);
      ShiftInjective(X(c, w), X(d, w), 8);
      XCancel(c, d, w);
    }
  }

  /** Up to four bytes as one little-endian word. */
  function Word(bytes: seq<bv8>): bv32 {
    if bytes == [] then 0 else X(Wide(bytes[0]), Up8(Word(bytes[1..])))
  }

  /** `w` has no bits from byte `k` up. */
  ghost predicate Short(w: bv32, k: nat)
    requires k <= 4
  {
    match k
    case 0 => w == 0
    case 1 => w & 0xFFFF_FF00 == 0
    case 2 => w & 0xFFFF_0000 == 0
    case 3 => w & 0xFF00_0000 == 0
    case 4 => true
  }

  lemma UpIsHigh(w: bv32)
    ensures High(Up8(w)) == Up8(w)
  {
  }

  lemma UpDown(w: bv32)
    requires w & 0xFF00_0000 == 0
    ensures Down8(Up8(w)) == w
  {
  }

  lemma OneByteIsThree(w: bv32)
    requires w & 0xFFFF_FF00 == 0
    ensures w & 0xFF00_0000 == 0
  {
  }

  lemma TwoBytesAreThree(w: bv32)
    requires w & 0xFFFF_0000 == 0
    ensures w & 0xFF00_0000 == 0
  {
  }

  lemma UpOne(b: bv8)
    ensures X(Wide(b), Up8(0)) & 0xFFFF_FF00 == 0
  {
  }

  lemma UpTwo(b: bv8, w: bv32)
    requires w & 0xFFFF_FF00 == 0
    ensures X(Wide(b), Up8(w)) & 0xFFFF_0000 == 0
  {
  }

  lemma UpThree(b: bv8, w: bv32)
    requires w & 0xFFFF_0000 == 0
    ensures X(Wide(b), Up8(w)) & 0xFF00_0000 == 0
  {
  }

  lemma ShortUp(b: bv8, w: bv32, k: nat)
    requires k < 4 && Short(w, k)
    ensures Short(X(Wide(b), Up8(w)), k + 1)
    ensures Down8(Up8(w)) == w && High(Up8(w)) == Up8(w)
  {
    hide X, Wide, Up8, Down8, High;
    UpIsHigh(w);
    match k {
      case 0 => UpOne(b);
      case 1 => OneByteIsThree(w); UpTwo(b, w);
      case 2 => TwoBytesAreThree(w); UpThree(b, w);
      case 3 =>
    }
    UpDown(w);
  }

  lemma {:induction false} WordShort(bytes: seq<bv8>)
    requires |bytes| <= 4
    ensures Short(Word(bytes), |bytes|)
  {
    hide X, Wide, Up8;
    if bytes != [] {
      WordShort(bytes[1..]);
      ShortUp(bytes[0], Word(bytes[1..]), |bytes| - 1);
    }
  }

  lemma JoinInjective(a: bv8, b: bv8, v: bv32, w: bv32)
    requires X(Wide(a), Up8(v)) == X(Wide(b), Up8(w))
    requires Down8(Up8(v)) == v && Down8(Up8(w)) == w
    ensures a == b && v == w
  {
  }

  lemma {:induction false} WordInjective(s: seq<bv8>, t: seq<bv8>)
    requires |s| == |t| <= 4 && Word(s) == Word(t)
    ensures s == t
  {
    hide X, Wide, Up8, Down8, Short;
    if s != [] {
      var v, w := Word(s[1..]), Word(t[1..]);
      WordShort(s[1..]); WordShort(t[1..]);
      ShortUp(s[0], v, |s| - 1); ShortUp(t[0], w, |s| - 1);
      JoinInjective(s[0], t[0], v, w);
      WordInjective(s[1..], t[1..]);
      assert s == [s[0]] + s[1..] && t == [t[0]] + t[1..];
    }
  }

  /** Up to four bytes act on the register as one word. */
  lemma {:induction false} RunWord(c: bv32, bytes: seq<bv8>)
    requires |bytes| <= 4
    ensures Run(c, bytes) == Shift(X(c, Word(bytes)), 8 * |bytes|)
    decreases |bytes|
  {
    if bytes != [] {
      hide Shift, X, Wide, Up8, Down8, High, Short, Shift8;
      var b, rest := bytes[0], bytes[1..];
      var w := Word(rest);
      WordShort(rest);
      ShortUp(b, w, |rest|);
      RunWord(Shift(X(c, Wide(b)), 8), rest);
      XAssoc(c, Wide(b), Up8(w));
      ShiftLinear(X(c, Wide(b)), Up8(w), 8);
      EightHigh(Up8(w));
      Shift8Is(Up8(w));
      ShiftAdd(X(c, Word(bytes)), 8, 8 * |rest|);
    }
  }

  /** Two payloads of equal length that differ, but only within four consecutive bytes, never
      share a checksum. */
  lemma BurstDetected(p: seq<bv8>, q: seq<bv8>, i: nat)
    requires |p| == |q| && p != q
    requires forall j :: 0 <= j < |p| && !(i <= j < i + 4) ==> p[j] == q[j]
    ensures Update(0, p) != Update(0, q)
  {
    hide Shift, X, Wide, Word, Run, Serial, Bits, Not;
    var a := if i < |p| then i else |p|;
    var b := if i + 4 < |p| then i + 4 else |p|;
    assert p[..a] == q[..a] && p[b..] == q[b..];
    assert p == p[..a] + p[a..b] + p[b..] && q == q[..a] + q[a..b] + q[b..];
    var c := Run(Not(0), p[..a]);
    RunAppend(Not(0), p[..a], p[a..b]); RunAppend(Not(0), p[..a] + p[a..b], p[b..]);
    RunAppend(Not(0), q[..a], q[a..b]); RunAppend(Not(0), q[..a] + q[a..b], q[b..]);
    RunIsSerial(Not(0), p); RunIsSerial(Not(0), q);
    if Update(0, p) == Update(0, q) {
      NotNot(Run(Not(0), p)); NotNot(Run(Not(0), q));
      RunInjective(Run(c, p[a..b]), Run(c, q[a..b]), p[b..]);
      RunWord(c, p[a..b]); RunWord(c, q[a..b]);
      ShiftInjective(X(c, Word(p[a..b])), X(c, Word(q[a..b])), 8 * (b - a));
      XCancel(Word(p[a..b]), Word(q[a..b]), c);
      WordInjective(p[a..b], q[a..b]);
      assert false;
    }
  }

  // ----- the residue

  /** The bytes of a word, least significant first, as a checksum is appended to its message. */
  function WordBytes(c: bv32): seq<bv8> {
    [Low(c), Low(Down8(c)), Low(Down8(Down8(c))), Low(Down8(Down8(Down8(c))))]
  }

  lemma Joined(c: bv32)
    ensures X(Wide(Low(c)), Up8(X(Wide(Low(Down8(c))), Up8(X(Wide(Low(Down8(Down8(c)))),
              Up8(X(Wide(Low(Down8(Down8(Down8(c))))), Up8(0)))))))) == c
  {
  }

  lemma WordOfBytes(c: bv32)
    ensures Word(WordBytes(c)) == c
  {
    var b := WordBytes(c);
    Joined(c);
    hide X, Wide, Up8, Low, Down8;
    assert b[1..][0] == b[1] && b[1..][1..][0] == b[2] && b[1..][1..][1..][0] == b[3] && b[1..][1..][1..][1..] == [];
    assert Word(b[1..][1..][1..]) == X(Wide(b[3]), Up8(0));
    assert Word(b[1..][1..]) == X(Wide(b[2]), Up8(Word(b[1..][1..][1..])));
    assert Word(b[1..]) == X(Wide(b[1]), Up8(Word(b[1..][1..])));
  }

  lemma OnesShifted()
    ensures Shift(0xFFFF_FFFF, 32) == 0xDEBB_20E3
  {
    assert Shift8(0xFFFF_FFFF) == 0x2DFD_1072 && Shift8(0x2DFD_1072) == 0xBE26_ED00;
    assert Shift8(0xBE26_ED00) == 0x00BE_26ED && Shift8(0x00BE_26ED) == 0xDEBB_20E3;
    hide Shift, Shift8;
    Shift8Is(0xFFFF_FFFF);
    Shift8Is(0x2DFD_1072);
    Shift8Is(0xBE26_ED00);
    Shift8Is(0x00BE_26ED);
    ShiftAdd(0xFFFF_FFFF, 8, 8);
    ShiftAdd(0xFFFF_FFFF, 16, 8);
    ShiftAdd(0xFFFF_FFFF, 24, 8);
  }

  lemma XNot(c: bv32)
    ensures X(c, Not(c)) == 0xFFFF_FFFF
  {
  }

  /** Appending its checksum to any message gives a message whose checksum is one fixed word. */
  lemma Residue(bytes: seq<bv8>)
    ensures Update(0, bytes + WordBytes(Update(0, bytes))) == 0x2144_DF1C
  {
    var c := Run(Not(0), bytes);
    var crc := Not(c);
    RunIsSerial(Not(0), bytes);
    RunIsSerial(Not(0), bytes + WordBytes(crc));
    RunAppend(Not(0), bytes, WordBytes(crc));
    RunWord(c, WordBytes(crc));
    WordOfBytes(crc);
    XNot(c);
    OnesShifted();
    NotOnes();
    hide X, Shift, Run, Serial, Bits, Word, Not, Low, Down8;
  }

  lemma NotOnes()
    ensures Not(0xDEBB_20E3) == 0x2144_DF1C
  {
  }
}
