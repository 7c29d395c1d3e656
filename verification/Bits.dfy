/** Powers of two and bitwise operators on unsigned machine words, as used by the
    kernel for masks, buddies and rounding.  Words are modelled as natural numbers,
    so the lemmas below tie each bit trick to the arithmetic it stands for. */
module Bits {

  function Pow2(n: nat): (p: nat)
    ensures 1 <= p
  {
    if n == 0 then 1 else 2 * Pow2(n - 1)
  }

  /** The largest power of two in a 64-bit word. */
  const MAX_POW2: nat := 0x8000_0000_0000_0000

  /** Bitwise `&`. */
  function And(a: nat, b: nat): nat {
    if a == 0 || b == 0 then 0
    else 2 * And(a / 2, b / 2) + (if a % 2 == 1 && b % 2 == 1 then 1 else 0)
  }

  /** Bitwise `^`. */
  function Xor(a: nat, b: nat): nat {
    if a == 0 then b
    else if b == 0 then a
    else 2 * Xor(a / 2, b / 2) + (if a % 2 != b % 2 then 1 else 0)
  }

  lemma {:induction false} Pow2Monotone(m: nat, n: nat)
    requires m <= n
    ensures Pow2(m) <= Pow2(n)
    ensures m < n ==> 2 * Pow2(m) <= Pow2(n)
  {
    if m < n { Pow2Monotone(m, n - 1); }
  }

  lemma Associate(p: nat, q: nat)
    ensures 2 * (p * q) == (2 * p) * q
  {
  }

  lemma {:induction false} Pow2Add(m: nat, n: nat)
    ensures Pow2(m + n) == Pow2(m) * Pow2(n)
  {
    if m > 0 {
      Pow2Add(m - 1, n);
      Associate(Pow2(m - 1), Pow2(n));
    }
  }

  lemma {:induction false} MulBound(d: int, e: int)
    requires d > 0
    ensures e >= 1 ==> d * e >= d
    ensures e <= -1 ==> d * e <= -d
  {
    if e >= 1 {
      assert d * e == d * (e - 1) + d;
    } else if e <= -1 {
      assert d * e == d * (e + 1) - d;
    }
  }

  lemma {:induction false} DivMulAdd(q: int, d: int, r: int)
    requires 0 <= r < d
    ensures (q * d + r) / d == q
    ensures (q * d + r) % d == r
  {
    var x := q * d + r;
    assert d * (x / d) + x % d == x;
    var e := x / d - q;
    assert d * e == d * (x / d) - q * d;
    MulBound(d, e);
  }

  /** Dividing by `2p` is halving and then dividing by `p`. */
  lemma {:induction false} HalveDivMod(h: nat, p: nat)
    requires p > 0
    ensures h / (2 * p) == (h / 2) / p
    ensures h % (2 * p) == 2 * ((h / 2) % p) + h % 2
  {
    var q, s := (h / 2) / p, (h / 2) % p;
    assert h / 2 == p * q + s;
    var d, r := 2 * p, 2 * s + h % 2;
    assert q * d == 2 * (p * q);
    assert h == q * d + r;
    DivMulAdd(q, d, r);
  }

  /** `h & (2^k - 1)` is `h` modulo `2^k`. */
  lemma {:induction false} AndMask(h: nat, k: nat)
    ensures And(h, Pow2(k) - 1) == h % Pow2(k)
  {
    if k > 0 && h > 0 {
      var p := Pow2(k - 1);
      AndMask(h / 2, k - 1);
      HalveDivMod(h, p);
      assert Pow2(k) == 2 * p;
      var m := 2 * p - 1;
      assert m / 2 == p - 1 && m % 2 == 1;
      assert And(h, m) == 2 * And(h / 2, m / 2) + h % 2;
    } else if h == 0 {
      DivMulAdd(0, Pow2(k), 0);
    }
  }

  ghost function FlipBit(r: nat, k: nat): int {
    if (r / Pow2(k)) % 2 == 0 then r + Pow2(k) else r - Pow2(k)
  }

  /** `r ^ 2^k` flips bit `k`: it adds `2^k` when the bit is clear and subtracts it when set. */
  lemma {:induction false} XorBit(r: nat, k: nat)
    ensures Xor(r, Pow2(k)) == FlipBit(r, k)
  {
    if r == 0 {
      DivMulAdd(0, Pow2(k), 0);
    } else if k == 0 {
      assert Xor(r / 2, 0) == r / 2;
      assert Xor(r, 1) == 2 * Xor(r / 2, 1 / 2) + (if r % 2 != 1 then 1 else 0);
    } else {
      var p := Pow2(k - 1);
      XorBit(r / 2, k - 1);
      HalveDivMod(r, p);
      assert (2 * p) / 2 == p && (2 * p) % 2 == 0;
      assert Xor(r, 2 * p) == 2 * Xor(r / 2, p) + r % 2;
    }
  }

  /** The exponent of the greatest power of two that is at most `x`. */
  function FloorLog(x: nat): (n: nat)
    ensures x > 0 ==> Pow2(n) <= x < Pow2(n + 1)
  {
    if x <= 1 then 0 else 1 + FloorLog(x / 2)
  }

  /** `log2ceil` in the source: despite its name, the floor of the base-two logarithm. */
  method Log2(x: nat) returns (n: nat)
    ensures x == 0 ==> n == 0
    ensures x > 0 ==> Pow2(n) <= x < Pow2(n + 1)
  {
    n := 0;
    var y: nat := x / 2;
    while y > 0
      invariant FloorLog(x) == if y == 0 then n else n + 1 + FloorLog(y)
      decreases y
    {
      y := y / 2;
      n := n + 1;
    }
  }

  /** On powers of two the floor is exact. */
  lemma {:induction false} LogOfPow2(n: nat, k: nat)
    requires Pow2(k) <= Pow2(n) < Pow2(k + 1)
    ensures k == n
  {
    if k < n { Pow2Monotone(k + 1, n); }
    if n < k { Pow2Monotone(n, k); }
  }

  /** The exponent of the least power of two that is at least `x`. */
  function CeilLog(x: nat): (n: nat)
    ensures x <= Pow2(n)
    ensures n > 0 ==> Pow2(n - 1) < x
    decreases x
  {
    if x <= 1 then 0 else
      var n := 1 + CeilLog((x + 1) / 2);
      assert n > 1 ==> Pow2(n - 1) == 2 * Pow2(n - 2) < x;
      n
  }

  lemma CeilLogLeast(x: nat, n: nat)
    ensures x <= Pow2(n) <==> CeilLog(x) <= n
  {
    var c := CeilLog(x);
    if c <= n {
      Pow2Monotone(c, n);
    } else {
      Pow2Monotone(n, c - 1);
    }
  }

  // ----- doubling in a 64-bit register

  const WORD: nat := 0x1_0000_0000_0000_0000

  lemma WordPowers()
    ensures Pow2(30) == 0x4000_0000 && Pow2(31) == 0x8000_0000 && Pow2(32) == 0x1_0000_0000
    ensures Pow2(63) == MAX_POW2 && Pow2(64) == WORD
  {
    assert Pow2(7) == 128 && Pow2(1) == 2;
    Pow2Add(7, 7);
    assert Pow2(14) == 16384;
    Pow2Add(14, 14);
    assert Pow2(28) == 0x1000_0000;
    Pow2Add(28, 1);
    Pow2Add(29, 1);
    Pow2Add(30, 1);
    Pow2Add(31, 1);
    Pow2Add(28, 28);
    assert Pow2(56) == 0x100_0000_0000_0000;
    Pow2Add(56, 7);
    Pow2Add(63, 1);
  }

  /** What `power` holds after `k` turns of the loop in `pow2ceil`. */
  function Register(k: nat): nat {
    if k == 0 then 1 else Twice(Register(k - 1))
  }

  function Twice(p: nat): nat {
    p * 2 % WORD
  }

  lemma TwiceIs(p: nat)
    ensures 2 * p < WORD ==> Twice(p) == p * 2
    ensures p == MAX_POW2 || p == 0 ==> Twice(p) == 0
  {
  }

  lemma {:induction false} RegisterIs(k: nat)
    ensures Register(k) == if k < 64 then Pow2(k) else 0
  {
    WordPowers();
    PowZero();
    hide Pow2, Twice;
    if k > 0 {
      RegisterIs(k - 1);
      PowNext(k - 1);
      TwiceIs(Register(k - 1));
      if k < 64 { Pow2Monotone(k, 63); }
    }
  }

  /** The loop of `pow2ceil` ends exactly on the arguments up to `2^63`. */
  lemma Pow2CeilEnds(x: nat)
    requires x < WORD
    ensures (exists k: nat :: Register(k) >= x) <==> x <= MAX_POW2
  {
    WordPowers();
    RegisterIs(63);
    forall k: nat ensures Register(k) <= MAX_POW2 {
      RegisterIs(k);
      if k < 64 { Pow2Monotone(k, 63); }
    }
  }

  /** One past that the register runs through all powers and then stays at zero. */
  lemma Pow2CeilSpins(k: nat)
    ensures Register(k) < 0x8000_0000_0000_0001
    ensures k >= 64 ==> Register(k) == 0
  {
    RegisterIs(k);
    WordPowers();
    if k < 64 { Pow2Monotone(k, 63); }
  }

  /** `pow2ceil` in the source: the least power of two at least `x`.  By `Pow2CeilEnds` its loop
      has no end on larger arguments. */
  method Pow2Ceil(x: nat) returns (power: nat)
    requires x <= MAX_POW2
    ensures power == Pow2(CeilLog(x))
  {
    hide CeilLog, Pow2, Twice;
    PowZero();
    WordPowers();
    power := 1;
    ghost var n := 0;
    while power < x
      invariant power == Pow2(n) && n <= CeilLog(x)
      decreases CeilLog(x) - n
    {
      CeilLogLeast(x, n);
      PowNext(n);
      TwiceIs(power);
      power := Twice(power);
      n := n + 1;
    }
    CeilLogLeast(x, n);
  }

  lemma PowZero()
    ensures Pow2(0) == 1
  {
  }

  lemma PowNext(n: nat)
    ensures Pow2(n + 1) == Pow2(n) * 2
  {
  }

  /** `log2ceil` gives the ceiling of the logarithm exactly on the powers of two. */
  lemma LogIsCeiling(x: nat, n: nat)
    requires Pow2(n) <= x < Pow2(n + 1)
    ensures n == CeilLog(x) <==> exists k: nat :: Pow2(k) == x
  {
    CeilLogLeast(x, n);
    if n > 0 && Pow2(n) == x { CeilLogLeast(x, n - 1); }
    if k: nat :| Pow2(k) == x {
      if k < n { Pow2Monotone(k, n); }
      if k > n { Pow2Monotone(n + 1, k); }
    }
  }

  /** Three is the first argument on which it falls short. */
  lemma LogOfThree()
    ensures Pow2(1) <= 3 < Pow2(2) && CeilLog(3) == 2
  {
    assert CeilLog(2) == 1;
  }

  // ----- shifts of a 32-bit int, widened to 64 bits

  /** The bits of `1 << c` in a 32-bit int; past 31 the language leaves them open. */
  function Shift32(c: nat, rest: nat): nat {
    if c < 32 then Pow2(c) else rest
  }

  /** A 32-bit int assigned to an unsigned 64-bit word. */
  function Widen(w: nat): nat {
    if w < 0x8000_0000 then w else w + 0xffff_ffff_0000_0000
  }

  /** The shift gives the power of two exactly below 31. */
  lemma ShiftExact(c: nat, rest: nat)
    requires rest < 0x1_0000_0000
    ensures Widen(Shift32(c, rest)) == Pow2(c) <==> c < 31
  {
    WordPowers();
    if c < 31 {
      Pow2Monotone(c, 30);
    } else if 32 <= c <= 63 {
      Pow2Monotone(32, c);
      Pow2Monotone(c, 63);
    } else if c > 63 {
      Pow2Monotone(64, c);
    }
  }

  /** At 31 half of it, where the upper half of a split block should start, lies past the block. */
  lemma ShiftTooFar(rest: nat)
    ensures Widen(Shift32(31, rest)) / 2 > Pow2(31)
  {
    WordPowers();
  }
}
