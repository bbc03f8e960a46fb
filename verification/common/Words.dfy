/** 32-bit words as numbers, with C's bit operators on them. */
module Words {

  const WORD: int := 0x1_0000_0000

  type u32 = x: int | 0 <= x < 0x1_0000_0000

  function Pow2(k: nat): (p: nat)
    ensures p >= 1
  {
    if k == 0 then 1 else 2 * Pow2(k - 1)
  }

  predicate HasBit(w: nat, k: nat)
  {
    if k == 0 then w % 2 == 1 else HasBit(w / 2, k - 1)
  }

  /** Bitwise and. */
  function And(v: nat, w: nat): (r: nat)
    ensures r <= v && r <= w
  {
    if v == 0 || w == 0 then 0 else (if v % 2 == 1 && w % 2 == 1 then 1 else 0) + 2 * And(v / 2, w / 2)
  }

  /** Bitwise or. */
  function Or(v: nat, w: nat): (r: nat)
    ensures r >= v && r >= w
  {
    if v == 0 then w else if w == 0 then v
    else (if v % 2 == 1 || w % 2 == 1 then 1 else 0) + 2 * Or(v / 2, w / 2)
  }

  /** Bitwise complement. */
  function Not(w: u32): u32
  {
    0xFFFF_FFFF - w
  }

  /** Two's complement negation. */
  function Neg(w: u32): u32
  {
    if w == 0 then 0 else WORD - w
  }

  /** w >> s */
  function Shr(w: nat, s: nat): nat
  {
    if s == 0 then w else Shr(w / 2, s - 1)
  }

  /** w << s */
  function Shl(w: nat, s: nat): nat
  {
    if s == 0 then w else 2 * Shl(w, s - 1)
  }

  // ----- bit by bit

  lemma {:induction false} AndBits(v: nat, w: nat, k: nat)
    ensures HasBit(And(v, w), k) <==> HasBit(v, k) && HasBit(w, k)
  {
    if v == 0 || w == 0 {
      ZeroHasNoBit(k);
    } else {
      assert And(v, w) / 2 == And(v / 2, w / 2);
      if k > 0 { AndBits(v / 2, w / 2, k - 1); }
    }
  }

  lemma {:induction false} OrBits(v: nat, w: nat, k: nat)
    ensures HasBit(Or(v, w), k) <==> HasBit(v, k) || HasBit(w, k)
  {
    if v == 0 || w == 0 {
      ZeroHasNoBit(k);
    } else {
      assert Or(v, w) / 2 == Or(v / 2, w / 2);
      if k > 0 { OrBits(v / 2, w / 2, k - 1); }
    }
  }

  lemma {:induction false} ZeroHasNoBit(k: nat)
    ensures !HasBit(0, k)
  {
    if k > 0 { ZeroHasNoBit(k - 1); }
  }

  lemma {:induction false} Pow2Bits(n: nat, k: nat)
    ensures HasBit(Pow2(n), k) <==> n == k
  {
    if k > 0 && n > 0 {
      Pow2Bits(n - 1, k - 1);
    } else if n == 0 && k > 0 {
      ZeroHasNoBit(k - 1);
    }
  }

  lemma {:induction false} ComplementBits(w: nat, n: nat, k: nat)
    requires w < Pow2(n)
    ensures HasBit(Pow2(n) - 1 - w, k) <==> k < n && !HasBit(w, k)
    decreases k
  {
    if n == 0 {
      ZeroHasNoBit(k);
    } else {
      assert (Pow2(n) - 1 - w) / 2 == Pow2(n - 1) - 1 - w / 2;
      if k > 0 { ComplementBits(w / 2, n - 1, k - 1); }
    }
  }

  lemma Pow2At32()
    ensures Pow2(32) == WORD
  {
    assert Pow2(8) == 256;
    assert Pow2(16) == 0x1_0000;
    assert Pow2(24) == 0x100_0000;
  }

  lemma {:induction false} Pow2Monotone(a: nat, b: nat)
    requires a <= b
    ensures Pow2(a) <= Pow2(b)
    ensures a < b ==> 2 * Pow2(a) <= Pow2(b)
    decreases b
  {
    if a < b { Pow2Monotone(a, b - 1); }
  }

  /** Words with the same bits are equal. */
  lemma {:induction false} EqualByBits(v: nat, w: nat)
    requires forall k: nat :: HasBit(v, k) <==> HasBit(w, k)
    ensures v == w
    decreases v + w
  {
    assert HasBit(v, 0) <==> HasBit(w, 0);
    if v + w > 0 {
      forall k: nat ensures HasBit(v / 2, k) <==> HasBit(w / 2, k) {
        assert HasBit(v, k + 1) <==> HasBit(w, k + 1);
      }
      EqualByBits(v / 2, w / 2);
    }
  }

  /** Bits of a word all lie below 32. */
  lemma {:induction false} HighBitsClear(w: nat, n: nat, k: nat)
    requires w < Pow2(n) && n <= k
    ensures !HasBit(w, k)
    decreases n
  {
    if n == 0 { ZeroHasNoBit(k); } else { HighBitsClear(w / 2, n - 1, k - 1); }
  }

  /** Some bit of a non-zero word is set. */
  lemma {:induction false} NonZeroHasBit(w: nat) returns (k: nat)
    requires w > 0
    ensures HasBit(w, k)
  {
    if w % 2 == 1 { k := 0; } else { k := NonZeroHasBit(w / 2); k := k + 1; }
  }

  // ----- shifts and masks

  lemma {:induction false} ShrBounds(w: nat, s: nat, a: nat, b: nat)
    requires s <= a && Pow2(a) <= w < Pow2(b)
    ensures s <= b && Pow2(a - s) <= Shr(w, s) < Pow2(b - s)
    decreases s
  {
    if b < s { Pow2Monotone(b, a); }
    if s > 0 { ShrBounds(w / 2, s - 1, a - 1, b - 1); }
  }

  lemma {:induction false} ShrMonotone(v: nat, w: nat, s: nat)
    requires v <= w
    ensures Shr(v, s) <= Shr(w, s)
  {
    if s > 0 { ShrMonotone(v / 2, w / 2, s - 1); }
  }

  /** Shifting right and back rounds down by less than 2^s. */
  lemma {:induction false} ShiftRoundsDown(w: nat, s: nat)
    ensures Shl(Shr(w, s), s) <= w < Shl(Shr(w, s), s) + Pow2(s)
  {
    if s > 0 { ShiftRoundsDown(w / 2, s - 1); }
  }

  lemma {:induction false} ShiftBack(w: nat, s: nat)
    ensures Shr(Shl(w, s), s) == w
  {
    if s > 0 { ShiftBack(w, s - 1); }
  }

  lemma {:induction false} ShlMonotone(v: nat, w: nat, s: nat)
    requires v <= w
    ensures Shl(v, s) <= Shl(w, s)
  {
    if s > 0 { ShlMonotone(v, w, s - 1); }
  }

  lemma {:induction false} ShlPow2(a: nat, s: nat)
    ensures Shl(Pow2(a), s) == Pow2(a + s)
  {
    if s > 0 { ShlPow2(a, s - 1); }
  }

  lemma AndEvenMask(w: nat, m: nat)
    ensures And(w, 2 * m) == 2 * And(w / 2, m)
  {
    assert (2 * m) % 2 == 0 && (2 * m) / 2 == m;
  }

  /** w & ~(2^s - 1) clears the s low bits. */
  lemma {:induction false} MaskLow(w: nat, s: nat, n: nat)
    requires w < Pow2(n) && s <= n
    ensures Pow2(s) <= Pow2(n) && And(w, Pow2(n) - Pow2(s)) == Shl(Shr(w, s), s)
    decreases n
  {
    Pow2Monotone(s, n);
    if s == 0 {
      AllOnes(w, n);
    } else {
      MaskLow(w / 2, s - 1, n - 1);
      var m := Pow2(n - 1) - Pow2(s - 1);
      AndEvenMask(w, m);
      assert Pow2(n) - Pow2(s) == 2 * m;
      hide And, Pow2;
    }
  }

  lemma {:induction false} AllOnes(w: nat, n: nat)
    requires w < Pow2(n)
    ensures And(w, Pow2(n) - 1) == w
  {
    if n > 0 {
      AllOnes(w / 2, n - 1);
      assert (Pow2(n) - 1) / 2 == Pow2(n - 1) - 1;
    }
  }

  /** x & -x is the lowest set bit of x. */
  lemma {:induction false} IsolateLowest(x: nat, n: nat) returns (k: nat)
    requires 0 < x < Pow2(n)
    ensures k < n && And(x, Pow2(n) - x) == Pow2(k)
    ensures HasBit(x, k) && forall j: nat :: j < k ==> !HasBit(x, j)
    decreases n
  {
    if x % 2 == 1 {
      k := 0;
      assert (Pow2(n) - x) % 2 == 1 && (Pow2(n) - x) / 2 == Pow2(n - 1) - 1 - x / 2;
      DisjointComplement(x / 2, n - 1);
    } else {
      k := IsolateLowest(x / 2, n - 1);
      assert (Pow2(n) - x) / 2 == Pow2(n - 1) - x / 2;
      k := k + 1;
      forall j: nat | j < k ensures !HasBit(x, j) {
        if j > 0 { assert !HasBit(x / 2, j - 1); }
      }
    }
  }

  lemma {:induction false} DisjointComplement(w: nat, n: nat)
    requires w < Pow2(n)
    ensures And(w, Pow2(n) - 1 - w) == 0
  {
    if n > 0 {
      DisjointComplement(w / 2, n - 1);
      assert (Pow2(n) - 1 - w) / 2 == Pow2(n - 1) - 1 - w / 2;
    }
  }

  // ----- bitmap words

  lemma {:induction false} OrBound(v: nat, w: nat, n: nat)
    requires v < Pow2(n) && w < Pow2(n)
    ensures Or(v, w) < Pow2(n)
  {
    if n > 0 { OrBound(v / 2, w / 2, n - 1); }
  }

  lemma {:induction false} WordFits(k: nat)
    requires k < 32
    ensures Pow2(k) < WORD
  {
    Pow2At32();
    Pow2Monotone(k, 32);
  }

  /** *addr |= 1 << nr */
  function SetBit(nr: nat, w: u32): u32
    requires nr < 32
  {
    WordFits(nr); Pow2At32(); OrBound(w, Pow2(nr), 32);
    Or(w, Pow2(nr))
  }

  /** *addr &= ~(1 << nr) */
  function ClearBit(nr: nat, w: u32): u32
    requires nr < 32
  {
    WordFits(nr);
    And(w, Not(Pow2(nr)))
  }

  /** w & (~0 << s) */
  function MaskFrom(w: u32, s: nat): u32
    requires s < 32
  {
    WordFits(s);
    And(w, WORD - Pow2(s))
  }

  lemma SetBitBits(nr: nat, w: u32, k: nat)
    requires nr < 32
    ensures HasBit(SetBit(nr, w), k) <==> k == nr || HasBit(w, k)
  {
    OrBits(w, Pow2(nr), k);
    Pow2Bits(nr, k);
  }

  lemma ClearBitBits(nr: nat, w: u32, k: nat)
    requires nr < 32
    ensures HasBit(ClearBit(nr, w), k) <==> k != nr && HasBit(w, k)
  {
    WordFits(nr); Pow2At32();
    AndBits(w, Not(Pow2(nr)), k);
    ComplementBits(Pow2(nr), 32, k);
    Pow2Bits(nr, k);
    if k >= 32 { HighBitsClear(w, 32, k); }
  }

  lemma MaskFromBits(w: u32, s: nat, k: nat)
    requires s < 32
    ensures HasBit(MaskFrom(w, s), k) <==> s <= k && HasBit(w, k)
  {
    WordFits(s); Pow2At32();
    AndBits(w, WORD - Pow2(s), k);
    assert WORD - Pow2(s) == Pow2(32) - 1 - (Pow2(s) - 1);
    ComplementBits(Pow2(s) - 1, 32, k);
    OnesBits(s, k);
    if k >= 32 { HighBitsClear(w, 32, k); }
  }

  lemma {:induction false} OnesBits(s: nat, k: nat)
    ensures HasBit(Pow2(s) - 1, k) <==> k < s
  {
    if s == 0 {
      ZeroHasNoBit(k);
    } else {
      assert (Pow2(s) - 1) / 2 == Pow2(s - 1) - 1;
      if k > 0 { OnesBits(s - 1, k - 1); }
    }
  }

  lemma ZeroWord(w: nat)
    requires forall k: nat :: !HasBit(w, k)
    ensures w == 0
  {
    if w != 0 {
      var k := NonZeroHasBit(w);
      assert false;
    }
  }

  // ----- the flag bits of a size word

  /** word & BLOCK_SIZE */
  function SizeOf(w: u32): (r: u32)
    ensures r == w - w % 4
  {
    SizeMask(w);
    And(w, 0xFFFF_FFFC)
  }

  lemma SizeMask(w: u32)
    ensures And(w, 0xFFFF_FFFC) == w - w % 4
  {
    Pow2At32();
    SmallPowers();
    hide And, Shr, Shl, Pow2;
    MaskLow(w, 2, 32);
    ShiftRoundsDown(w, 2);
    FourTimes(Shr(w, 2));
  }

  lemma SmallPowers()
    ensures Pow2(2) == 4 && Pow2(3) == 8
  {
    assert Pow2(1) == 2;
  }

  lemma FourTimes(q: nat)
    ensures Shl(q, 2) == 4 * q
  {
    assert Shl(q, 1) == 2 * q;
  }

  /** word & FREE_BLOCK and word & PREV_FREE, as truth values. */
  predicate FreeFlag(w: u32)
  {
    HasBit(w, 0)
  }

  predicate PrevFreeFlag(w: u32)
  {
    HasBit(w, 1)
  }

  /** A size word put together from a size and its two flags. */
  function Word(size: nat, free: bool, prevFree: bool): (w: nat)
    ensures size <= w < size + 4
  {
    size + (if free then 1 else 0) + (if prevFree then 2 else 0)
  }

  lemma WordParts(size: nat, free: bool, prevFree: bool)
    requires size % 8 == 0 && size + 4 <= WORD
    ensures var w := Word(size, free, prevFree);
      && SizeOf(w) == size && (FreeFlag(w) <==> free) && (PrevFreeFlag(w) <==> prevFree)
      && SetBit(0, w) == Word(size, true, prevFree) && ClearBit(0, w) == Word(size, false, prevFree)
      && SetBit(1, w) == Word(size, free, true) && ClearBit(1, w) == Word(size, free, false)
  {
    var w := Word(size, free, prevFree);
    WordBit(size, free, prevFree, 0);
    WordBit(size, free, prevFree, 1);
    forall k: nat ensures WordHas(SetBit(0, w), size, true, prevFree, k) && WordHas(ClearBit(0, w), size, false, prevFree, k)
      && WordHas(SetBit(1, w), size, free, true, k) && WordHas(ClearBit(1, w), size, free, false, k)
    {
      WordBit(size, free, prevFree, k);
      SetBitBits(0, w, k); SetBitBits(1, w, k); ClearBitBits(0, w, k); ClearBitBits(1, w, k);
    }
    WordByBits(SetBit(0, w), size, true, prevFree);
    WordByBits(ClearBit(0, w), size, false, prevFree);
    WordByBits(SetBit(1, w), size, free, true);
    WordByBits(ClearBit(1, w), size, free, false);
  }

  /** Bit k of w is the one a word of these parts has. */
  ghost predicate WordHas(w: nat, size: nat, f: bool, p: bool, k: nat)
  {
    HasBit(w, k) <==> (k == 0 && f) || (k == 1 && p) || (k >= 2 && HasBit(size / 4, k - 2))
  }

  lemma WordByBits(w: nat, size: nat, f: bool, p: bool)
    requires size % 8 == 0 && forall k: nat :: WordHas(w, size, f, p, k)
    ensures w == Word(size, f, p)
  {
    forall k: nat ensures HasBit(w, k) <==> HasBit(Word(size, f, p), k) {
      WordBit(size, f, p, k);
      assert WordHas(w, size, f, p, k);
    }
    EqualByBits(w, Word(size, f, p));
  }

  lemma HalvedTwice(size: nat, f: bool, p: bool)
    requires size % 8 == 0
    ensures var w := Word(size, f, p);
      (w % 2 == 1 <==> f) && w / 2 == size / 2 + (if p then 1 else 0) && (w / 2 % 2 == 1 <==> p) && w / 2 / 2 == size / 4
  {
    var e, d := if f then 1 else 0, if p then 1 else 0;
    var q := size / 8;
    assert Word(size, f, p) == 8 * q + 2 * d + e && size / 2 == 4 * q && size / 4 == 2 * q;
    hide Word;
    HalfOf(4 * q + d, e);
    HalfOf(2 * q, d);
  }

  lemma HalfOf(n: nat, e: nat)
    requires e < 2
    ensures (2 * n + e) / 2 == n && (2 * n + e) % 2 == e
  {
  }

  lemma WordBit(size: nat, f: bool, p: bool, k: nat)
    requires size % 8 == 0
    ensures WordHas(Word(size, f, p), size, f, p, k)
  {
    var w := Word(size, f, p);
    HalvedTwice(size, f, p);
    hide Word;
    if k >= 2 {
      assert HasBit(w, k) == HasBit(w / 2, k - 1);
      assert HasBit(w / 2, k - 1) == HasBit(w / 2 / 2, k - 2);
    } else if k == 1 {
      assert HasBit(w, 1) == HasBit(w / 2, 0);
    }
  }

  /** w & ~7 rounds down to a multiple of 8. */
  lemma MaskDown8(w: u32)
    ensures var r := And(w, 0xFFFF_FFF8); r % 8 == 0 && r <= w < r + 8
  {
    SmallPowers();
    Pow2At32();
    hide And, Shr, Shl, Pow2;
    MaskLow(w, 3, 32);
    ShiftRoundsDown(w, 3);
    EightTimes(Shr(w, 3));
  }

  lemma EightTimes(q: nat)
    ensures Shl(q, 3) == 8 * q
  {
    assert Shl(q, 1) == 2 * q && Shl(q, 2) == 4 * q;
  }
}
