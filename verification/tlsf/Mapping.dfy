/** The two-level size classes of the allocator. */
module Mapping {
  import opened Words

  const SMALL_BLOCK: nat := 128
  const REAL_FLI: nat := 24
  const MAX_SLI: nat := 32
  /** Sizes of this and above have no list. */
  const SIZE_LIMIT: nat := 0x4000_0000

  /** A slot of the matrix of free lists. */
  datatype Class = Class(fl: nat, sl: nat)

  predicate ValidClass(c: Class)
  {
    c.fl < REAL_FLI && c.sl < MAX_SLI
  }

  /** The order in which slots are searched. */
  predicate ClassLe(c: Class, d: Class)
  {
    c.fl < d.fl || (c.fl == d.fl && c.sl <= d.sl)
  }

  /** The 256-entry constant `table`, written by its runs of equal entries. */
  function Table(i: nat): int
  {
    if i == 0 then -1 else if i < 2 then 0 else if i < 4 then 1 else if i < 8 then 2 else if i < 16 then 3
    else if i < 32 then 4 else if i < 64 then 5 else if i < 128 then 6 else 7
  }

  /** Highest set bit by table lookup; -1 for zero. */
  function MsBit(x: u32): int
  {
    if x <= 0xFFFF then (if x <= 0xFF then Table(x) else Table(x / 0x100) + 8)
    else if x <= 0xFF_FFFF then Table(x / 0x1_0000) + 16 else Table(x / 0x100_0000) + 24
  }

  /** Lowest set bit: the highest bit of i & -i. */
  function LsBit(i: u32): int
  {
    MsBit(And(i, Neg(i)))
  }

  /** ms_bit is the floor of the base-2 logarithm, and -1 exactly on zero. */
  lemma MsBitIsLog(x: u32)
    ensures x == 0 ==> MsBit(x) == -1
    ensures x > 0 ==> 0 <= MsBit(x) < 32 && Pow2(MsBit(x)) <= x < Pow2(MsBit(x) + 1)
  {
    if x > 0xFF_FFFF {
      TableIsLog(x / 0x100_0000);
      Scale8(x / 0x1_0000, Table(x / 0x100_0000));
      Scale8(x / 0x100, Table(x / 0x100_0000) + 8);
      Scale8(x, Table(x / 0x100_0000) + 16);
    } else if x > 0xFFFF {
      TableIsLog(x / 0x1_0000);
      Scale8(x / 0x100, Table(x / 0x1_0000));
      Scale8(x, Table(x / 0x1_0000) + 8);
    } else if x > 0xFF {
      TableIsLog(x / 0x100);
      Scale8(x, Table(x / 0x100));
    } else if x > 0 {
      TableIsLog(x);
    }
  }

  lemma TableIsLog(i: nat)
    requires 0 < i < 256
    ensures 0 <= Table(i) < 8 && Pow2(Table(i)) <= i < Pow2(Table(i) + 1)
  {
    assert Pow2(0) == 1 && Pow2(1) == 2 && Pow2(2) == 4 && Pow2(3) == 8 && Pow2(4) == 16;
    assert Pow2(5) == 32 && Pow2(6) == 64 && Pow2(7) == 128 && Pow2(8) == 256;
  }

  lemma Scale8(x: nat, t: nat)
    requires Pow2(t) <= x / 0x100 < Pow2(t + 1)
    ensures Pow2(t + 8) <= x < Pow2(t + 9)
  {
    assert Pow2(t + 4) == 16 * Pow2(t) by { assert Pow2(t + 2) == 4 * Pow2(t); }
    assert Pow2(t + 8) == 16 * Pow2(t + 4) by { assert Pow2(t + 6) == 4 * Pow2(t + 4); }
  }

  /** The logarithm is determined by its bounds. */
  lemma LogUnique(x: u32, k: nat)
    requires Pow2(k) <= x < Pow2(k + 1)
    ensures MsBit(x) == k
  {
    MsBitIsLog(x);
    if MsBit(x) < k { Pow2Monotone(MsBit(x) + 1, k); }
    if k < MsBit(x) { Pow2Monotone(k + 1, MsBit(x)); }
  }

  /** ls_bit is the index of the lowest set bit, and -1 exactly on the zero word. */
  lemma LsBitIsLowest(i: u32)
    ensures i == 0 ==> LsBit(i) == -1
    ensures i != 0 ==> 0 <= LsBit(i) < 32 && HasBit(i, LsBit(i))
                       && forall j: nat :: j < LsBit(i) ==> !HasBit(i, j)
  {
    if i != 0 {
      Pow2At32();
      var k := IsolateLowest(i, 32);
      LogUnique(Pow2(k), k);
    }
  }

  // ----- MAPPING_INSERT

  function MappingInsert(r: u32): Class
  {
    if r < SMALL_BLOCK then Class(0, r / 4)
    else
      var fl := MsBit(r);
      LargeSize(r);
      Class(fl - 6, Shr(r, fl - 5) - 32)
  }

  /** A large size, scaled by its logarithm, has six significant bits. */
  lemma LargeSize(r: u32)
    requires r >= SMALL_BLOCK
    ensures 7 <= MsBit(r) < 32 && Pow2(MsBit(r)) <= r < Pow2(MsBit(r) + 1)
    ensures 32 <= Shr(r, MsBit(r) - 5) < 64
  {
    MsBitIsLog(r);
    assert Pow2(7) == 128;
    if MsBit(r) < 7 { Pow2Monotone(MsBit(r) + 1, 7); }
    ShrBounds(r, MsBit(r) - 5, MsBit(r), MsBit(r) + 1);
    assert Pow2(5) == 32 && Pow2(6) == 64;
  }

  /** The sizes of a slot: four up to 127; then rows for each power of two, of 32 slots each. */
  lemma SlotRange(r: u32)
    ensures var c := MappingInsert(r);
      if r < 128 then c.fl == 0 && 4 * c.sl <= r < 4 * c.sl + 4
      else 1 <= c.fl < 26 && c.sl < 32 && Pow2(c.fl + 6) <= r < Pow2(c.fl + 7)
           && Shl(32 + c.sl, c.fl + 1) <= r < Shl(32 + c.sl, c.fl + 1) + Pow2(c.fl + 1)
  {
    if r >= 128 {
      LargeSize(r);
      ShiftRoundsDown(r, MsBit(r) - 5);
    }
  }

  /** Every size below the limit has a slot of the matrix. */
  lemma InsertInRange(r: u32)
    requires r < SIZE_LIMIT
    ensures ValidClass(MappingInsert(r))
  {
    if r >= SMALL_BLOCK {
      LargeSize(r);
      assert Pow2(30) == SIZE_LIMIT by {
        assert Pow2(8) == 256; assert Pow2(16) == 0x1_0000; assert Pow2(24) == 0x100_0000;
      }
      if MsBit(r) >= 30 { Pow2Monotone(30, MsBit(r)); }
    }
  }

  /** Larger sizes are in later slots. */
  lemma InsertMonotone(r: u32, s: u32)
    requires r <= s
    ensures ClassLe(MappingInsert(r), MappingInsert(s))
  {
    if r >= SMALL_BLOCK {
      LargeSize(r); LargeSize(s);
      if MsBit(s) < MsBit(r) { Pow2Monotone(MsBit(s) + 1, MsBit(r)); }
      if MsBit(s) == MsBit(r) { ShrMonotone(r, s, MsBit(r) - 5); }
    } else if s >= SMALL_BLOCK {
      LargeSize(s);
    }
  }

  // ----- MAPPING_SEARCH

  /** The request rounded up to the bottom of a slot, and that slot. */
  function MappingSearch(r: u32): (u32, Class)
    requires r < 0x8000_0000
  {
    if r < SMALL_BLOCK then (r, Class(0, r / 4))
    else
      LargeSize(r); RoundingMask(r);
      var t := Shl(1, MsBit(r) - 5) - 1;
      var r1 := r + t;
      LargeSize(r1);
      var fl := MsBit(r1);
      (And(r1, Not(t)), Class(fl - 6, Shr(r1, fl - 5) - 32))
  }

  lemma RoundingMask(r: u32)
    requires SMALL_BLOCK <= r < 0x8000_0000
    ensures 7 <= MsBit(r)
    ensures Shl(1, MsBit(r) - 5) == Pow2(MsBit(r) - 5)
    ensures 32 * Pow2(MsBit(r) - 5) == Pow2(MsBit(r)) <= r
  {
    LargeSize(r);
    ShlPow2(0, MsBit(r) - 5);
    var a := MsBit(r) - 5;
    assert Pow2(a + 2) == 4 * Pow2(a) && Pow2(a + 4) == 4 * Pow2(a + 2);
  }

  /** The rounded request is the bottom of its own slot. */
  predicate SlotBottom(r: u32)
  {
    r >= SMALL_BLOCK ==> (LargeSize(r); Shl(Shr(r, MsBit(r) - 5), MsBit(r) - 5) == r)
  }

  lemma SearchRounds(r: u32)
    requires SMALL_BLOCK <= r < 0x8000_0000
    ensures var (r', c) := MappingSearch(r);
      && 7 <= MsBit(r) && r <= r' < r + Pow2(MsBit(r) - 5)
      && c == MappingInsert(r') && SlotBottom(r')
      && r' == Shl(Shr(r', MsBit(r) - 5), MsBit(r) - 5)
  {
    hide MsBit, Pow2, Shr, Shl, MappingSearch, SlotBottom, MappingInsert;
    SearchFacts(r);
    var m := MsBit(r);
    var s := m - 5;
    var r1 := r + (Pow2(s) - 1);
    var r' := MappingSearch(r).0;
    ShiftRoundsDown(r1, s);
    ShiftBack(Shr(r1, s), s);
    SameSlotRounded(r1, m, r');
    InsertLarge(r');
  }

  /** The bounds of the request, and what the search makes of it. */
  lemma SearchFacts(r: u32)
    requires SMALL_BLOCK <= r < 0x8000_0000
    ensures 7 <= MsBit(r) && Pow2(MsBit(r)) <= r < Pow2(MsBit(r) + 1) == 2 * Pow2(MsBit(r)) && 32 * Pow2(MsBit(r) - 5) == Pow2(MsBit(r))
    ensures var r1 := r + (Pow2(MsBit(r) - 5) - 1);
      && r1 < WORD && MsBit(r1) >= 7 && Shr(r1, MsBit(r1) - 5) >= 32
      && MappingSearch(r).0 == Shl(Shr(r1, MsBit(r) - 5), MsBit(r) - 5)
      && MappingSearch(r).1.fl == MsBit(r1) - 6 && MappingSearch(r).1.sl == Shr(r1, MsBit(r1) - 5) - 32
  {
    LargeSize(r); RoundingMask(r);
    SearchMasks(r);
    SearchParts(r);
    hide MsBit, Shr, Shl, MappingSearch;
  }

  lemma InsertLarge(r: u32)
    requires r >= SMALL_BLOCK && MsBit(r) >= 7
    ensures MappingInsert(r).fl == MsBit(r) - 6 && MappingInsert(r).sl == Shr(r, MsBit(r) - 5) - 32
  {
  }

  /** The slot of a search is computed before the low bits are cleared. */
  lemma SearchParts(r: u32)
    requires SMALL_BLOCK <= r < 0x8000_0000
    ensures 7 <= MsBit(r) && r + (Pow2(MsBit(r) - 5) - 1) < WORD
    ensures var r1 := r + (Pow2(MsBit(r) - 5) - 1);
      && MsBit(r1) >= 7 && Shr(r1, MsBit(r1) - 5) >= 32
      && MappingSearch(r).1.fl == MsBit(r1) - 6 && MappingSearch(r).1.sl == Shr(r1, MsBit(r1) - 5) - 32
  {
    hide MsBit, Pow2, Shr, Shl, And, Not;
    LargeSize(r); RoundingMask(r);
    LargeSize(r + (Pow2(MsBit(r) - 5) - 1));
  }

  lemma SameSlotRounded(r1: u32, m: nat, r': u32)
    requires 7 <= m && Pow2(m) <= r' <= r1 < Pow2(m + 1) + Pow2(m - 5)
    requires r' == Shl(Shr(r1, m - 5), m - 5)
    ensures SMALL_BLOCK <= r' && MsBit(r1) == MsBit(r') >= 7
    ensures Shr(r1, MsBit(r1) - 5) == Shr(r', MsBit(r') - 5)
    ensures SlotBottom(r')
  {
    assert Pow2(7) == 128;
    Pow2Monotone(7, m); Pow2Monotone(m - 5, m);
    if r1 < Pow2(m + 1) {
      LogUnique(r1, m); LogUnique(r', m);
      ShiftBack(Shr(r1, m - 5), m - 5);
    } else {
      LogUnique(r1, m + 1);
      CarriedOver(r1, m, m - 5);
      LogUnique(r', m + 1);
    }
  }

  /** Clearing with ~t is shifting right and back. */
  lemma SearchMasks(r: u32)
    requires SMALL_BLOCK <= r < 0x8000_0000
    ensures 7 <= MsBit(r)
    ensures MappingSearch(r).0 == Shl(Shr(r + (Pow2(MsBit(r) - 5) - 1), MsBit(r) - 5), MsBit(r) - 5)
  {
    LargeSize(r); RoundingMask(r);
    var s := MsBit(r) - 5;
    Pow2At32();
    Pow2Monotone(s, 32);
    MaskLow(r + (Pow2(s) - 1), s, 32);
  }

  /** When rounding carries into the next power of two it lands exactly on it. */
  lemma CarriedOver(r1: u32, m: nat, s: nat)
    requires m >= 7 && s == m - 5 && Pow2(m + 1) <= r1 < Pow2(m + 1) + Pow2(s)
    ensures Shl(Shr(r1, s), s) == Pow2(m + 1)
    ensures Shr(r1, s + 1) == 32 == Shr(Pow2(m + 1), s + 1)
    ensures Shl(Shr(Pow2(m + 1), s + 1), s + 1) == Pow2(m + 1)
  {
    assert Pow2(6) == 64 && Pow2(5) == 32;
    ShlPow2(6, s); ShlPow2(5, s + 1);
    ShiftBack(64, s); ShiftBack(32, s + 1);
    BoundedShift(r1, 64, s);
    Pow2Monotone(s, s + 1);
    BoundedShift(r1, 32, s + 1);
  }

  lemma {:induction false} BoundedShift(w: nat, q: nat, s: nat)
    requires Shl(q, s) <= w < Shl(q, s) + Pow2(s)
    ensures Shr(w, s) == q
  {
    if s > 0 { BoundedShift(w / 2, q, s - 1); }
  }

  /** MAPPING_SEARCH is sound and complete for the slot order: a block is in the slot
      it names or a later one exactly when it is at least the rounded request; and the
      rounding adds less than a thirty-second of the request, nothing below 128. */
  lemma SearchIsExact(r: u32, size: u32)
    requires r % 8 == 0 && 8 <= r < 0x8000_0000 && size % 8 == 0
    ensures var (r', c) := MappingSearch(r);
      && r <= r' && r' % 8 == 0 && c == MappingInsert(r')
      && (if r < SMALL_BLOCK then r' == r else 32 * (r' - r) < r)
      && (size >= r' <==> ClassLe(c, MappingInsert(size)))
  {
    var (r', c) := MappingSearch(r);
    if r >= SMALL_BLOCK {
      SearchRounds(r); RoundedAligned(r); RoundingMask(r);
    }
    if size >= r' { InsertMonotone(r', size); }
    if ClassLe(c, MappingInsert(size)) { LaterSlotIsLarger(r', size); }
  }

  lemma RoundedAligned(r: u32)
    requires r % 8 == 0 && SMALL_BLOCK <= r < 0x8000_0000
    ensures MappingSearch(r).0 % 8 == 0
  {
    SearchRounds(r);
    LargeSize(r);
    var s := MsBit(r) - 5;
    var r' := MappingSearch(r).0;
    ShlAligned(Shr(r', s), s);
    if s == 2 {
      assert Pow2(2) == 4;
      OnlyAlignedStep(r, r');
    }
  }

  lemma ShlAligned(q: nat, s: nat)
    requires s >= 2
    ensures Shl(q, s) % 4 == 0 && (s >= 3 ==> Shl(q, s) % 8 == 0)
  {
    assert Shl(q, s) == 4 * Shl(q, s - 2);
    if s >= 3 { assert Shl(q, s - 2) == 2 * Shl(q, s - 3); }
  }

  lemma OnlyAlignedStep(r: u32, r': u32)
    requires r % 8 == 0 && r <= r' && r' <= r + 3 && r' % 4 == 0
    ensures r' == r
  {
  }

  /** A size in the slot of a slot bottom, or a later one, is at least that bottom. */
  lemma LaterSlotIsLarger(r: u32, size: u32)
    requires SlotBottom(r) && r % 8 == 0 && size % 8 == 0
    requires ClassLe(MappingInsert(r), MappingInsert(size))
    ensures size >= r
  {
    if r >= SMALL_BLOCK {
      LargeSize(r);
      if size >= SMALL_BLOCK {
        LargeSize(size);
        var m := MsBit(r);
        if MsBit(size) > m {
          Pow2Monotone(m + 1, MsBit(size));
        } else {
          ShlMonotone(Shr(r, m - 5), Shr(size, m - 5), m - 5);
          ShiftRoundsDown(size, m - 5);
        }
      }
    } else if size >= SMALL_BLOCK {
      LargeSize(size);
    }
  }
}
