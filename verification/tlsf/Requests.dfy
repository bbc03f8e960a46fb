/** Which requests malloc_ex can serve: its rounding and MAPPING_SEARCH on every 32-bit size. */
module Requests {
  import opened Words
  import opened Mapping
  import opened Heap
  import opened Carve

  /** The largest request whose class is in the matrix: 63 * 2^24. */
  const LARGEST: nat := 0x3F00_0000
  /** From this request on rounding wraps, and the search is for size 0. */
  const WRAPPING: nat := 0xFC00_0041

  /** What malloc_ex does to a size before the search. */
  function Rounded(size: u32): u32
  {
    if size < MIN_BLOCK then MIN_BLOCK else And((size + 7) % WORD, 0xFFFF_FFF8)
  }

  /** The mask of MAPPING_SEARCH. */
  function RoundingBits(r: u32): u32
    requires r >= SMALL_BLOCK
  {
    LargeSize(r); WordFits(MsBit(r) - 5); ShlPow2(0, MsBit(r) - 5);
    Shl(1, MsBit(r) - 5) - 1
  }

  /** MAPPING_SEARCH on any size: the size searched for, the row and the column; a shift by a negative count gives no column. */
  function Search(r: u32): (u32, int, int)
  {
    if r < SMALL_BLOCK then (r, 0, r / 4)
    else
      var t := RoundingBits(r);
      var r1 := (r + t) % WORD;
      var fl := MsBit(r1);
      (And(r1, Not(t)), fl - 6, if fl >= 5 then Shr(r1, fl - 5) - 32 else -1)
  }

  predicate InMatrix(fl: int, sl: int)
  {
    0 <= fl < REAL_FLI && 0 <= sl < MAX_SLI
  }

  /** The search starts in a slot that exists exactly for requests of up to 63 * 2^24 bytes, where it is the one MappingSearch
      gives, and for those so large that rounding wraps, where it looks for a block of size 0. */
  lemma SlotExactly(size: u32)
    ensures var (r, fl, sl) := Search(Rounded(size));
      && (InMatrix(fl, sl) <==> size <= LARGEST || size >= WRAPPING)
      && (Fits(size) <==> size <= LARGEST)
      && (Fits(size) ==> Rounded(size) == Adjusted(size) && (r, Class(fl, sl)) == MappingSearch(Adjusted(size)))
      && (size >= WRAPPING ==> r == 0)
  {
    hide Search, MappingSearch, And;
    if size + 7 < WORD {
      var n := Adjusted(size);
      assert Rounded(size) == n;
      if n < 0x8000_0000 {
        SearchSmall(n);
        LargestClass(n);
      } else {
        SearchLarge(n);
      }
    } else {
      MaskDown8((size + 7) % WORD);
      assert Rounded(size) == 0;
      SearchNothing();
    }
  }

  lemma SearchNothing()
    ensures Search(0) == (0, 0, 0)
  {
  }

  /** Below 2^31 nothing wraps. */
  lemma SearchSmall(r: u32)
    requires r < 0x8000_0000
    ensures var (r', c) := MappingSearch(r); Search(r) == (r', c.fl, c.sl)
  {
    hide And, Not, Shr, Shl, MsBit, Pow2;
    if r >= SMALL_BLOCK {
      RoundingMask(r);
      SearchParts(r);
      LargeSize(r + (Pow2(MsBit(r) - 5) - 1));
    }
  }

  /** The class of a size is in the matrix exactly up to the largest request. */
  lemma LargestClass(n: u32)
    requires n % 8 == 0 && 8 <= n < 0x8000_0000
    ensures MappingSearch(n).0 < SIZE_LIMIT <==> n <= LARGEST
    ensures ValidClass(MappingSearch(n).1) <==> n <= LARGEST
  {
    hide MappingSearch, MappingInsert, MsBit, Pow2, Shr, Shl;
    var r := MappingSearch(n).0;
    SearchIsExact(n, n);
    if n >= SMALL_BLOCK { RoundedSize(n); }
    if r < SIZE_LIMIT { InsertInRange(r); } else { NoSlot(r); }
  }

  lemma RoundedSize(n: u32)
    requires SMALL_BLOCK <= n < 0x8000_0000
    ensures MappingSearch(n).0 < SIZE_LIMIT <==> n <= LARGEST
  {
    hide MappingSearch, MappingInsert, MsBit, Pow2, Shr, Shl, SlotBottom;
    SearchRounds(n); LargeSize(n); Powers();
    var m, r := MsBit(n), MappingSearch(n).0;
    if m < 29 { Pow2Monotone(m + 1, 29); Pow2Monotone(m - 5, 24); }
    if m == 29 { Multiple(Shr(r, 24), 24); }
    if m > 29 { Pow2Monotone(30, m); }
  }

  lemma {:induction false} Multiple(q: nat, s: nat)
    ensures Shl(q, s) == q * Pow2(s)
  {
    if s > 0 { Multiple(q, s - 1); }
  }

  lemma Powers()
    ensures Pow2(6) == 64 && Pow2(7) == 128 && Pow2(24) == 0x100_0000 && Pow2(26) == 0x400_0000
    ensures Pow2(29) == 0x2000_0000 && Pow2(30) == SIZE_LIMIT && Pow2(31) == 0x8000_0000 && Pow2(32) == WORD
  {
    assert Pow2(4) == 16 && Pow2(8) == 256 && Pow2(12) == 0x1000 && Pow2(16) == 0x1_0000 && Pow2(20) == 0x10_0000;
    assert Pow2(28) == 0x1000_0000;
  }

  lemma NoSlot(r: u32)
    requires r >= SIZE_LIMIT
    ensures !ValidClass(MappingInsert(r))
  {
    hide MsBit, Pow2, Shr;
    LargeSize(r); Powers();
    if MsBit(r) <= 29 { Pow2Monotone(MsBit(r) + 1, 30); }
  }

  /** From 2^31 on the search leaves the matrix at its top, unless adding the mask wraps: then it starts in the slot of what is
      left, if that has one. */
  lemma SearchLarge(n: u32)
    requires 0x8000_0000 <= n
    ensures var (r, fl, sl) := Search(n); (InMatrix(fl, sl) <==> n >= WRAPPING) && (n >= WRAPPING ==> r == 0)
  {
    hide MsBit, Pow2, Shr, Shl, And;
    Powers(); LogUnique(n, 31); ShlPow2(0, 26); Pow2Zero();
    assert RoundingBits(n) == 0x3FF_FFFF;
    var r1 := (n + 0x3FF_FFFF) % WORD;
    MsBitIsLog(r1);
    if n + 0x3FF_FFFF < WORD {
      LogUnique(r1, 31);
    } else {
      Remainder(r1);
    }
  }

  lemma Pow2Zero()
    ensures Pow2(0) == 1
  {
  }

  /** What is left has a slot from 64 on, and no bit above the mask. */
  lemma Remainder(r1: u32)
    requires r1 < 0x400_0000
    ensures And(r1, Not(0x3FF_FFFF)) == 0
    ensures MsBit(r1) < 26 && (MsBit(r1) >= 6 <==> r1 >= 64)
    ensures r1 >= 64 ==> 32 <= Shr(r1, MsBit(r1) - 5) < 64
  {
    hide MsBit, Pow2, Shr, Shl, And;
    Powers(); MsBitIsLog(r1);
    MaskLow(r1, 26, 32);
    ShiftRoundsDown(r1, 26);
    Multiple(Shr(r1, 26), 26);
    if r1 > 0 {
      var k := MsBit(r1);
      if k >= 26 { Pow2Monotone(26, k); }
      if k < 6 { Pow2Monotone(k + 1, 6); } else { Pow2Monotone(6, k); ShrBounds(r1, k - 5, k, k + 1); FiveBits(); }
    }
  }

  lemma FiveBits()
    ensures Pow2(5) == 32 && Pow2(6) == 64
  {
  }
}
