/** The pool as init_memory_pool and process_area lay it out. */
module NewPool {
  import opened Words
  import opened Mapping
  import opened Heap
  import opened FreeLists
  import opened Invariant
  import opened Coalesce
  import opened Frames

  ghost function EmptyLists(): Lists
  {
    map c | c in AllClasses() :: []
  }

  ghost function AllClasses(): set<Class>
  {
    set f, s | 0 <= f < REAL_FLI && 0 <= s < MAX_SLI :: Class(f, s)
  }

  /** The area is large enough for its record, one block and the sentinel. */
  predicate Roomy(lo: nat, end: nat)
  {
    Bounds(lo, end) && lo + 32 <= end && (end - lo) % 8 == 0
  }

  function InitialBlocks(lo: nat, end: nat, free: bool): Blocks
    requires Roomy(lo, end)
  {
    map[lo := Blk(8, false, 0), lo + 16 := Blk(end - lo - 24, free, lo), end := Blk(0, false, lo + 16)]
  }

  /** One free block holds the whole area. */
  ghost function InitialAbs(lo: nat, end: nat): Abs
    requires Roomy(lo, end)
  {
    Abs(InitialBlocks(lo, end, true), EmptyLists()[MappingInsert(end - lo - 24) := [lo + 16]])
  }

  lemma InitialTile(lo: nat, end: nat, free: bool)
    requires Roomy(lo, end)
    ensures Tile(lo, end, InitialBlocks(lo, end, free))
  {
    var blk := InitialBlocks(lo, end, free);
    assert blk.Keys == {lo, lo + 16, end};
    assert Next(blk, lo) == lo + 16 && Next(blk, lo + 16) == end;
  }

  lemma InitialInv(lo: nat, end: nat)
    requires Roomy(lo, end)
    ensures Inv(lo, end, InitialAbs(lo, end))
  {
    InitialTile(lo, end, true);
    var s := InitialAbs(lo, end);
    assert s.blk.Keys == {lo, lo + 16, end};
    InsertInRange(end - lo - 24);
    forall c: Class | c in s.lists ensures ValidClass(c) && Member(s.blk, c, s.lists[c]) { }
    assert Total(s.lists);
    assert Listed(s.blk, s.lists, lo + 16);
  }

  // ----- geometry

  /** sizeof(tlsf_t) on a 32-bit target, and the same rounded up to BLOCK_ALIGN. */
  const TLSF_SIZE: nat := 3180
  const TLSF_ROUNDED: nat := 3184

  /** size rounded down to BLOCK_ALIGN: size & ~7. */
  function RoundDown(size: u32): (r: u32)
    ensures r % 8 == 0 && r <= size < r + 8
  {
    MaskDown8(size);
    And(size, 0xFFFF_FFF8)
  }

  /** What init_memory_pool accepts. */
  predicate Accepted(pool: u32, poolSize: u32)
  {
    pool != 0 && poolSize != 0 && poolSize >= TLSF_SIZE + HDR * 8 && pool % 4 == 0
  }

  /** The address of the end sentinel: the area starts past the control structure rounded up, and
      its length is what the structure leaves rounded down. */
  function SentinelOf(pool: u32, poolSize: u32): nat
    requires Accepted(pool, poolSize)
  {
    var size := RoundDown(poolSize - TLSF_SIZE);
    var lo := pool + TLSF_ROUNDED;
    lo + 2 * HDR + HDR + RoundDown(size - 3 * HDR - 8)
  }

  /** The sentinel lies inside the pool exactly for these pool sizes; the two roundings are independent. */
  lemma SentinelInside(pool: u32, poolSize: u32)
    requires Accepted(pool, poolSize)
    ensures SentinelOf(pool, poolSize) == pool + TLSF_ROUNDED + RoundDown(poolSize - TLSF_SIZE) - HDR
    ensures SentinelOf(pool, poolSize) + HDR <= pool + poolSize <==> poolSize % 8 < 4
  {
    var size := RoundDown(poolSize - TLSF_SIZE);
    AlreadyRound(size - 32, RoundDown(size - 3 * HDR - 8));
    RoundedSpan(poolSize, size);
  }

  /** The first block's payload: what is left of the pool after the control structure, in whole units of 8 bytes, less 32. */
  lemma FirstSize(pool: u32, poolSize: u32)
    requires Accepted(pool, poolSize)
    ensures SentinelOf(pool, poolSize) - (pool + TLSF_ROUNDED) - 24 == (poolSize - 3180) / 8 * 8 - 32
  {
    SentinelInside(pool, poolSize);
    EightsDown(poolSize - TLSF_SIZE, RoundDown(poolSize - TLSF_SIZE));
    hide RoundDown;
  }

  lemma EightsDown(n: nat, r: nat)
    requires r % 8 == 0 && r <= n < r + 8
    ensures r == n / 8 * 8
  {
  }

  lemma AlreadyRound(n: nat, r: nat)
    requires n % 8 == 0 && r % 8 == 0 && r <= n < r + 8
    ensures r == n
  {
  }

  lemma RoundedSpan(poolSize: nat, size: nat)
    requires poolSize >= TLSF_SIZE && size % 8 == 0 && size <= poolSize - TLSF_SIZE < size + 8
    ensures TLSF_ROUNDED + size <= poolSize <==> poolSize % 8 < 4
  {
    var q, r := poolSize / 8, poolSize % 8;
    assert poolSize == 8 * q + r;
    var k := size / 8;
    assert size == 8 * k;
    assert r < 4 ==> k == q - 398;
    assert r >= 4 ==> k == q - 397;
  }

  /** A pool of 3252 bytes is accepted, and its sentinel lies past its end. */
  lemma SentinelPastPool()
    ensures Accepted(4, 3252) && SentinelOf(4, 3252) + HDR > 4 + 3252
  {
    SentinelInside(4, 3252);
  }

  /** What the area needs to fit a 32-bit address space and the size classes. */
  predicate PoolFits(pool: u32, poolSize: u32)
  {
    && Accepted(pool, poolSize) && poolSize % 8 < 4
    && pool + poolSize <= WORD && poolSize < SIZE_LIMIT
  }

  lemma AreaFits(pool: u32, poolSize: u32)
    requires PoolFits(pool, poolSize)
    ensures var lo, end := pool + TLSF_ROUNDED, SentinelOf(pool, poolSize);
      Accepted(pool, poolSize) && Roomy(lo, end) && lo + 32 <= end < WORD && end + HDR <= pool + poolSize
  {
    SentinelInside(pool, poolSize);
    var size := RoundDown(poolSize - TLSF_SIZE);
    SpanAligned(size);
    assert pool % 4 == 0 ==> (pool + TLSF_ROUNDED) % 4 == 0;
  }

  lemma SpanAligned(size: nat)
    requires size % 8 == 0 && size >= 8
    ensures (size - 8) % 8 == 0
  {
  }

  // ----- the words process_area writes

  function AreaWords(words: Memory, lo: u32, end: u32): Memory
    requires lo + 32 <= end
  {
    words[lo + 4 := 8]
         [lo + 20 := end - lo - 24][lo + 24 := 0][lo + 28 := 0]
         [end := lo + 16][end + 4 := 2]
         [lo + 12 := 0][lo + 8 := end]
  }

  lemma AreaHeaders(words: Memory, lo: u32, end: u32)
    requires Roomy(lo, end) && Mapped(lo, end, words)
    ensures var mem := AreaWords(words, lo, end); var blk := InitialBlocks(lo, end, false);
      && Mapped(lo, end, mem) && Live(lo, end, blk, lo + 16) && Next(blk, lo + 16) == end && end in blk
      && HalfHeader(mem, blk, end) && HeadersBut(lo, mem, blk, {end})
  {
    var mem, blk := AreaWords(words, lo, end), InitialBlocks(lo, end, false);
    assert blk.Keys == {lo, lo + 16, end};
    assert (lo + 4) % 4 == 0 && (lo + 16) % 4 == 0 && (lo + 20) % 4 == 0;
    assert HeaderAt(lo, mem, blk, lo) && HeaderAt(lo, mem, blk, lo + 16);
  }

  lemma EmptyInv(lo: nat, end: nat)
    requires Roomy(lo, end)
    ensures Inv(lo, end, Abs(InitialBlocks(lo, end, false), EmptyLists()))
  {
    InitialTile(lo, end, false);
    var s := Abs(InitialBlocks(lo, end, false), EmptyLists());
    assert s.blk.Keys == {lo, lo + 16, end};
    forall c: Class | c in s.lists ensures ValidClass(c) && Member(s.blk, c, s.lists[c]) { }
  }

  /** The matrix and row bitmaps after memset. */
  function EmptyMatrix(): Matrix
  {
    map f, s | 0 <= f < REAL_FLI && 0 <= s < MAX_SLI :: Class(f, s) := 0
  }

  function EmptyRows(): seq<u32>
  {
    seq(REAL_FLI, _ => 0)
  }

  lemma EmptyIndex(mem: Memory)
    ensures ListsInMemory(mem, EmptyMatrix(), EmptyRows(), 0, EmptyLists())
  {
    forall k: nat ensures !HasBit(0, k) { ZeroHasNoBit(k); }
    assert Total(EmptyLists());
  }

  /** Freeing the one block of the laid-out area gives the new pool. */
  lemma FirstFree(lo: nat, end: nat)
    requires Roomy(lo, end)
    ensures lo + 16 in InitialBlocks(lo, end, false)
    ensures FreedAbs(lo, Abs(InitialBlocks(lo, end, false), EmptyLists()), lo + 16) == InitialAbs(lo, end)
  {
    var blk := InitialBlocks(lo, end, false);
    assert Next(blk, lo + 16) == end && !blk[end].free;
    assert SetFree(blk, lo + 16, true) == InitialBlocks(lo, end, true);
    InsertInRange(end - lo - 24);
    var c := MappingInsert(end - lo - 24);
    assert c == Class(c.fl, c.sl) && c in EmptyLists();
    assert [lo + 16] + EmptyLists()[c] == [lo + 16];
  }

  /** The record of the area survives the first free. */
  lemma InfoKept(lo: nat, end: nat, mem: Memory, mem': Memory)
    requires Roomy(lo, end) && lo + 8 in mem && lo + 12 in mem
    requires PayloadsKept(InitialBlocks(lo, end, false), {lo + 16}, mem, mem')
    ensures lo + 8 in mem' && mem'[lo + 8] == mem[lo + 8] && lo + 12 in mem' && mem'[lo + 12] == mem[lo + 12]
  {
    var blk := InitialBlocks(lo, end, false);
    assert (lo + 8) % 4 == 0 && (lo + 12) % 4 == 0;
    assert PayloadWord(blk, lo, lo + 8) && PayloadWord(blk, lo, lo + 12);
  }

  lemma AreaMapped(pool: u32, poolSize: u32, words: Memory)
    requires PoolFits(pool, poolSize) && Mapped(pool + TLSF_ROUNDED, pool + poolSize - HDR, words)
    ensures Mapped(pool + TLSF_ROUNDED, SentinelOf(pool, poolSize), words)
  {
    SentinelInside(pool, poolSize);
  }
}
