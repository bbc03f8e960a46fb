/** The allocator: a pool whose words the macros and the entry points rewrite in place. */
module Tlsf {
  import opened Words
  import opened Mapping
  import opened Heap
  import opened FreeLists
  import opened Invariant
  import opened Coalesce
  import opened Frames
  import opened Carve
  import opened Effects
  import opened Fitting
  import opened NewPool

  class Pool {
    // the area behind the control structure: first block and sentinel
    const lo: nat
    const end: nat
    // its words by byte address, and the fields of tlsf_t
    var mem: Memory
    var matrix: Matrix
    var slBitmap: seq<u32>
    var flBitmap: u32
    // the tiling and the lists they stand for
    ghost var blk: Blocks
    ghost var lists: Lists

    ghost predicate Valid()
      reads this
    {
      && Inv(lo, end, Abs(blk, lists))
      && Mapped(lo, end, mem) && HeadersBut(lo, mem, blk, {})
      && ListsInMemory(mem, matrix, slBitmap, flBitmap, lists)
    }

    /** init_memory_pool and process_area on an accepted pool whose words are given: lay the area
        out as one used block and free it. */
    constructor (pool: u32, poolSize: u32, words: Memory)
      requires PoolFits(pool, poolSize)
      requires Mapped(pool + TLSF_ROUNDED, pool + poolSize - HDR, words)
      ensures lo == pool + TLSF_ROUNDED && end == SentinelOf(pool, poolSize) && end + HDR <= pool + poolSize
      ensures Valid() && Roomy(lo, end) && Abs(blk, lists) == InitialAbs(lo, end)
      ensures lo + 8 in mem && mem[lo + 8] == end && lo + 12 in mem && mem[lo + 12] == 0
    {
      hide Inv, ListsInMemory, Mapped, HeadersBut, HalfHeader, PayloadsKept, UsedKept, FreedAbs, InitialAbs, RoundDown, Tile,
           InitialBlocks, EmptyLists, EmptyMatrix, EmptyRows, PoolFits;
      AreaFits(pool, poolSize);
      var size := RoundDown(poolSize - TLSF_SIZE);
      var first: u32 := pool + TLSF_ROUNDED;
      var bsize := RoundDown(size - 3 * HDR - 8);
      var last: u32 := first + 2 * HDR + HDR + bsize;
      lo, end := first, last;
      AreaMapped(pool, poolSize, words);
      AreaHeaders(words, first, last);
      EmptyInv(first, last);
      FirstFree(first, last);
      mem := words[first + 4 := 8][first + 20 := bsize][first + 24 := 0][first + 28 := 0]
                  [last := first + 16][last + 4 := 2][first + 12 := 0][first + 8 := last];
      matrix := EmptyMatrix();
      slBitmap := EmptyRows();
      flBitmap := 0;
      blk := InitialBlocks(first, last, false);
      lists := EmptyLists();
      new;
      EmptyIndex(mem);
      ghost var m0 := mem;
      FreeBlock(lo + 16);
      InfoKept(lo, end, m0, mem);
    }

    /** The part of EXTRACT_BLOCK that rewrites links in memory. */
    method BypassLinks(b: nat)
      requires b + 8 in mem && b + 12 in mem
      modifies this`mem
      ensures mem == Unlink(old(mem), b)
    {
      var prev: u32, next: u32 := mem[b + 8], mem[b + 12];
      if next != 0 {
        mem := mem[next + 8 := prev];
      }
      if prev != 0 {
        mem := mem[prev + 12 := next];
      }
      mem := mem[b + 8 := 0][b + 12 := 0];
    }

    /** The part of both extracting macros that gives list c the head next. */
    method DropHead(c: Class, next: nat)
      requires ValidClass(c) && |slBitmap| == REAL_FLI
      modifies this`matrix, this`slBitmap, this`flBitmap
      ensures matrix == old(matrix)[c := next]
      ensures slBitmap == if next == 0 then old(slBitmap)[c.fl := ClearBit(c.sl, old(slBitmap)[c.fl])] else old(slBitmap)
      ensures flBitmap == if next == 0 && slBitmap[c.fl] == 0 then ClearBit(c.fl, old(flBitmap)) else old(flBitmap)
    {
      matrix := matrix[c := next];
      if matrix[c] == 0 {
        slBitmap := slBitmap[c.fl := ClearBit(c.sl, slBitmap[c.fl])];
        if slBitmap[c.fl] == 0 {
          flBitmap := ClearBit(c.fl, flBitmap);
        }
      }
    }

    /** EXTRACT_BLOCK */
    method ExtractBlock(b: nat, c: Class)
      requires Bounds(lo, end) && Tile(lo, end, blk) && Members(blk, lists) && ListsInMemory(mem, matrix, slBitmap, flBitmap, lists)
      requires c in lists && b in lists[c]
      modifies this
      ensures blk == old(blk) && lists == Extracted(old(lists), c, b)
      ensures b + 8 in old(mem) && b + 12 in old(mem) && mem == Unlink(old(mem), b)
      ensures Members(blk, lists)
      ensures ListsInMemory(mem, matrix, slBitmap, flBitmap, lists)
    {
      hide Tile, Members, ListsInMemory, Unlink;
      ExtractRep(lo, end, mem, matrix, slBitmap, flBitmap, blk, lists, c, b);
      MembersExtracted(blk, lists, c, b);
      var next: u32 := mem[b + 12];
      BypassLinks(b);
      if matrix[c] == b {
        DropHead(c, next);
      }
      lists := Extracted(lists, c, b);
    }

    /** EXTRACT_BLOCK_HDR: b is the head of list c. */
    method ExtractHead(b: nat, c: Class)
      requires 0 < lo && Tile(lo, end, blk) && Members(blk, lists) && ListsInMemory(mem, matrix, slBitmap, flBitmap, lists)
      requires c in lists && lists[c] != [] && b == lists[c][0]
      modifies this
      ensures blk == old(blk) && lists == Extracted(old(lists), c, b)
      ensures b + 8 in old(mem) && b + 12 in old(mem) && mem == Unlink(old(mem), b)
      ensures ListsInMemory(mem, matrix, slBitmap, flBitmap, lists) && Members(blk, lists)
    {
      ListsLinked(mem, matrix, slBitmap, flBitmap, lists);
      assert LinkedAt(mem, lists[c], 0) by { assert Linked(mem, lists[c]); }
      MembersExtracted(blk, lists, c, b);
      hide Tile, Members, ListsInMemory;
      ExtractRep(lo, end, mem, matrix, slBitmap, flBitmap, blk, lists, c, b);
      var next: u32 := mem[b + 12];
      DropHead(c, next);
      if next != 0 {
        mem := mem[next + 8 := 0];
      }
      mem := mem[b + 8 := 0][b + 12 := 0];
      lists := Extracted(lists, c, b);
    }

    /** INSERT_BLOCK */
    method InsertBlock(b: u32, c: Class)
      requires Bounds(lo, end) && Tile(lo, end, blk) && Members(blk, lists) && ListsInMemory(mem, matrix, slBitmap, flBitmap, lists)
      requires c in lists && Unlisted(lists, b) && b + 8 in mem && b + 12 in mem
      requires b in blk && blk[b].free && blk[b].size < SIZE_LIMIT && MappingInsert(blk[b].size) == c
      modifies this
      ensures blk == old(blk) && lists == Inserted(old(lists), c, b)
      ensures c in old(matrix) && old(matrix[c]) < WORD && mem == Link(old(mem), b, old(matrix[c]))
      ensures old(matrix[c]) == if old(lists)[c] == [] then 0 else old(lists)[c][0]
      ensures ListsInMemory(mem, matrix, slBitmap, flBitmap, lists) && Members(blk, lists)
    {
      hide Tile, Members, ListsInMemory, Unlisted, Heads, Link;
      ListsLinked(mem, matrix, slBitmap, flBitmap, lists);
      MembersInserted(blk, lists, c, b);
      HeadFits(lo, end, blk, lists, matrix, c);
      InsertRep(lo, end, mem, matrix, slBitmap, flBitmap, blk, lists, c, b);
      PrependLinks(b, matrix[c]);
      matrix := matrix[c := b];
      slBitmap := slBitmap[c.fl := SetBit(c.sl, slBitmap[c.fl])];
      flBitmap := SetBit(c.fl, flBitmap);
      lists := Inserted(lists, c, b);
    }

    /** The part of INSERT_BLOCK that rewrites links in memory. */
    method PrependLinks(b: u32, head: u32)
      requires b + 8 in mem && b + 12 in mem
      modifies this`mem
      ensures mem == Link(old(mem), b, head)
    {
      mem := mem[b + 8 := 0];
      mem := mem[b + 12 := head];
      if head != 0 {
        mem := mem[head + 8 := b];
      }
    }

    // ----- free_ex

    /** Merge the pending block b with the free block after it. */
    method MergeNext(b: nat)
      requires Bounds(lo, end) && Pending(lo, end, mem, blk, lists, b) && ListsInMemory(mem, matrix, slBitmap, flBitmap, lists)
      requires blk[Next(blk, b)].free
      modifies this
      ensures Next(old(blk), b) in old(blk)
      ensures Abs(blk, lists) == MergedAbs(old(Abs(blk, lists)), b, Next(old(blk), b))
      ensures Pending(lo, end, mem, blk, lists, b) && ListsInMemory(mem, matrix, slBitmap, flBitmap, lists)
      ensures !blk[Next(blk, b)].free && PrevFree(lo, blk, b) == PrevFree(lo, old(blk), b) && blk[b].prev == old(blk)[b].prev
      ensures PayloadsKept(old(blk), {}, old(mem), mem) && UsedKept(old(blk), {}, blk)
    {
      hide Tile, Members, Pending, ListsInMemory, Bounds, PendingAbs, MergeableAbs, Absorb, PayloadsKept, UsedKept, SizeOf, PrevFree, Unlink;
      PendingTile(lo, end, mem, blk, lists, b);
      ghost var n := Next(blk, b);
      ListsLinked(mem, matrix, slBitmap, flBitmap, lists);
      NextMergeable(lo, end, blk, lists, b);
      NextNotFree(lo, end, blk, lists, b);
      MergeStep(lo, end, mem, blk, lists, b, n, b);
      var t := b + HDR + SizeOf(mem[b + 4]);
      var c := MappingInsert(SizeOf(mem[t + 4]));
      ExtractBlock(t, c);
      HeaderWriteKeepsLists(lo, end, mem, matrix, slBitmap, flBitmap, blk, lists, b, b + 4,
                            mem[b + 4] + SizeOf(mem[t + 4]) + HDR);
      mem := mem[b + 4 := mem[b + 4] + SizeOf(mem[t + 4]) + HDR];
      blk := Absorb(blk, b);
    }

    /** Merge the pending block b into the free block p before it. */
    method MergePrev(b: nat) returns (p: nat)
      requires Bounds(lo, end) && Pending(lo, end, mem, blk, lists, b) && ListsInMemory(mem, matrix, slBitmap, flBitmap, lists)
      requires PrevFree(lo, blk, b) && !blk[Next(blk, b)].free
      modifies this
      ensures p == old(blk)[b].prev && p in old(blk) && Next(old(blk), p) == b && Next(old(blk), b) in old(blk)
      ensures Abs(blk, lists) == MergedAbs(old(Abs(blk, lists)), p, p)
      ensures Pending(lo, end, mem, blk, lists, p) && ListsInMemory(mem, matrix, slBitmap, flBitmap, lists)
      ensures !blk[Next(blk, p)].free && !PrevFree(lo, blk, p)
      ensures PayloadsKept(old(blk), {}, old(mem), mem) && UsedKept(old(blk), {}, blk)
    {
      hide Tile, Members, Pending, ListsInMemory, Bounds, PendingAbs, MergeableAbs, Absorb, PayloadsKept, UsedKept, SizeOf, PrevFree, Unlink;
      PendingTile(lo, end, mem, blk, lists, b);
      ListsLinked(mem, matrix, slBitmap, flBitmap, lists);
      PrevMergeable(lo, end, blk, lists, b);
      MergeStep(lo, end, mem, blk, lists, b, blk[b].prev, blk[b].prev);
      p := mem[b];
      var c := MappingInsert(SizeOf(mem[p + 4]));
      ExtractBlock(p, c);
      HeaderWriteKeepsLists(lo, end, mem, matrix, slBitmap, flBitmap, blk, lists, p, p + 4,
                            mem[p + 4] + SizeOf(mem[b + 4]) + HDR);
      mem := mem[p + 4 := mem[p + 4] + SizeOf(mem[b + 4]) + HDR];
      blk := Absorb(blk, p);
    }

    /** Put the pending block b on its list and tell the block after it. */
    method Publish(b: nat)
      requires Bounds(lo, end) && Pending(lo, end, mem, blk, lists, b) && ListsInMemory(mem, matrix, slBitmap, flBitmap, lists)
      requires !blk[Next(blk, b)].free && !PrevFree(lo, blk, b)
      modifies this
      ensures blk == old(blk) && Abs(blk, lists) == ListedAbs(old(Abs(blk, lists)), b) && Valid()
      ensures PayloadsKept(blk, {}, old(mem), mem)
    {
      hide Tile, Members, Pending, ListsInMemory, Bounds, PayloadsKept, SizeOf, PrevFree, Link, Inv, HeadersBut, Mapped, SetBit;
      PendingTile(lo, end, mem, blk, lists, b);
      PublishReads(lo, end, mem, matrix, slBitmap, flBitmap, blk, lists, b);
      var c := MappingInsert(SizeOf(mem[b + 4]));
      ghost var h: u32 := matrix[c];
      PublishInv(lo, end, mem, blk, lists, b, h);
      PublishedKeeps(lo, end, mem, blk, lists, c, b, h);
      InsertBlock(b, c);
      var t := b + HDR + SizeOf(mem[b + 4]);
      HeaderWriteKeepsLists(lo, end, mem, matrix, slBitmap, flBitmap, blk, lists, t, t + 4, SetBit(1, mem[t + 4]));
      mem := mem[t + 4 := SetBit(1, mem[t + 4])];
      HeaderWriteKeepsLists(lo, end, mem, matrix, slBitmap, flBitmap, blk, lists, t, t, b);
      mem := mem[t := b];
    }

    /** The second half of free_ex: merge with the block before, then publish. */
    method FinishFree(b0: nat)
      requires Bounds(lo, end) && Pending(lo, end, mem, blk, lists, b0) && ListsInMemory(mem, matrix, slBitmap, flBitmap, lists)
      requires !blk[Next(blk, b0)].free
      modifies this
      ensures Abs(blk, lists) == FinishedAbs(lo, old(Abs(blk, lists)), b0) && Valid()
      ensures PayloadsKept(old(blk), {}, old(mem), mem) && UsedKept(old(blk), {}, blk)
    {
      hide Tile, Members, Pending, ListsInMemory, PayloadsKept, UsedKept, SizeOf, Link, Inv, HeadersBut, Mapped, SetBit, Bounds,
           MergedAbs, ListedAbs, Listed, PrevFree, FreeFlag, PrevFreeFlag;
      var b := b0;
      ghost var m0, blk0 := mem, blk;
      PendingReads(lo, end, mem, blk, lists, b);
      UsedRefl(blk, {});
      KeptRefl(blk, mem);
      if PrevFreeFlag(mem[b + 4]) {
        b := MergePrev(b);
      }
      ghost var m1 := mem;
      Publish(b);
      KeptTrans(blk0, {}, m0, m1, blk, {}, mem);
    }

    method FreeEx(ptr: nat)
      requires Valid() && (ptr == 0 || (ptr >= HDR && Live(lo, end, blk, ptr - HDR)))
      modifies this
      ensures Valid()
      ensures ptr == 0 ==> unchanged(this)
      ensures ptr != 0 ==> Abs(blk, lists) == FreedAbs(lo, old(Abs(blk, lists)), ptr - HDR)
      ensures ptr != 0 ==> Released(lo, old(Abs(blk, lists)), Abs(blk, lists), ptr - HDR)
      ensures ptr != 0 ==> UsedKept(old(blk), {ptr - HDR}, blk) && PayloadsKept(old(blk), {ptr - HDR}, old(mem), mem)
    {
      hide Released;
      if ptr == 0 {
        return;
      }
      FreedReleases(lo, end, Abs(blk, lists), ptr - HDR);
      NextHalf(lo, end, mem, blk, lists, ptr - HDR);
      FreeBlock(ptr - HDR);
    }

    /** free_ex on a block; the one after it may have been told wrongly about it, as in a new pool. */
    method FreeBlock(b: nat)
      requires Inv(lo, end, Abs(blk, lists)) && Mapped(lo, end, mem) && ListsInMemory(mem, matrix, slBitmap, flBitmap, lists)
      requires Live(lo, end, blk, b) && Next(blk, b) in blk
      requires HalfHeader(mem, blk, Next(blk, b)) && HeadersBut(lo, mem, blk, {Next(blk, b)})
      modifies this
      ensures Valid() && Abs(blk, lists) == FreedAbs(lo, old(Abs(blk, lists)), b)
      ensures UsedKept(old(blk), {b}, blk) && PayloadsKept(old(blk), {b}, old(mem), mem)
    {
      hide Tile, Members, Pending, ListsInMemory, PayloadsKept, UsedKept, SizeOf, Link, Inv, HeadersBut, Mapped, SetBit, Bounds,
           MergedAbs, FinishedAbs, Listed, PrevFree, FreeFlag;
      ghost var m0, s0 := mem, Abs(blk, lists);
      FreeReads(lo, end, mem, matrix, slBitmap, flBitmap, blk, lists, b);
      mem := mem[b + 4 := SetBit(0, mem[b + 4])];
      mem := mem[b + 8 := 0];
      mem := mem[b + 12 := 0];
      blk := SetFree(blk, b, true);
      PendingReads(lo, end, mem, blk, lists, b);
      ghost var m1, blk1 := mem, blk;
      UsedRefl(blk, {});
      KeptRefl(blk, mem);
      var t := b + HDR + SizeOf(mem[b + 4]);
      if FreeFlag(mem[t + 4]) {
        MergeNext(b);
      }
      ghost var m2, blk2 := mem, blk;
      FinishFree(b);
      KeptTrans(blk1, {}, m1, m2, blk2, {}, mem);
      UsedTrans(blk1, {}, blk2, {}, blk);
      KeptTrans(s0.blk, {b}, m0, m1, blk1, {}, mem);
      UsedTrans(s0.blk, {b}, blk1, {}, blk);
    }

    // ----- splitting, as malloc_ex and realloc_ex do it

    /** Turn the tmpSize bytes b has beyond r, up to the block next, into a free block. */
    method SplitOff(b: nat, r: u32, tmpSize: u32, next: nat)
      requires Splittable(lo, end, mem, blk, lists, b, r) && ListsInMemory(mem, matrix, slBitmap, flBitmap, lists)
      requires tmpSize == blk[b].size - r && next == Next(blk, b)
      modifies this
      ensures b in old(blk) && Abs(blk, lists) == CarvedAbs(old(Abs(blk, lists)), b, r) && Valid()
      ensures b in blk && !blk[b].free && blk[b].size == r
      ensures UsedKept(old(blk), {b}, blk) && PayloadsKept(blk, {}, old(mem), mem)
    {
      hide Tile, Members, AllListedBut, Coalesced, Unlisted, HalfHeader, HeadersBut, Inv, Mapped, Loose, PayloadsKept, UsedKept,
           ListsInMemory, RestWord, KeptWord, Link, MappingInsert, Bounds, Splittable;
      SplitFits(lo, end, mem, blk, lists, b, r);
      SplitMembers(lo, end, mem, blk, lists, b, r);
      ListsLinked(mem, matrix, slBitmap, flBitmap, lists);
      var rest: u32 := tmpSize - HDR;
      var t: u32 := b + HDR + r;
      var c := MappingInsert(rest);
      HeadFits(lo, end, blk, lists, matrix, c);
      ghost var h: u32 := matrix[c];
      CarvedInv(lo, end, mem, blk, lists, b, r, t, next, rest, h);
      CarvedKeeps(lo, end, mem, blk, lists, b, r, t, next, rest, h);
      blk := Split(blk, b, r);
      HeaderWriteKeepsLists(lo, end, mem, matrix, slBitmap, flBitmap, blk, lists, t, t + 4, RestWord(rest));
      mem := mem[t + 4 := RestWord(rest)];
      HeaderWriteKeepsLists(lo, end, mem, matrix, slBitmap, flBitmap, blk, lists, next, next, t);
      mem := mem[next := t];
      InsertBlock(t, c);
      HeaderWriteKeepsLists(lo, end, mem, matrix, slBitmap, flBitmap, blk, lists, b, b + 4, KeptWord(r, mem[b + 4]));
      mem := mem[b + 4 := KeptWord(r, mem[b + 4])];
    }

    // ----- malloc_ex

    /** The end of malloc_ex: split b, just extracted, or use all of it. */
    method UseLoose(b: nat, r: u32) returns (p: nat)
      requires Taken(lo, end, mem, blk, lists, b)
      requires ListsInMemory(mem, matrix, slBitmap, flBitmap, lists)
      requires r % 8 == 0 && MIN_BLOCK <= r <= blk[b].size
      modifies this
      ensures Valid() && p == b + HDR
      ensures var s1 := Abs(SetFree(old(blk), b, false), old(lists));
        Abs(blk, lists) == if old(blk)[b].size >= r + SPLIT_MIN then CarvedAbs(s1, b, r) else s1
      ensures b in blk && !blk[b].free && (blk[b].size == r || blk[b].size == r + 8)
      ensures UsedKept(SetFree(old(blk), b, false), {b}, blk) && PayloadsKept(blk, {}, old(mem), mem)
    {
      hide Tile, Members, AllListedBut, Coalesced, Unlisted, HalfHeader, HeadersBut, Inv, Mapped, PayloadsKept, UsedKept,
           ListsInMemory, RestWord, KeptWord, MappingInsert, Bounds, Loose, SizeOf, Word, Taken;
      TakenParts(lo, end, mem, blk, lists, b);
      blk := SetFree(blk, b, false);
      LooseParts(lo, end, mem, blk, lists, b);
      var next := b + HDR + SizeOf(mem[b + 4]);
      var tmpSize: u32 := SizeOf(mem[b + 4]) - r;
      if tmpSize >= SPLIT_MIN {
        assert Splittable(lo, end, mem, blk, lists, b, r);
        SplitOff(b, r, tmpSize, next);
      } else {
        UseWhole(b, next);
      }
      p := b + HDR;
    }

    /** A block used whole: the next one loses PREV_FREE, this one its free bit. */
    method UseWhole(b: nat, next: nat)
      requires Loose(lo, end, mem, blk, lists, b) && ListsInMemory(mem, matrix, slBitmap, flBitmap, lists)
      requires Tile(lo, end, blk) && Members(blk, lists) && b in blk && next == Next(blk, b) && next in blk
      requires b + 4 in mem && mem[b + 4] == Word(blk[b].size, true, PrevFree(lo, blk, b))
      requires next + 4 in mem && mem[next + 4] == Word(blk[next].size, false, true)
      modifies this`mem
      ensures Valid()
      ensures UsedKept(blk, {b}, blk) && PayloadsKept(blk, {}, old(mem), mem)
    {
      hide Tile, Members, AllListedBut, Coalesced, Unlisted, HalfHeader, HeadersBut, Inv, Mapped, PayloadsKept, UsedKept,
           ListsInMemory, MappingInsert, Bounds, Loose, SizeOf, Word;
      SettleWhole(lo, end, mem, blk, lists, b);
      UsedRefl(blk, {b});
      HeaderWriteKeepsLists(lo, end, mem, matrix, slBitmap, flBitmap, blk, lists, next, next + 4, ClearBit(1, mem[next + 4]));
      mem := mem[next + 4 := ClearBit(1, mem[next + 4])];
      HeaderWriteKeepsLists(lo, end, mem, matrix, slBitmap, flBitmap, blk, lists, b, b + 4, ClearBit(0, mem[b + 4]));
      mem := mem[b + 4 := ClearBit(0, mem[b + 4])];
    }

    method MallocEx(size: u32) returns (p: nat)
      requires Valid() && Fits(size)
      modifies this
      ensures Valid()
      ensures p == 0 <==> NoneFits(old(blk), size)
      ensures p == 0 ==> unchanged(this)
      ensures p != 0 ==> p > HDR && Granted(old(Abs(blk, lists)), Abs(blk, lists), p - HDR, size)
                         && Allotted(old(Abs(blk, lists)), Abs(blk, lists), p - HDR, size)
      ensures UsedKept(old(blk), {}, blk) && PayloadsKept(old(blk), {}, old(mem), mem)
    {
      hide Tile, Members, AllListedBut, Coalesced, Unlisted, HalfHeader, HeadersBut, Inv, Mapped, PayloadsKept, UsedKept,
           ListsInMemory, RestWord, KeptWord, Unlink, Link, MappingInsert, MappingSearch, Bounds, Loose, Heads, Bitmaps, FirstFrom,
           CarvedAbs, Word, SizeOf, PrevFree, RowsMatch, Granted, SetFree, NoneFits, Taken, Allotted;
      var n := if size < MIN_BLOCK then MIN_BLOCK else RoundUp(size);
      var (r, c) := MappingSearch(n);
      SearchReady(lo, end, mem, matrix, slBitmap, flBitmap, blk, lists, size);
      var (b, d) := FindSuitable(slBitmap, flBitmap, matrix, c);
      SearchOutcome(lo, end, blk, lists, size, b, d);
      UsedRefl(blk, {});
      KeptRefl(blk, mem);
      if b == 0 {
        return 0;
      }
      ListsLinked(mem, matrix, slBitmap, flBitmap, lists);
      assert Linked(mem, lists[d]);
      TakeReady(lo, end, mem, blk, lists, b);
      TakeKeeps(lo, end, mem, blk, lists, b);
      ghost var blk0, m0, s0 := blk, mem, Abs(blk, lists);
      InvParts(lo, end, Abs(blk, lists));
      ExtractHead(b, d);
      p := UseLoose(b, r);
      UsedAroundTaken(blk0, b, blk);
      GrantedByUse(s0, Abs(blk, lists), b, size);
      GrantedFits(lo, end, s0, Abs(blk, lists), b, size);
      KeptTrans(blk0, {}, m0, Unlink(m0, b), blk, {}, mem);
    }

    // ----- realloc_ex

    /** Unlink the free block after b and count it as part of b. */
    method TakeNext(b: nat, next: nat)
      requires Valid() && Live(lo, end, blk, b) && next == Next(blk, b) && next in blk && blk[next].free
      modifies this
      ensures TookNext(lo, end, old(mem), old(blk), old(lists), b, next)
      ensures mem == Unlink(old(mem), next) && Abs(blk, lists) == MergedAbs(old(Abs(blk, lists)), b, next)
      ensures blk == Absorb(old(blk), b) && lists == Extracted(old(lists), MappingInsert(old(blk)[next].size), next)
      ensures ListsInMemory(mem, matrix, slBitmap, flBitmap, lists)
      ensures PayloadsKept(old(blk), {}, old(mem), mem) && UsedKept(old(blk), {b}, blk)
    {
      hide Tile, Members, AllListedBut, Coalesced, HeadersBut, Mapped, PayloadsKept, UsedKept, ListsInMemory, Unlink,
           Loose, Word, SizeOf, PrevFree, Inv, Heads;
      ListsLinked(mem, matrix, slBitmap, flBitmap, lists);
      AbsorbLoose(lo, end, mem, blk, lists, b, next);
      InvParts(lo, end, Abs(blk, lists));
      var c := MappingInsert(SizeOf(mem[next + 4]));
      assert Linked(mem, lists[c]);
      UnlinkKeeps(lo, end, mem, blk, lists, c, next);
      AbsorbKeeps(lo, end, blk, b);
      ExtractBlock(next, c);
      blk := Absorb(blk, b);
    }

    /** The part of b beyond r bytes, up to the used block next, becomes a free block. */
    method SplitTail(b: nat, r: u32, tmpSize: u32, next: nat)
      requires Loose(lo, end, mem, blk, lists, b) && ListsInMemory(mem, matrix, slBitmap, flBitmap, lists)
      requires r % 8 == 0 && r >= MIN_BLOCK && r + SPLIT_MIN <= blk[b].size
      requires tmpSize == blk[b].size - r && next == Next(blk, b)
      modifies this
      ensures b in old(blk) && Abs(blk, lists) == CarvedAbs(old(Abs(blk, lists)), b, r) && Valid()
      ensures b in blk && !blk[b].free && blk[b].size == r
      ensures UsedKept(old(blk), {b}, blk) && PayloadsKept(blk, {}, old(mem), mem)
    {
      hide Tile, Members, AllListedBut, Coalesced, HeadersBut, Mapped, PayloadsKept, ListsInMemory, Unlink, CarvedAbs,
           Loose, Word, SizeOf, PrevFree, Inv;
      LooseParts(lo, end, mem, blk, lists, b);
      FlagNext(lo, end, mem, blk, lists, b);
      HeaderWriteKeepsLists(lo, end, mem, matrix, slBitmap, flBitmap, blk, lists, next, next + 4, SetBit(1, mem[next + 4]));
      ghost var m0, blk0 := mem, blk;
      mem := mem[next + 4 := SetBit(1, mem[next + 4])];
      ghost var m1 := mem;
      ghost var v := mem[next + 4];
      SplitOff(b, r, tmpSize, next);
      assert !blk0[next].free;
      InvParts(lo, end, Abs(blk, lists));
      HeaderKeeps(lo, end, m0, blk, next, next + 4, v);
      UsedRefl(blk, {});
      KeptTrans(blk, {}, m0, m1, blk, {}, mem);
    }

    /** realloc_ex when the block is large enough already. */
    method Shrink(b: nat, newSize: u32)
      requires Valid() && Live(lo, end, blk, b)
      requires newSize % 8 == 0 && MIN_BLOCK <= newSize <= blk[b].size
      modifies this
      ensures Valid() && Abs(blk, lists) == ResizedAbs(old(Abs(blk, lists)), b, newSize)
      ensures Refitted(old(Abs(blk, lists)), Abs(blk, lists), b, newSize)
      ensures b in blk && !blk[b].free && blk[b].size >= newSize
      ensures UsedKept(old(blk), {b}, blk) && PayloadsKept(old(blk), {b}, old(mem), mem)
      ensures PrefixKept(old(mem), mem, b + HDR, b + HDR, newSize)
    {
      hide Tile, Members, AllListedBut, Coalesced, HeadersBut, Mapped, PayloadsKept, UsedKept, PrefixKept, ListsInMemory, Unlink,
           CarvedAbs, MergedAbs, Loose, Word, SizeOf, PrevFree, Inv, FreeFlag, Refitted;
      ResizedFits(lo, end, Abs(blk, lists), b, newSize);
      LiveLoose(lo, end, mem, blk, lists, b);
      ghost var m0, blk0 := mem, blk;
      KeptRefl(blk, mem);
      UsedRefl(blk, {b});
      var tmpSize: u32 := SizeOf(mem[b + 4]);
      var next := b + HDR + tmpSize;
      if FreeFlag(mem[next + 4]) {
        var size := SizeOf(mem[next + 4]);
        TakeNext(b, next);
        LooseParts(lo, end, mem, blk, lists, b);
        tmpSize := tmpSize + size + HDR;
        next := next + HDR + size;
      }
      PrefixFromPayload(blk0, {}, m0, mem, b, newSize);
      KeptWeaken(blk0, {b}, m0, mem);
      ghost var m1, blk1 := mem, blk;
      tmpSize := tmpSize - newSize;
      if tmpSize >= SPLIT_MIN {
        SplitTail(b, newSize, tmpSize, next);
        UsedTrans(blk0, {b}, blk1, {b}, blk);
        KeptTrans(blk0, {b}, m0, m1, blk, {}, mem);
        PrefixFromPayload(blk, {}, m1, mem, b, newSize);
        PrefixTrans(m0, m1, mem, b + HDR, b + HDR, b + HDR, newSize);
      }
    }

    /** realloc_ex when the free block after b makes it large enough. */
    method Grow(b: nat, newSize: u32)
      requires Valid() && Live(lo, end, blk, b) && Next(blk, b) in blk && blk[Next(blk, b)].free
      requires newSize % 8 == 0 && blk[b].size <= newSize <= blk[b].size + blk[Next(blk, b)].size
      modifies this
      ensures Valid() && Abs(blk, lists) == ResizedAbs(old(Abs(blk, lists)), b, newSize)
      ensures Refitted(old(Abs(blk, lists)), Abs(blk, lists), b, newSize)
      ensures b in blk && !blk[b].free && blk[b].size >= newSize
      ensures UsedKept(old(blk), {b}, blk) && PayloadsKept(old(blk), {b}, old(mem), mem)
      ensures PrefixKept(old(mem), mem, b + HDR, b + HDR, old(blk)[b].size)
    {
      hide Tile, Members, AllListedBut, Coalesced, HeadersBut, Mapped, PayloadsKept, UsedKept, PrefixKept, ListsInMemory, Unlink,
           CarvedAbs, MergedAbs, Loose, Word, SizeOf, PrevFree, Inv, FreeFlag, ClearBit, Refitted;
      LiveLoose(lo, end, mem, blk, lists, b);
      ResizedFits(lo, end, Abs(blk, lists), b, newSize);
      ghost var m0, blk0, os := mem, blk, blk[b].size;
      var next := b + HDR + SizeOf(mem[b + 4]);
      var size := SizeOf(mem[next + 4]);
      TakeNext(b, next);
      LooseParts(lo, end, mem, blk, lists, b);
      ghost var m1, blk1 := mem, blk;
      PrefixFromPayload(blk0, {}, m0, m1, b, os);
      KeptWeaken(blk0, {b}, m0, m1);
      SettleGrown(lo, end, mem, blk, lists, b, os);
      HeaderWriteKeepsLists(lo, end, mem, matrix, slBitmap, flBitmap, blk, lists, b, b + 4, mem[b + 4] + (size + HDR));
      mem := mem[b + 4 := mem[b + 4] + (size + HDR)];
      next := b + HDR + SizeOf(mem[b + 4]);
      HeaderWriteKeepsLists(lo, end, mem, matrix, slBitmap, flBitmap, blk, lists, next, next, b);
      mem := mem[next := b];
      HeaderWriteKeepsLists(lo, end, mem, matrix, slBitmap, flBitmap, blk, lists, next, next + 4, ClearBit(1, mem[next + 4]));
      mem := mem[next + 4 := ClearBit(1, mem[next + 4])];
      ghost var m2 := mem;
      GrownKept(blk0, b, m0, m1, blk1, m2, os);
      var tmpSize: u32 := SizeOf(mem[b + 4]) - newSize;
      if tmpSize >= SPLIT_MIN {
        LiveLoose(lo, end, mem, blk, lists, b);
        SplitTail(b, newSize, tmpSize, next);
        UsedTrans(blk0, {b}, blk1, {b}, blk);
        KeptTrans(blk0, {b}, m0, m2, blk, {}, mem);
        PrefixFromPayload(blk, {}, m2, mem, b, os);
        PrefixTrans(m0, m2, mem, b + HDR, b + HDR, b + HDR, os);
      }
    }

    /** memcpy between the payloads of two live blocks, by words. */
    method CopyPayload(dst: nat, src: nat, len: nat)
      requires Valid() && dst >= HDR && src >= HDR && dst != src
      requires Live(lo, end, blk, dst - HDR) && Live(lo, end, blk, src - HDR)
      requires len % 8 == 0 && len <= blk[dst - HDR].size && len <= blk[src - HDR].size
      modifies this`mem
      ensures Valid()
      ensures PrefixKept(old(mem), mem, src, dst, len) && PayloadsKept(blk, {dst - HDR}, old(mem), mem)
    {
      hide ListsInMemory, Inv, Mapped, HeadersBut, PayloadsKept;
      ghost var m0, d := mem, dst - HDR;
      KeptRefl(blk, mem);
      KeptWeaken(blk, {d}, m0, mem);
      var i := 0;
      while i < len
        invariant i % 4 == 0 && i <= len
        invariant Valid() && PayloadsKept(blk, {d}, m0, mem) && PrefixKept(m0, mem, src, dst, i)
      {
        CopyReads(lo, end, m0, mem, blk, lists, dst - HDR, src - HDR, i);
        ghost var v: u32 := mem[src + i];
        PayloadWrite(lo, end, mem, matrix, slBitmap, flBitmap, blk, lists, d, dst + i, v);
        CopyStep(m0, mem, blk, dst, src, i, len);
        mem := mem[dst + i := mem[src + i]];
        i := i + 4;
      }
    }

    method ReallocEx(ptr: nat, newSize: u32) returns (p: nat)
      requires Valid() && (ptr == 0 || (ptr >= HDR && Live(lo, end, blk, ptr - HDR))) && (newSize != 0 ==> Fits(newSize))
      modifies this
      ensures Valid()
      ensures ptr == 0 && newSize == 0 ==> p == 0 && unchanged(this)
      ensures ptr == 0 && newSize != 0 ==>
        && (p == 0 <==> NoneFits(old(blk), newSize)) && (p == 0 ==> unchanged(this))
        && (p != 0 ==> p > HDR && Granted(old(Abs(blk, lists)), Abs(blk, lists), p - HDR, newSize)
                       && Allotted(old(Abs(blk, lists)), Abs(blk, lists), p - HDR, newSize))
        && UsedKept(old(blk), {}, blk) && PayloadsKept(old(blk), {}, old(mem), mem)
      ensures ptr != 0 && newSize == 0 ==> p == 0 && Abs(blk, lists) == FreedAbs(lo, old(Abs(blk, lists)), ptr - HDR)
                                           && Released(lo, old(Abs(blk, lists)), Abs(blk, lists), ptr - HDR)
      ensures ptr != 0 && newSize != 0 ==>
        Resized(lo, old(Abs(blk, lists)), Abs(blk, lists), old(mem), mem, ptr, p, newSize) && (p == 0 ==> unchanged(this))
      ensures ptr != 0 ==> UsedKept(old(blk), if p == 0 && newSize != 0 then {} else {ptr - HDR}, blk)
                           && PayloadsKept(old(blk), {ptr - HDR}, old(mem), mem)
    {
      hide Inv, Mapped, HeadersBut, ListsInMemory, PayloadsKept, UsedKept, Resized, Granted, FreedAbs, Allotted, Released;
      if ptr == 0 {
        if newSize != 0 {
          p := MallocEx(newSize);
        } else {
          p := 0;
        }
        return;
      } else if newSize == 0 {
        FreeEx(ptr);
        return 0;
      }
      p := ReallocLive(ptr, newSize);
    }

    /** realloc_ex of a live block to a non-zero size. */
    method ReallocLive(ptr: nat, newSize: u32) returns (p: nat)
      requires Valid() && ptr >= HDR && Live(lo, end, blk, ptr - HDR) && newSize != 0 && Fits(newSize)
      modifies this
      ensures Valid()
      ensures Resized(lo, old(Abs(blk, lists)), Abs(blk, lists), old(mem), mem, ptr, p, newSize) && (p == 0 ==> unchanged(this))
      ensures UsedKept(old(blk), if p == 0 then {} else {ptr - HDR}, blk) && PayloadsKept(old(blk), {ptr - HDR}, old(mem), mem)
    {
      hide ListsInMemory, Inv, Mapped, HeadersBut, PayloadsKept, UsedKept, PrefixKept, ResizedAbs, SizeOf, FreeFlag, NoneFits, Moved,
           MappingSearch, Bounds, Loose, Refitted;
      var b := ptr - HDR;
      LiveLoose(lo, end, mem, blk, lists, b);
      AdjustedTwice(newSize);
      var n := if newSize < MIN_BLOCK then MIN_BLOCK else RoundUp(newSize);
      NoneFitsTwice(blk, newSize);
      var tmpSize := SizeOf(mem[b + 4]);
      var next := b + HDR + tmpSize;
      if n <= tmpSize {
        Shrink(b, n);
        return ptr;
      }
      if FreeFlag(mem[next + 4]) && n <= tmpSize + SizeOf(mem[next + 4]) {
        Grow(b, n);
        return ptr;
      }
      p := Move(ptr, n, tmpSize);
    }

    /** realloc_ex when the block cannot grow in place: a new block, a copy of the payload, and a free. */
    method Move(ptr: nat, n: u32, size: u32) returns (p: nat)
      requires Valid() && ptr >= HDR && Live(lo, end, blk, ptr - HDR) && Fits(n) && Adjusted(n) == n
      requires size == blk[ptr - HDR].size && size < n && size % 8 == 0
      modifies this
      ensures Valid()
      ensures p == 0 <==> NoneFits(old(blk), n)
      ensures p == 0 ==> unchanged(this)
      ensures p != 0 ==> Moved(lo, old(Abs(blk, lists)), Abs(blk, lists), ptr, p, n)
      ensures p != 0 ==> p >= HDR && p - HDR in blk && !blk[p - HDR].free && blk[p - HDR].size >= n
                         && PrefixKept(old(mem), mem, ptr, p, size)
      ensures UsedKept(old(blk), if p == 0 then {} else {ptr - HDR}, blk) && PayloadsKept(old(blk), {ptr - HDR}, old(mem), mem)
    {
      hide ListsInMemory, Inv, Mapped, HeadersBut, PayloadsKept, PrefixKept, FreedAbs, FirstFrom, TakenAbs, Allotted, Released;
      ghost var b, m0, s0 := ptr - HDR, mem, Abs(blk, lists);
      UsedRefl(blk, {});
      KeptRefl(blk, mem);
      KeptWeaken(blk, {b}, mem, mem);
      p := MallocEx(n);
      if p == 0 {
        return;
      }
      ghost var d, m1, blk1 := p - HDR, mem, blk;
      LiveAfterGrant(lo, end, s0, Abs(blk, lists), d, b, n);
      InvParts(lo, end, s0);
      CopyPayload(p, ptr, size);
      ghost var m2 := mem;
      FreeEx(ptr);
      MoveKeeps(lo, end, s0.blk, b, d, size, m0, m1, blk1, m2, blk, mem);
    }
  }

  /** init_memory_pool: -1 for a pool it refuses, else the size of the first free block. */
  method InitMemoryPool(pool: u32, poolSize: u32, words: Memory) returns (p: Pool?, size: int)
    requires Accepted(pool, poolSize) ==>
               PoolFits(pool, poolSize) && Mapped(pool + TLSF_ROUNDED, pool + poolSize - HDR, words)
    ensures p == null <==> pool == 0 || pool % 4 != 0 || poolSize < 3244
    ensures p == null ==> size == -1
    ensures p != null ==> fresh(p) && p.Valid() && Roomy(p.lo, p.end) && Abs(p.blk, p.lists) == InitialAbs(p.lo, p.end)
    ensures p != null ==> p.lo == pool + TLSF_ROUNDED && p.end + HDR <= pool + poolSize && size == p.end - p.lo - 24
    ensures p != null ==> p.lo == pool + 3184 && size == (poolSize - 3180) / 8 * 8 - 32
  {
    if pool == 0 || poolSize == 0 || poolSize < TLSF_SIZE + HDR * 8 {
      return null, -1;
    }
    if pool % 4 != 0 {
      return null, -1;
    }
    hide Inv, ListsInMemory, Mapped, HeadersBut, InitialAbs, SentinelOf, PoolFits, Bounds;
    FirstSize(pool, poolSize);
    p := new Pool(pool, poolSize, words);
    size := p.end - p.lo - 24;
  }
}
