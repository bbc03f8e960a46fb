/** The steps of free_ex: mark the block, merge it with its free neighbours, publish it. */
module Coalesce {
  import opened Words
  import opened Mapping
  import opened Heap
  import opened FreeLists
  import opened Invariant

  /** Only b, not yet on a list, may have free neighbours. */
  ghost predicate CoalescedBut(lo: nat, blk: Blocks, b: nat)
  {
    forall a {:trigger PrevFree(lo, blk, a)} :: a in blk && blk[a].free && a != b && blk[a].prev != b ==> !PrevFree(lo, blk, a)
  }

  /** b is free but on no list; everything else is as it should be. */
  ghost predicate PendingAbs(lo: nat, end: nat, blk: Blocks, lists: Lists, b: nat)
  {
    && Tile(lo, end, blk) && InfoBlock(lo, blk)
    && b in blk && blk[b].free && Next(blk, b) in blk
    && Members(blk, lists) && AllListedBut(blk, lists, {b}) && Unlisted(lists, b)
    && CoalescedBut(lo, blk, b)
  }

  /** The same in memory; the block after b may not know yet. */
  ghost predicate Pending(lo: nat, end: nat, mem: Memory, blk: Blocks, lists: Lists, b: nat)
  {
    && PendingAbs(lo, end, blk, lists, b) && Mapped(lo, end, mem)
    && HeaderAt(lo, mem, blk, b) && HalfHeader(mem, blk, Next(blk, b))
    && HeadersBut(lo, mem, blk, {b, Next(blk, b)})
  }

  lemma SameHeader(lo: nat, mem: Memory, mem': Memory, blk: Blocks, blk': Blocks, a: nat)
    requires a in blk && a in blk' && HeaderAt(lo, mem, blk, a) && blk'[a] == blk[a]
    requires PrevFree(lo, blk', a) == PrevFree(lo, blk, a)
    requires a in mem' && a + 4 in mem' && mem'[a] == mem[a] && mem'[a + 4] == mem[a + 4]
    ensures HeaderAt(lo, mem', blk', a)
  {
  }

  lemma SizeFits(lo: nat, end: nat, blk: Blocks, a: nat)
    requires Bounds(lo, end) && Tile(lo, end, blk) && a in blk
    ensures blk[a].size < SIZE_LIMIT && blk[a].size % 8 == 0 && a % 4 == 0 && 0 < a && a + 4 < WORD
    ensures a != end ==> a + 12 < WORD && blk[a].size >= MIN_BLOCK && a + HDR + blk[a].size <= end && a + 16 <= end
  {
    assert SizedAt(lo, end, blk, a);
    if a != end { Neighbours(lo, end, blk, a); }
    Aligned4(a, lo);
  }

  lemma Aligned4(a: nat, lo: nat)
    requires a % 8 == lo % 8 && lo % 4 == 0
    ensures a % 4 == 0
  {
    var r := lo % 8;
    assert lo == 4 * (2 * (lo / 8)) + r && a == 4 * (2 * (a / 8)) + r;
    assert r == 4 * (lo / 4 - 2 * (lo / 8));
    assert a == 4 * (2 * (a / 8) + (lo / 4 - 2 * (lo / 8)));
  }

  // ----- marking

  function Marked(mem: Memory, b: nat): Memory
    requires b + 4 in mem
  {
    mem[b + 4 := SetBit(0, mem[b + 4])][b + 8 := 0][b + 12 := 0]
  }

  lemma MarkOwnHeader(lo: nat, end: nat, mem: Memory, blk: Blocks, b: nat)
    requires Bounds(lo, end) && Tile(lo, end, blk) && b in blk && b != end && !blk[b].free && HeaderAt(lo, mem, blk, b)
    ensures HeaderAt(lo, Marked(mem, b), SetFree(blk, b, true), b)
  {
    SizeFits(lo, end, blk, b);
    PrevIsInverse(lo, end, blk, b, b);
    hide Tile;
    WordParts(blk[b].size, false, PrevFree(lo, blk, b));
  }

  lemma MarkOtherHeader(lo: nat, end: nat, mem: Memory, blk: Blocks, b: nat, a: nat)
    requires Tile(lo, end, blk) && Live(lo, end, blk, b) && HeaderAt(lo, mem, blk, b)
    requires a in blk && a != b && HalfHeader(mem, blk, a)
    ensures HalfHeader(Marked(mem, b), SetFree(blk, b, true), a)
    ensures a != Next(blk, b) && HeaderAt(lo, mem, blk, a) ==> HeaderAt(lo, Marked(mem, b), SetFree(blk, b, true), a)
  {
    PrevIsInverse(lo, end, blk, a, b);
    BlocksApart(lo, end, blk, a, b);
    hide Tile;
    var mem' := Marked(mem, b);
    assert mem'[a] == mem[a] && mem'[a + 4] == mem[a + 4];
    hide Marked;
    if a != Next(blk, b) && HeaderAt(lo, mem, blk, a) {
      SameHeader(lo, mem, mem', blk, SetFree(blk, b, true), a);
    }
  }

  lemma MarkHeaders(lo: nat, end: nat, mem: Memory, blk: Blocks, b: nat)
    requires Bounds(lo, end) && Tile(lo, end, blk) && Live(lo, end, blk, b)
    requires Next(blk, b) in blk && HalfHeader(mem, blk, Next(blk, b)) && HeadersBut(lo, mem, blk, {Next(blk, b)})
    ensures b + 4 in mem && Next(SetFree(blk, b, true), b) == Next(blk, b)
    ensures HeaderAt(lo, Marked(mem, b), SetFree(blk, b, true), b)
    ensures HalfHeader(Marked(mem, b), SetFree(blk, b, true), Next(blk, b))
    ensures HeadersBut(lo, Marked(mem, b), SetFree(blk, b, true), {b, Next(blk, b)})
  {
    Neighbours(lo, end, blk, b);
    assert HeaderAt(lo, mem, blk, b);
    MarkOwnHeader(lo, end, mem, blk, b);
    forall a | a in blk && a != b
      ensures HalfHeader(Marked(mem, b), SetFree(blk, b, true), a)
      ensures a != Next(blk, b) ==> HeaderAt(lo, Marked(mem, b), SetFree(blk, b, true), a)
    {
      assert a != Next(blk, b) ==> HeaderAt(lo, mem, blk, a);
      MarkOtherHeader(lo, end, mem, blk, b, a);
    }
  }

  lemma MarkLists(lo: nat, blk: Blocks, lists: Lists, b: nat)
    requires Members(blk, lists) && AllListedBut(blk, lists, {}) && Coalesced(lo, blk) && b in blk && !blk[b].free
    ensures var blk' := SetFree(blk, b, true);
      Members(blk', lists) && AllListedBut(blk', lists, {b}) && Unlisted(lists, b) && CoalescedBut(lo, blk', b)
  {
    var blk' := SetFree(blk, b, true);
    forall c: Class | c in lists ensures ValidClass(c) && Member(blk', c, lists[c]) && b !in lists[c] {
      assert Member(blk, c, lists[c]);
    }
    forall a | a in blk' && blk'[a].free && a != b ensures Listed(blk', lists, a) {
      assert Listed(blk, lists, a);
    }
    forall a | a in blk' && blk'[a].free && a != b && blk'[a].prev != b ensures !PrevFree(lo, blk', a) {
      assert !PrevFree(lo, blk, a);
    }
  }

  /** After marking, b is pending. */
  lemma MarkPending(lo: nat, end: nat, mem: Memory, blk: Blocks, lists: Lists, b: nat)
    requires Inv(lo, end, Abs(blk, lists)) && Mapped(lo, end, mem) && Live(lo, end, blk, b)
    requires Next(blk, b) in blk && HalfHeader(mem, blk, Next(blk, b)) && HeadersBut(lo, mem, blk, {Next(blk, b)})
    ensures b + 4 in mem && Pending(lo, end, Marked(mem, b), SetFree(blk, b, true), lists, b)
    ensures Next(blk, b) in blk && Next(SetFree(blk, b, true), b) == Next(blk, b)
  {
    MarkHeaders(lo, end, mem, blk, b);
    TileSetFree(lo, end, blk, b, true);
    MarkLists(lo, blk, lists, b);
    hide Tile, HeaderAt, HalfHeader, HeadersBut, Members, AllListedBut, Unlisted, CoalescedBut, Coalesced;
  }

  // ----- merging two free neighbours, one of them pending and the other, x, listed

  /** Memory after x was unlinked and the size of the block n was added to the header of a. */
  function Grown(mem: Memory, x: nat, a: nat, n: nat): Memory
    requires x + 8 in mem && x + 12 in mem && a + 4 in mem && n + 4 in mem
    requires mem[a + 4] + SizeOf(mem[n + 4]) + HDR < WORD
  {
    Unlink(mem, x)[a + 4 := mem[a + 4] + SizeOf(mem[n + 4]) + HDR]
  }

  /** What merging a with its next block needs of the size words. */
  lemma GrownWord(lo: nat, end: nat, mem: Memory, blk: Blocks, a: nat)
    requires Bounds(lo, end) && Tile(lo, end, blk) && a in blk && a != end && Next(blk, a) in blk && Next(blk, a) != end
    requires HalfHeader(mem, blk, a) && HalfHeader(mem, blk, Next(blk, a))
    ensures var n := Next(blk, a);
      && SizeOf(mem[n + 4]) == blk[n].size && SizeOf(mem[a + 4]) == blk[a].size
      && (FreeFlag(mem[n + 4]) <==> blk[n].free)
      && mem[a + 4] + SizeOf(mem[n + 4]) + HDR < WORD
      && (forall f, p :: mem[a + 4] == Word(blk[a].size, f, p) ==>
           mem[a + 4] + SizeOf(mem[n + 4]) + HDR == Word(blk[a].size + HDR + blk[n].size, f, p))
  {
    var n := Next(blk, a);
    SizeFits(lo, end, blk, a);
    SizeFits(lo, end, blk, n);
    hide Tile;
    WordParts(blk[n].size, blk[n].free, true);
    WordParts(blk[n].size, blk[n].free, false);
    WordParts(blk[a].size, blk[a].free, true);
    WordParts(blk[a].size, blk[a].free, false);
  }

  /** Unlinking a free block changes no header. */
  lemma UnlinkHeaders(lo: nat, end: nat, mem: Memory, blk: Blocks, lists: Lists, c: Class, x: nat, y: nat)
    requires Tile(lo, end, blk) && Members(blk, lists) && c in lists && x in lists[c] && Linked(mem, lists[c])
    requires y in blk
    ensures x + 8 in mem && x + 12 in mem && Unlink(mem, x).Keys == mem.Keys
    ensures y in mem ==> Unlink(mem, x)[y] == mem[y]
    ensures y + 4 in mem ==> Unlink(mem, x)[y + 4] == mem[y + 4]
  {
    HeaderNotLink(lo, end, blk, y);
    hide Tile, Members;
    UnlinkElsewhere(lo, end, mem, blk, lists, c, x, y);
    UnlinkElsewhere(lo, end, mem, blk, lists, c, x, y + 4);
  }

  /** A block outside the merge of a with the block after it keeps its record. */
  lemma AbsorbOutside(lo: nat, end: nat, blk: Blocks, a: nat, y: nat)
    requires Tile(lo, end, blk) && a in blk && a != end && Next(blk, a) in blk && Next(blk, a) != end
    requires Next(blk, Next(blk, a)) in blk && y in blk && y != Next(blk, a)
    ensures y in Absorb(blk, a) && Absorb(blk, a)[y].free == blk[y].free
    ensures y != a ==> Absorb(blk, a)[y].size == blk[y].size
    ensures y != Next(blk, Next(blk, a)) ==> Absorb(blk, a)[y].prev == blk[y].prev
    ensures y != lo && y != Next(blk, Next(blk, a)) ==> blk[y].prev != a && blk[y].prev != Next(blk, a)
    ensures y != Next(blk, Next(blk, a)) ==> PrevFree(lo, Absorb(blk, a), y) == PrevFree(lo, blk, y)
  {
    var n := Next(blk, a);
    var m := Next(blk, n);
    Neighbours(lo, end, blk, a);
    Neighbours(lo, end, blk, n);
    PrevIsInverse(lo, end, blk, y, a);
    PrevIsInverse(lo, end, blk, y, n);
    hide Tile;
    var blk' := Absorb(blk, a);
    if y != lo && y != m {
      var p := blk[y].prev;
      assert p in blk' <==> p in blk;
      assert p in blk ==> blk'[p].free == blk[p].free;
    }
  }

  /** a and the free block after it are to be merged; b is the pending one of the two, x the listed one. */
  ghost predicate MergeableAbs(lo: nat, end: nat, blk: Blocks, lists: Lists, b: nat, x: nat, a: nat)
  {
    && PendingAbs(lo, end, blk, lists, b)
    && a in blk && a != end && Next(blk, a) in blk && Next(blk, a) != end
    && blk[a].free && blk[Next(blk, a)].free && {b, x} == {a, Next(blk, a)} && b != x
    && Listed(blk, lists, x)
  }

  ghost predicate Mergeable(lo: nat, end: nat, mem: Memory, blk: Blocks, lists: Lists, b: nat, x: nat, a: nat)
  {
    && Pending(lo, end, mem, blk, lists, b) && MergeableAbs(lo, end, blk, lists, b, x, a)
    && forall c: Class {:trigger Linked(mem, lists[c])} :: c in lists ==> Linked(mem, lists[c])
  }

  lemma PendingTile(lo: nat, end: nat, mem: Memory, blk: Blocks, lists: Lists, b: nat)
    requires Pending(lo, end, mem, blk, lists, b)
    ensures b in blk && Next(blk, b) in blk && Tile(lo, end, blk) && Members(blk, lists) && PendingAbs(lo, end, blk, lists, b)
    ensures PrevFree(lo, blk, b) ==> b in mem && mem[b] == blk[b].prev
  {
  }

  lemma MergeableParts(lo: nat, end: nat, mem: Memory, blk: Blocks, lists: Lists, b: nat, x: nat, a: nat)
    requires Mergeable(lo, end, mem, blk, lists, b, x, a)
    ensures Tile(lo, end, blk) && Members(blk, lists)
    ensures a in blk && a != end && Next(blk, a) in blk && Next(blk, a) != end && blk[a].free && blk[Next(blk, a)].free
    ensures x in blk && Listed(blk, lists, x) && Linked(mem, lists[MappingInsert(blk[x].size)])
  {
    assert Linked(mem, lists[MappingInsert(blk[x].size)]);
  }

  lemma NextMergeable(lo: nat, end: nat, blk: Blocks, lists: Lists, b: nat)
    requires Bounds(lo, end) && PendingAbs(lo, end, blk, lists, b) && blk[Next(blk, b)].free
    ensures MergeableAbs(lo, end, blk, lists, b, Next(blk, b), b)
  {
    var n := Next(blk, b);
    Neighbours(lo, end, blk, b);
    assert Listed(blk, lists, n);
  }

  lemma PrevMergeable(lo: nat, end: nat, blk: Blocks, lists: Lists, b: nat)
    requires Bounds(lo, end) && PendingAbs(lo, end, blk, lists, b) && PrevFree(lo, blk, b)
    ensures blk[b].prev in blk && Next(blk, blk[b].prev) == b
    ensures MergeableAbs(lo, end, blk, lists, b, blk[b].prev, blk[b].prev)
    ensures !PrevFree(lo, blk, blk[b].prev)
  {
    var p := blk[b].prev;
    assert BackAt(end, blk, b);
    Neighbours(lo, end, blk, p);
    assert Listed(blk, lists, p);
    if p != lo {
      PrevIsInverse(lo, end, blk, p, b);
      Neighbours(lo, end, blk, b);
    }
  }

  /** Nothing free follows a free neighbour of the pending block. */
  lemma NextNotFree(lo: nat, end: nat, blk: Blocks, lists: Lists, b: nat)
    requires PendingAbs(lo, end, blk, lists, b) && blk[Next(blk, b)].free
    ensures Next(blk, Next(blk, b)) in blk && !blk[Next(blk, Next(blk, b))].free
  {
    var n := Next(blk, b);
    Neighbours(lo, end, blk, b);
    Neighbours(lo, end, blk, n);
    assert blk[Next(blk, n)].free ==> PrevFree(lo, blk, Next(blk, n));
  }

  lemma MergeReads(lo: nat, end: nat, mem: Memory, blk: Blocks, lists: Lists, b: nat, x: nat, a: nat)
    requires Bounds(lo, end) && Mergeable(lo, end, mem, blk, lists, b, x, a)
    ensures Next(blk, Next(blk, a)) in blk && a < Next(blk, a) < Next(blk, Next(blk, a))
    ensures HeaderAt(lo, mem, blk, a) && HalfHeader(mem, blk, Next(blk, a)) && HalfHeader(mem, blk, Next(blk, Next(blk, a)))
    ensures forall y :: y in blk && y != a && y != Next(blk, a) && y != Next(blk, Next(blk, a)) ==> HeaderAt(lo, mem, blk, y)
    ensures SizeOf(mem[Next(blk, a) + 4]) == blk[Next(blk, a)].size && SizeOf(mem[a + 4]) == blk[a].size
    ensures mem[a + 4] + SizeOf(mem[Next(blk, a) + 4]) + HDR ==
            Word(blk[a].size + HDR + blk[Next(blk, a)].size, true, PrevFree(lo, blk, a))
    ensures mem[a + 4] + SizeOf(mem[Next(blk, a) + 4]) + HDR < WORD
    ensures x + 8 in mem && x + 12 in mem
  {
    var n := Next(blk, a);
    Neighbours(lo, end, blk, a);
    Neighbours(lo, end, blk, n);
    UnlinkDomain(mem, lists[MappingInsert(blk[x].size)], x);
    var m := Next(blk, n);
    assert b == a ==> HeaderAt(lo, mem, blk, m);
    assert b == n ==> HeaderAt(lo, mem, blk, a);
    assert HeaderAt(lo, mem, blk, a) && HalfHeader(mem, blk, n) && HalfHeader(mem, blk, m);
    GrownWord(lo, end, mem, blk, a);
    assert mem[a + 4] == Word(blk[a].size, true, PrevFree(lo, blk, a));
    forall y | y in blk && y != a && y != n && y != m ensures HeaderAt(lo, mem, blk, y) {
    }
  }

  /** The headers after the merge, one block at a time. */
  lemma MergedHeader(lo: nat, end: nat, mem: Memory, blk: Blocks, lists: Lists, c: Class, x: nat, a: nat, y: nat)
    requires Tile(lo, end, blk) && Members(blk, lists) && c in lists && x in lists[c] && Linked(mem, lists[c])
    requires a in blk && a != end && Next(blk, a) in blk && Next(blk, a) != end && Next(blk, Next(blk, a)) in blk
    requires a + 4 in mem && Next(blk, a) + 4 in mem && mem[a + 4] + SizeOf(mem[Next(blk, a) + 4]) + HDR < WORD
    requires y in blk && y != a && y != Next(blk, a) && HalfHeader(mem, blk, y)
    ensures x + 8 in mem && x + 12 in mem && y in Absorb(blk, a)
    ensures HalfHeader(Grown(mem, x, a, Next(blk, a)), Absorb(blk, a), y)
    ensures y != Next(blk, Next(blk, a)) && HeaderAt(lo, mem, blk, y) ==>
            HeaderAt(lo, Grown(mem, x, a, Next(blk, a)), Absorb(blk, a), y)
  {
    UnlinkHeaders(lo, end, mem, blk, lists, c, x, y);
    AbsorbOutside(lo, end, blk, a, y);
    BlocksApart(lo, end, blk, y, a);
    var mem' := Grown(mem, x, a, Next(blk, a));
    assert mem'[y] == mem[y] && mem'[y + 4] == mem[y + 4];
    assert y in mem' && y + 4 in mem';
    hide Tile, Members, Grown, Linked, SizeOf, Unlink;
    var blk' := Absorb(blk, a);
    assert blk'[y].size == blk[y].size && blk'[y].free == blk[y].free;
    hide Absorb;
  }

  lemma MergedOwnHeader(lo: nat, end: nat, mem: Memory, blk: Blocks, lists: Lists, c: Class, x: nat, a: nat)
    requires Tile(lo, end, blk) && Members(blk, lists) && c in lists && x in lists[c] && Linked(mem, lists[c])
    requires a in blk && a != end && Next(blk, a) in blk && Next(blk, a) != end && Next(blk, Next(blk, a)) in blk
    requires a + 4 in mem && Next(blk, a) + 4 in mem && mem[a + 4] + SizeOf(mem[Next(blk, a) + 4]) + HDR < WORD
    requires mem[a + 4] + SizeOf(mem[Next(blk, a) + 4]) + HDR ==
             Word(blk[a].size + HDR + blk[Next(blk, a)].size, blk[a].free, PrevFree(lo, blk, a))
    requires HeaderAt(lo, mem, blk, a)
    ensures x + 8 in mem && x + 12 in mem && a in Absorb(blk, a)
    ensures HeaderAt(lo, Grown(mem, x, a, Next(blk, a)), Absorb(blk, a), a)
    ensures Next(Absorb(blk, a), a) == Next(blk, Next(blk, a))
    ensures PrevFree(lo, Absorb(blk, a), a) == PrevFree(lo, blk, a)
  {
    UnlinkHeaders(lo, end, mem, blk, lists, c, x, a);
    Neighbours(lo, end, blk, a);
    AbsorbOutside(lo, end, blk, a, a);
    var n := Next(blk, a);
    var m := Next(blk, n);
    hide Tile, Members, Linked;
    assert Absorb(blk, a)[a] == blk[a].(size := blk[a].size + HDR + blk[n].size);
    var mem' := Grown(mem, x, a, n);
    assert mem'[a] == mem[a] && mem'[a + 4] == mem[a + 4] + SizeOf(mem[n + 4]) + HDR;
    hide Grown, Unlink, SizeOf, Absorb;
  }

  lemma MergeHeaders(lo: nat, end: nat, mem: Memory, blk: Blocks, lists: Lists, b: nat, x: nat, a: nat)
    requires Bounds(lo, end) && Mergeable(lo, end, mem, blk, lists, b, x, a)
    ensures Next(blk, Next(blk, a)) in blk && x + 8 in mem && x + 12 in mem && a + 4 in mem && Next(blk, a) + 4 in mem
    ensures mem[a + 4] + SizeOf(mem[Next(blk, a) + 4]) + HDR < WORD
    ensures var mem' := Grown(mem, x, a, Next(blk, a)); var blk' := Absorb(blk, a);
      && a in blk' && Next(blk', a) == Next(blk, Next(blk, a)) && Next(blk', a) in blk'
      && HeaderAt(lo, mem', blk', a) && HalfHeader(mem', blk', Next(blk', a))
      && HeadersBut(lo, mem', blk', {a, Next(blk', a)})
      && PrevFree(lo, blk', a) == PrevFree(lo, blk, a)
  {
    MergeReads(lo, end, mem, blk, lists, b, x, a);
    var n := Next(blk, a);
    var m := Next(blk, n);
    var mem' := Grown(mem, x, a, n);
    var blk' := Absorb(blk, a);
    var c := MappingInsert(blk[x].size);
    assert Linked(mem, lists[c]) && c in lists && x in lists[c];
    MergedOwnHeader(lo, end, mem, blk, lists, c, x, a);
    MergedHeader(lo, end, mem, blk, lists, c, x, a, m);
    forall y | y in blk' && y != a && y != m ensures HeaderAt(lo, mem', blk', y) {
      assert y in blk && y != n;
      MergedHeader(lo, end, mem, blk, lists, c, x, a, y);
    }
  }

  lemma MergeMembers(blk: Blocks, lists: Lists, blk': Blocks, c: Class, x: nat)
    requires Members(blk, lists) && c in lists && x in lists[c]
    requires forall y :: y in blk && blk[y].free && y != x && !Unlisted(lists, y) ==>
               y in blk' && blk'[y].size == blk[y].size && blk'[y].free
    ensures Members(blk', Extracted(lists, c, x)) && Unlisted(Extracted(lists, c, x), x)
  {
    MembersExtracted(blk, lists, c, x);
    var lists' := Extracted(lists, c, x);
    forall d: Class | d in lists' ensures ValidClass(d) && Member(blk', d, lists'[d]) {
      assert Member(blk, d, lists'[d]) && Member(blk, d, lists[d]) && Member(blk, c, lists[c]);
      forall y | y in lists'[d]
        ensures y in blk' && blk'[y].free && blk'[y].size < SIZE_LIMIT && MappingInsert(blk'[y].size) == d
      {
        if d == c { RemoveMembers(lists[c], x, y); }
        assert y in lists[d];
      }
    }
  }

  lemma MergeLists(lo: nat, end: nat, blk: Blocks, lists: Lists, b: nat, x: nat, a: nat)
    requires Bounds(lo, end) && MergeableAbs(lo, end, blk, lists, b, x, a)
    ensures Next(blk, Next(blk, a)) in blk && MappingInsert(blk[x].size) in lists
    ensures var blk' := Absorb(blk, a); var lists' := Extracted(lists, MappingInsert(blk[x].size), x);
      && Members(blk', lists') && AllListedBut(blk', lists', {a}) && Unlisted(lists', a)
  {
    var n := Next(blk, a);
    var c := MappingInsert(blk[x].size);
    Neighbours(lo, end, blk, a);
    Neighbours(lo, end, blk, n);
    var blk' := Absorb(blk, a);
    var lists' := Extracted(lists, c, x);
    forall y | y in blk && y != x && !Unlisted(lists, y) ensures y in blk' && blk'[y].size == blk[y].size && blk'[y].free == blk[y].free {
      assert y != b;
      AbsorbOutside(lo, end, blk, a, y);
    }
    MergeMembers(blk, lists, blk', c, x);
    forall y | y in blk' && blk'[y].free && y != a ensures Listed(blk', lists', y) {
      AbsorbOutside(lo, end, blk, a, y);
      assert Listed(blk, lists, y);
      ListedAfterExtract(blk, lists, c, x, y);
    }
    forall d: Class | d in lists' ensures a !in lists'[d] {
      if a == b && d == c { assert Member(blk, c, lists[c]); RemoveMembers(lists[c], x, a); }
    }
  }

  /** Merging leaves the merged block pending. */
  lemma MergePending(lo: nat, end: nat, mem: Memory, blk: Blocks, lists: Lists, b: nat, x: nat, a: nat)
    requires Bounds(lo, end) && Mergeable(lo, end, mem, blk, lists, b, x, a)
    ensures Next(blk, Next(blk, a)) in blk && x + 8 in mem && x + 12 in mem && a + 4 in mem && Next(blk, a) + 4 in mem
    ensures mem[a + 4] + SizeOf(mem[Next(blk, a) + 4]) + HDR < WORD && MappingInsert(blk[x].size) in lists
    ensures var mem' := Grown(mem, x, a, Next(blk, a)); var blk' := Absorb(blk, a);
      && Pending(lo, end, mem', blk', Extracted(lists, MappingInsert(blk[x].size), x), a)
      && Next(blk', a) == Next(blk, Next(blk, a))
      && PrevFree(lo, blk', a) == PrevFree(lo, blk, a)
      && blk'[Next(blk', a)].free == blk[Next(blk, Next(blk, a))].free
  {
    MergeHeaders(lo, end, mem, blk, lists, b, x, a);
    MergeMapped(lo, end, mem, blk, lists, b, x, a);
    MergePendingAbs(lo, end, blk, lists, b, x, a);
    hide Tile, Mapped, HeaderAt, HalfHeader, HeadersBut, PendingAbs, Mergeable, MergeableAbs, Grown, Extracted, SizeOf, PrevFree;
  }

  lemma MergeMapped(lo: nat, end: nat, mem: Memory, blk: Blocks, lists: Lists, b: nat, x: nat, a: nat)
    requires Bounds(lo, end) && Mergeable(lo, end, mem, blk, lists, b, x, a)
    ensures Next(blk, a) in blk && x + 8 in mem && x + 12 in mem && a + 4 in mem && Next(blk, a) + 4 in mem
    ensures mem[a + 4] + SizeOf(mem[Next(blk, a) + 4]) + HDR < WORD
    ensures Mapped(lo, end, Grown(mem, x, a, Next(blk, a)))
  {
    hide MergeableAbs, PendingAbs, HeaderAt, HalfHeader, HeadersBut, SizeOf;
    MergeReads(lo, end, mem, blk, lists, b, x, a);
    MergeableParts(lo, end, mem, blk, lists, b, x, a);
    UnlinkDomain(mem, lists[MappingInsert(blk[x].size)], x);
  }

  /** Merging leaves the merged block pending, in the abstract heap. */
  lemma MergePendingAbs(lo: nat, end: nat, blk: Blocks, lists: Lists, b: nat, x: nat, a: nat)
    requires Bounds(lo, end) && MergeableAbs(lo, end, blk, lists, b, x, a)
    ensures Next(blk, Next(blk, a)) in blk && MappingInsert(blk[x].size) in lists
    ensures var blk' := Absorb(blk, a);
      && PendingAbs(lo, end, blk', Extracted(lists, MappingInsert(blk[x].size), x), a)
      && Next(blk', a) == Next(blk, Next(blk, a)) && blk'[a].prev == blk[a].prev
      && PrevFree(lo, blk', a) == PrevFree(lo, blk, a)
      && blk'[Next(blk', a)].free == blk[Next(blk, Next(blk, a))].free
  {
    var n := Next(blk, a);
    TileAbsorb(lo, end, blk, a);
    Neighbours(lo, end, blk, n);
    Neighbours(lo, end, blk, a);
    MergeLists(lo, end, blk, lists, b, x, a);
    MergeCoalesced(lo, end, blk, lists, b, x, a);
    AbsorbOutside(lo, end, blk, a, Next(blk, n));
    AbsorbOutside(lo, end, blk, a, a);
    AbsorbOutside(lo, end, blk, a, lo);
    hide Tile, Members, AllListedBut, Unlisted, CoalescedBut;
  }

  lemma MergeCoalesced(lo: nat, end: nat, blk: Blocks, lists: Lists, b: nat, x: nat, a: nat)
    requires Bounds(lo, end) && MergeableAbs(lo, end, blk, lists, b, x, a)
    ensures Next(blk, Next(blk, a)) in blk
    ensures CoalescedBut(lo, Absorb(blk, a), a)
  {
    var n := Next(blk, a);
    var m := Next(blk, n);
    Neighbours(lo, end, blk, a);
    Neighbours(lo, end, blk, n);
    var blk' := Absorb(blk, a);
    forall y | y in blk' && blk'[y].free && y != a && blk'[y].prev != a ensures !PrevFree(lo, blk', y) {
      AbsorbOutside(lo, end, blk, a, y);
      if y != lo {
        assert y != m;
        assert !PrevFree(lo, blk, y);
      }
    }
  }

  // ----- publishing

  /** Memory after b was put at the head of its list, before h, and the block n after it told. */
  function Published(mem: Memory, b: u32, h: u32, n: nat): Memory
    requires n + 4 in Link(mem, b, h)
  {
    var m := Link(mem, b, h);
    m[n + 4 := SetBit(1, m[n + 4])][n := b]
  }

  lemma LinkHeaders(lo: nat, end: nat, mem: Memory, blk: Blocks, lists: Lists, c: Class, b: u32, y: nat)
    requires Tile(lo, end, blk) && Members(blk, lists) && c in lists && b in blk && blk[b].free && y in blk
    ensures var h := if lists[c] == [] then 0 else lists[c][0];
      h < WORD ==>
        && (y in mem ==> y in Link(mem, b, h) && Link(mem, b, h)[y] == mem[y])
        && (y + 4 in mem ==> y + 4 in Link(mem, b, h) && Link(mem, b, h)[y + 4] == mem[y + 4])
  {
    HeaderNotLink(lo, end, blk, y);
    assert Member(blk, c, lists[c]);
    if lists[c] != [] { assert lists[c][0] in lists[c]; }
  }

  lemma PublishedHeader(lo: nat, end: nat, mem: Memory, blk: Blocks, lists: Lists, c: Class, b: u32, h: u32, y: nat)
    requires Bounds(lo, end) && Tile(lo, end, blk) && Members(blk, lists) && c in lists
    requires h == if lists[c] == [] then 0 else lists[c][0]
    requires b in blk && blk[b].free && b != end && y in blk && Next(blk, b) in blk
    requires HalfHeader(mem, blk, Next(blk, b)) && (y != Next(blk, b) ==> HeaderAt(lo, mem, blk, y))
    ensures Next(blk, b) + 4 in Link(mem, b, h)
    ensures HeaderAt(lo, Published(mem, b, h, Next(blk, b)), blk, y)
  {
    var n := Next(blk, b);
    LinkHeaders(lo, end, mem, blk, lists, c, b, n);
    LinkHeaders(lo, end, mem, blk, lists, c, b, y);
    Neighbours(lo, end, blk, b);
    SizeFits(lo, end, blk, n);
    if y == n {
      WordParts(blk[n].size, blk[n].free, true);
      WordParts(blk[n].size, blk[n].free, false);
      hide Tile, Members, Link, Bounds, SizeOf;
    } else {
      if n == end { BlocksApart(lo, end, blk, n, y); } else { BlocksApart(lo, end, blk, y, n); }
      hide Tile, Members, Bounds;
      var m1 := Link(mem, b, h);
      hide Link, SetBit;
    }
  }

  /** Publishing the pending block completes the heap. */
  lemma PublishInv(lo: nat, end: nat, mem: Memory, blk: Blocks, lists: Lists, b: u32, h: u32)
    requires Bounds(lo, end) && Pending(lo, end, mem, blk, lists, b)
    requires !PrevFree(lo, blk, b) && !blk[Next(blk, b)].free
    requires blk[b].size < SIZE_LIMIT && MappingInsert(blk[b].size) in lists
    requires h == var l := lists[MappingInsert(blk[b].size)]; if l == [] then 0 else l[0]
    ensures Next(blk, b) + 4 in Link(mem, b, h)
    ensures var mem' := Published(mem, b, h, Next(blk, b));
      && Mapped(lo, end, mem') && HeadersBut(lo, mem', blk, {})
      && Inv(lo, end, Abs(blk, Inserted(lists, MappingInsert(blk[b].size), b)))
  {
    var c := MappingInsert(blk[b].size);
    var n := Next(blk, b);
    var mem' := Published(mem, b, h, n);
    forall y | y in blk ensures HeaderAt(lo, mem', blk, y) {
      assert y != n && y != b ==> HeaderAt(lo, mem, blk, y);
      PublishedHeader(lo, end, mem, blk, lists, c, b, h, y);
    }
    assert Mapped(lo, end, mem') by { hide PendingAbs; }
    PublishAbs(lo, end, blk, lists, b);
  }

  /** Listing a pending block with no free neighbour completes the abstract heap. */
  lemma PublishAbs(lo: nat, end: nat, blk: Blocks, lists: Lists, b: nat)
    requires Bounds(lo, end) && PendingAbs(lo, end, blk, lists, b)
    requires !PrevFree(lo, blk, b) && !blk[Next(blk, b)].free
    requires blk[b].size < SIZE_LIMIT && MappingInsert(blk[b].size) in lists
    ensures Inv(lo, end, Abs(blk, Inserted(lists, MappingInsert(blk[b].size), b)))
  {
    PublishLists(lo, end, blk, lists, b);
    hide Members, AllListedBut, Unlisted;
    forall a | a in blk && blk[a].free ensures !PrevFree(lo, blk, a) {
      if a != b && blk[a].prev == b {
        PrevIsInverse(lo, end, blk, a, b);
      }
    }
  }

  lemma PublishLists(lo: nat, end: nat, blk: Blocks, lists: Lists, b: nat)
    requires Members(blk, lists) && AllListedBut(blk, lists, {b}) && Unlisted(lists, b) && b in blk && blk[b].free
    requires blk[b].size < SIZE_LIMIT && MappingInsert(blk[b].size) in lists
    ensures var lists' := Inserted(lists, MappingInsert(blk[b].size), b);
      Members(blk, lists') && AllListedBut(blk, lists', {})
  {
    var c := MappingInsert(blk[b].size);
    MembersInserted(blk, lists, c, b);
    var lists' := Inserted(lists, c, b);
    forall a | a in blk && blk[a].free ensures Listed(blk, lists', a) {
      if a != b { assert Listed(blk, lists, a); }
    }
  }

  // ----- the abstract effect

  /** Merge a with the block after it, x of the two being taken off its list. */
  function MergedAbs(s: Abs, a: nat, x: nat): Abs
  {
    if && a in s.blk && Next(s.blk, a) in s.blk && Next(s.blk, Next(s.blk, a)) in s.blk
       && x in s.blk && s.blk[x].size < SIZE_LIMIT && MappingInsert(s.blk[x].size) in s.lists
    then Abs(Absorb(s.blk, a), Extracted(s.lists, MappingInsert(s.blk[x].size), x))
    else s
  }

  /** Put the free block b at the head of the list of its class. */
  function ListedAbs(s: Abs, b: nat): Abs
  {
    if b in s.blk && s.blk[b].size < SIZE_LIMIT && MappingInsert(s.blk[b].size) in s.lists
    then Abs(s.blk, Inserted(s.lists, MappingInsert(s.blk[b].size), b))
    else s
  }

  /** Merge the free block b into a free block before it, then list the result. */
  function FinishedAbs(lo: nat, s: Abs, b: nat): Abs
    requires b in s.blk
  {
    var p := s.blk[b].prev;
    if PrevFree(lo, s.blk, b) then ListedAbs(MergedAbs(s, p, p), p) else ListedAbs(s, b)
  }

  /** free_ex: b becomes free, merges with the free blocks after and before it, and is listed. */
  function FreedAbs(lo: nat, s: Abs, b: nat): Abs
    requires b in s.blk
  {
    var s1 := Abs(SetFree(s.blk, b, true), s.lists);
    var n := Next(s.blk, b);
    if n in s.blk && s.blk[n].free then FinishedAbs(lo, MergedAbs(s1, b, n), b) else FinishedAbs(lo, s1, b)
  }
}
