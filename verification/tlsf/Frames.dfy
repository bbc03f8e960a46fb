/** Allocator writes stay out of the payload of used blocks. */
module Frames {
  import opened Words
  import opened Mapping
  import opened Heap
  import opened FreeLists
  import opened Invariant
  import opened Coalesce

  predicate PayloadWord(blk: Blocks, u: nat, p: nat)
    requires u in blk
  {
    u + HDR <= p < u + HDR + blk[u].size && p % 4 == 0
  }

  /** No payload word of a used block, other than those excepted, changes. */
  ghost predicate PayloadsKept(blk: Blocks, ex: set<nat>, mem: Memory, mem': Memory)
  {
    forall u, p: nat {:trigger PayloadWord(blk, u, p)} ::
      u in blk && !blk[u].free && u !in ex && PayloadWord(blk, u, p) && p in mem ==> p in mem' && mem'[p] == mem[p]
  }

  /** Every used block, other than those excepted, is still used and has its size. */
  ghost predicate UsedKept(blk: Blocks, ex: set<nat>, blk': Blocks)
  {
    forall u {:trigger blk'[u]} {:trigger blk[u]} :: u in blk && !blk[u].free && u !in ex ==>
      u in blk' && !blk'[u].free && blk'[u].size == blk[u].size
  }

  lemma KeptTrans(blk: Blocks, ex: set<nat>, mem: Memory, mem1: Memory, blk1: Blocks, ex1: set<nat>, mem2: Memory)
    requires PayloadsKept(blk, ex, mem, mem1) && UsedKept(blk, ex, blk1) && PayloadsKept(blk1, ex1, mem1, mem2) && ex1 <= ex
    ensures PayloadsKept(blk, ex, mem, mem2)
  {
    forall u, p: nat | u in blk && !blk[u].free && u !in ex && PayloadWord(blk, u, p) && p in mem
      ensures p in mem2 && mem2[p] == mem[p]
    {
      assert blk1[u].size == blk[u].size;
      assert PayloadWord(blk1, u, p);
    }
  }

  lemma UsedTrans(blk: Blocks, ex: set<nat>, blk1: Blocks, ex1: set<nat>, blk2: Blocks)
    requires UsedKept(blk, ex, blk1) && UsedKept(blk1, ex1, blk2) && ex1 <= ex
    ensures UsedKept(blk, ex, blk2)
  {
    forall u | u in blk && !blk[u].free && u !in ex ensures u in blk2 && !blk2[u].free && blk2[u].size == blk[u].size {
      assert blk1[u].size == blk[u].size;
    }
  }

  /** Payload words are not header words. */
  lemma PayloadNotHeader(lo: nat, end: nat, blk: Blocks, u: nat, p: nat, y: nat)
    requires Tile(lo, end, blk) && u in blk && y in blk && PayloadWord(blk, u, p)
    ensures p != y && p != y + 4
  {
    assert if u < y then Before(blk, u, y) else if y < u then Before(blk, y, u) else true;
  }

  lemma MarkKeeps(lo: nat, end: nat, mem: Memory, blk: Blocks, b: nat)
    requires Tile(lo, end, blk) && b in blk && b != end && b + 4 in mem
    ensures PayloadsKept(blk, {b}, mem, Marked(mem, b)) && UsedKept(blk, {b}, SetFree(blk, b, true))
  {
    forall u, p: nat | u in blk && !blk[u].free && u != b && PayloadWord(blk, u, p) && p in mem
      ensures p in Marked(mem, b) && Marked(mem, b)[p] == mem[p]
    {
      PayloadNotHeader(lo, end, blk, u, p, b);
      BlocksApart(lo, end, blk, u, b);
      assert if u < b then Before(blk, u, b) else true;
    }
  }

  lemma UnlinkKeeps(lo: nat, end: nat, mem: Memory, blk: Blocks, lists: Lists, c: Class, x: nat)
    requires Bounds(lo, end) && Tile(lo, end, blk) && Members(blk, lists) && c in lists && x in lists[c] && Linked(mem, lists[c])
    ensures x + 8 in mem && x + 12 in mem && PayloadsKept(blk, {}, mem, Unlink(mem, x))
  {
    UnlinkDomain(mem, lists[c], x);
    forall u, p: nat | u in blk && !blk[u].free && PayloadWord(blk, u, p) && p in mem
      ensures p in Unlink(mem, x) && Unlink(mem, x)[p] == mem[p]
    {
      SizeFits(lo, end, blk, u);
      PayloadNotLink(lo, end, blk, u, p);
      UnlinkElsewhere(lo, end, mem, blk, lists, c, x, p);
    }
  }

  lemma LinkKeeps(lo: nat, end: nat, mem: Memory, blk: Blocks, lists: Lists, c: Class, b: u32, h: u32)
    requires Bounds(lo, end) && Tile(lo, end, blk) && Members(blk, lists) && c in lists && b in blk && blk[b].free
    requires h == if lists[c] == [] then 0 else lists[c][0]
    ensures PayloadsKept(blk, {}, mem, Link(mem, b, h))
  {
    assert Member(blk, c, lists[c]);
    if lists[c] != [] { assert lists[c][0] in lists[c]; }
    forall u, p: nat | u in blk && !blk[u].free && PayloadWord(blk, u, p) && p in mem
      ensures p in Link(mem, b, h) && Link(mem, b, h)[p] == mem[p]
    {
      SizeFits(lo, end, blk, u);
      PayloadNotLink(lo, end, blk, u, p);
    }
  }

  /** Writing a header word keeps every payload. */
  lemma HeaderKeeps(lo: nat, end: nat, mem: Memory, blk: Blocks, y: nat, q: nat, v: u32)
    requires Tile(lo, end, blk) && y in blk && (q == y || q == y + 4)
    ensures PayloadsKept(blk, {}, mem, mem[q := v])
  {
    forall u, p: nat | u in blk && !blk[u].free && PayloadWord(blk, u, p) && p in mem
      ensures p in mem[q := v] && mem[q := v][p] == mem[p]
    {
      PayloadNotHeader(lo, end, blk, u, p, y);
    }
  }

  lemma AbsorbKeeps(lo: nat, end: nat, blk: Blocks, a: nat)
    requires Tile(lo, end, blk) && a in blk && a != end && Next(blk, a) != end
    requires Next(blk, a) in blk && Next(blk, Next(blk, a)) in blk && blk[Next(blk, a)].free
    ensures UsedKept(blk, {a}, Absorb(blk, a)) && (blk[a].free ==> UsedKept(blk, {}, Absorb(blk, a)))
  {
    forall u | u in blk && !blk[u].free && u != a
      ensures u in Absorb(blk, a) && !Absorb(blk, a)[u].free && Absorb(blk, a)[u].size == blk[u].size
    {
      AbsorbOutside(lo, end, blk, a, u);
    }
  }

  /** Merging keeps every payload. */
  lemma GrownKeeps(lo: nat, end: nat, mem: Memory, blk: Blocks, lists: Lists, b: nat, x: nat, a: nat)
    requires Bounds(lo, end) && Mergeable(lo, end, mem, blk, lists, b, x, a)
    ensures x + 8 in mem && x + 12 in mem && a + 4 in mem && Next(blk, a) + 4 in mem
    ensures mem[a + 4] + SizeOf(mem[Next(blk, a) + 4]) + HDR < WORD
    ensures PayloadsKept(blk, {}, mem, Grown(mem, x, a, Next(blk, a)))
    ensures Next(blk, Next(blk, a)) in blk && UsedKept(blk, {}, Absorb(blk, a))
    ensures Unlink(mem, x)[a + 4 := mem[a + 4] + SizeOf(mem[Next(blk, a) + 4]) + HDR] == Grown(mem, x, a, Next(blk, a))
    ensures Unlink(mem, x).Keys == mem.Keys && Unlink(mem, x)[a + 4] == mem[a + 4]
    ensures Unlink(mem, x)[Next(blk, a) + 4] == mem[Next(blk, a) + 4]
  {
    hide Mergeable, Tile, Members, Linked, Bounds, HeaderAt, HalfHeader, SizeOf, PayloadsKept, UsedKept, Word, Unlink;
    MergeableParts(lo, end, mem, blk, lists, b, x, a);
    var c := MappingInsert(blk[x].size);
    MergeReads(lo, end, mem, blk, lists, b, x, a);
    UnlinkKeeps(lo, end, mem, blk, lists, c, x);
    UnlinkHeaders(lo, end, mem, blk, lists, c, x, a);
    UnlinkHeaders(lo, end, mem, blk, lists, c, x, Next(blk, a));
    AbsorbKeeps(lo, end, blk, a);
    var m1 := Unlink(mem, x);
    var v: u32 := mem[a + 4] + SizeOf(mem[Next(blk, a) + 4]) + HDR;
    HeaderKeeps(lo, end, m1, blk, a, a + 4, v);
    UsedRefl(blk, {});
    KeptTrans(blk, {}, mem, m1, blk, {}, m1[a + 4 := v]);
  }

  /** The merge of a with the block n after it, as free_ex performs it: sizes are read from the
      headers, x is unlinked and the header of a grows; a is then pending. */
  ghost predicate MergeDone(lo: nat, end: nat, mem: Memory, blk: Blocks, lists: Lists, x: nat, a: nat)
  {
    && a in blk && Next(blk, a) in blk && x in blk && blk[x].size < SIZE_LIMIT
    && var n := Next(blk, a); var c := MappingInsert(blk[x].size);
    && a + 4 in mem && n + 4 in mem && SizeOf(mem[a + 4]) == blk[a].size && SizeOf(mem[n + 4]) == blk[n].size
    && c in lists && x in lists[c] && x + 8 in mem && x + 12 in mem && Next(blk, n) in blk
    && var m1 := Unlink(mem, x);
    && a + 4 in m1 && n + 4 in m1 && m1[a + 4] + SizeOf(m1[n + 4]) + HDR < WORD
    && var m2 := m1[a + 4 := m1[a + 4] + SizeOf(m1[n + 4]) + HDR]; var blk' := Absorb(blk, a);
    && Pending(lo, end, m2, blk', Extracted(lists, c, x), a)
    && a in blk' && blk'[a].prev == blk[a].prev && Next(blk', a) == Next(blk, n) && PrevFree(lo, blk', a) == PrevFree(lo, blk, a)
    && Next(blk', a) in blk' && blk'[Next(blk', a)].free == blk[Next(blk, n)].free
    && PayloadsKept(blk, {}, mem, m2) && UsedKept(blk, {}, blk')
  }

  lemma MergeStep(lo: nat, end: nat, mem: Memory, blk: Blocks, lists: Lists, b: nat, x: nat, a: nat)
    requires Bounds(lo, end) && Mergeable(lo, end, mem, blk, lists, b, x, a)
    ensures MergeDone(lo, end, mem, blk, lists, x, a)
  {
    hide Tile, Members, Pending, Mergeable, Bounds, Grown, HeaderAt, HalfHeader, Extracted, Absorb, PayloadsKept, UsedKept,
         SizeOf, Word, PrevFree, Unlink;
    MergeableParts(lo, end, mem, blk, lists, b, x, a);
    MergeReads(lo, end, mem, blk, lists, b, x, a);
    MergePending(lo, end, mem, blk, lists, b, x, a);
    GrownKeeps(lo, end, mem, blk, lists, b, x, a);
    var n, c := Next(blk, a), MappingInsert(blk[x].size);
    PendingTile(lo, end, Grown(mem, x, a, n), Absorb(blk, a), Extracted(lists, c, x), a);
    AbsorbOutside(lo, end, blk, a, a);
  }

  lemma KeptRefl(blk: Blocks, mem: Memory)
    ensures PayloadsKept(blk, {}, mem, mem)
  {
  }

  lemma UsedRefl(blk: Blocks, ex: set<nat>)
    ensures UsedKept(blk, ex, blk)
  {
  }

  /** Publishing keeps every payload. */
  lemma PublishedKeeps(lo: nat, end: nat, mem: Memory, blk: Blocks, lists: Lists, c: Class, b: u32, h: u32)
    requires Bounds(lo, end) && Tile(lo, end, blk) && Members(blk, lists) && c in lists && b in blk && blk[b].free
    requires h == if lists[c] == [] then 0 else lists[c][0]
    requires Next(blk, b) in blk && Next(blk, b) + 4 in Link(mem, b, h)
    ensures PayloadsKept(blk, {}, mem, Published(mem, b, h, Next(blk, b)))
  {
    var n := Next(blk, b);
    var m1 := Link(mem, b, h);
    LinkKeeps(lo, end, mem, blk, lists, c, b, h);
    var m2 := m1[n + 4 := SetBit(1, m1[n + 4])];
    HeaderKeeps(lo, end, m1, blk, n, n + 4, SetBit(1, m1[n + 4]));
    HeaderKeeps(lo, end, m2, blk, n, n, b);
    UsedRefl(blk, {});
    hide Link, SetBit, Tile, Members;
    KeptTrans(blk, {}, mem, m1, blk, {}, m2);
    KeptTrans(blk, {}, mem, m2, blk, {}, m2[n := b]);
  }

  /** What publishing reads: its size, its list and the head of that list. */
  lemma PublishReads(lo: nat, end: nat, mem: Memory, matrix: Matrix, sl: seq<u32>, fl: u32, blk: Blocks, lists: Lists, b: nat)
    requires Bounds(lo, end) && Pending(lo, end, mem, blk, lists, b) && ListsInMemory(mem, matrix, sl, fl, lists)
    ensures b + 4 in mem && b + 8 in mem && b + 12 in mem && b < WORD && b != end && blk[b].free
    ensures SizeOf(mem[b + 4]) == blk[b].size < SIZE_LIMIT && Unlisted(lists, b)
    ensures var c := MappingInsert(blk[b].size);
      && c in lists && c in matrix && matrix[c] < WORD && matrix[c] == (if lists[c] == [] then 0 else lists[c][0])
      && b + 4 in Link(mem, b, matrix[c]) && Link(mem, b, matrix[c])[b + 4] == mem[b + 4]
  {
    SizeFits(lo, end, blk, b);
    assert SizedAt(lo, end, blk, b) && (b + 8) % 4 == 0 && (b + 12) % 4 == 0;
    WordParts(blk[b].size, true, PrevFree(lo, blk, b));
    InsertInRange(blk[b].size);
    var c := MappingInsert(blk[b].size);
    assert Class(c.fl, c.sl) in lists;
    HeadFits(lo, end, blk, lists, matrix, c);
    LinkHeaders(lo, end, mem, blk, lists, c, b, b);
  }

  /** What the headers around a pending block say. */
  lemma PendingReads(lo: nat, end: nat, mem: Memory, blk: Blocks, lists: Lists, b: nat)
    requires Bounds(lo, end) && Pending(lo, end, mem, blk, lists, b)
    ensures b in blk && Next(blk, b) in blk && b + 4 in mem && Next(blk, b) + 4 in mem
    ensures SizeOf(mem[b + 4]) == blk[b].size && (PrevFreeFlag(mem[b + 4]) <==> PrevFree(lo, blk, b))
    ensures FreeFlag(mem[Next(blk, b) + 4]) <==> blk[Next(blk, b)].free
  {
    var n := Next(blk, b);
    SizeFits(lo, end, blk, b);
    SizeFits(lo, end, blk, n);
    WordParts(blk[b].size, true, PrevFree(lo, blk, b));
    WordParts(blk[n].size, blk[n].free, true);
    WordParts(blk[n].size, blk[n].free, false);
    hide Tile, Members, AllListedBut, Unlisted, CoalescedBut, HeadersBut, Mapped;
  }

  /** Marking a live block: it is then pending, and nothing else was disturbed. */
  lemma FreeReads(lo: nat, end: nat, mem: Memory, matrix: Matrix, sl: seq<u32>, fl: u32, blk: Blocks, lists: Lists, b: nat)
    requires Inv(lo, end, Abs(blk, lists)) && Mapped(lo, end, mem) && Live(lo, end, blk, b)
    requires Next(blk, b) in blk && HalfHeader(mem, blk, Next(blk, b)) && HeadersBut(lo, mem, blk, {Next(blk, b)})
    requires ListsInMemory(mem, matrix, sl, fl, lists)
    ensures Bounds(lo, end) && b in blk && b + 4 in mem && b + 8 in mem && b + 12 in mem
    ensures Pending(lo, end, Marked(mem, b), SetFree(blk, b, true), lists, b)
    ensures ListsInMemory(Marked(mem, b), matrix, sl, fl, lists)
    ensures Next(SetFree(blk, b, true), b) == Next(blk, b) && Next(blk, b) in blk && Next(blk, b) != b
    ensures PrevFree(lo, SetFree(blk, b, true), b) == PrevFree(lo, blk, b)
    ensures PayloadsKept(blk, {b}, mem, Marked(mem, b)) && UsedKept(blk, {b}, SetFree(blk, b, true))
  {
    MarkPending(lo, end, mem, blk, lists, b);
    SizeFits(lo, end, blk, b);
    Neighbours(lo, end, blk, b);
    PrevIsInverse(lo, end, blk, b, b);
    assert SizedAt(lo, end, blk, b) && (b + 8) % 4 == 0 && (b + 12) % 4 == 0;
    HeaderNotLink(lo, end, blk, b);
    PayloadNotLink(lo, end, blk, b, b + 8);
    PayloadNotLink(lo, end, blk, b, b + 12);
    MarkKeeps(lo, end, mem, blk, b);
    hide Tile, Pending, ListsInMemory, NotLink, HeadersBut, PayloadsKept, UsedKept, SetBit;
    var m1 := mem[b + 4 := SetBit(0, mem[b + 4])];
    WriteKeepsLists(mem, matrix, sl, fl, blk, lists, b + 4, SetBit(0, mem[b + 4]));
    WriteKeepsLists(m1, matrix, sl, fl, blk, lists, b + 8, 0);
    WriteKeepsLists(m1[b + 8 := 0], matrix, sl, fl, blk, lists, b + 12, 0);
  }

  lemma UsedAroundTaken(blk: Blocks, b: nat, blk': Blocks)
    requires b in blk && blk[b].free && UsedKept(SetFree(blk, b, false), {b}, blk')
    ensures UsedKept(blk, {}, blk')
  {
    forall u | u in blk && !blk[u].free ensures u in blk' && !blk'[u].free && blk'[u].size == blk[u].size {
      assert SetFree(blk, b, false)[u] == blk[u];
    }
  }

  predicate WordKept(mem: Memory, mem': Memory, p: nat, q: nat, k: nat)
  {
    p + k in mem ==> q + k in mem' && mem'[q + k] == mem[p + k]
  }

  /** The len bytes at p are found unchanged at q. */
  ghost predicate PrefixKept(mem: Memory, mem': Memory, p: nat, q: nat, len: nat)
  {
    forall k: nat {:trigger WordKept(mem, mem', p, q, k)} :: k < len && k % 4 == 0 ==> WordKept(mem, mem', p, q, k)
  }

  lemma PrefixFromPayload(blk: Blocks, ex: set<nat>, mem: Memory, mem': Memory, u: nat, len: nat)
    requires PayloadsKept(blk, ex, mem, mem') && u !in ex && u in blk && !blk[u].free && len <= blk[u].size && u % 4 == 0
    ensures PrefixKept(mem, mem', u + HDR, u + HDR, len)
  {
    forall k: nat | k < len && k % 4 == 0 ensures WordKept(mem, mem', u + HDR, u + HDR, k) {
      assert PayloadWord(blk, u, u + HDR + k);
    }
  }

  lemma PrefixTrans(mem: Memory, mem1: Memory, mem2: Memory, p: nat, q: nat, r: nat, len: nat)
    requires PrefixKept(mem, mem1, p, q, len) && PrefixKept(mem1, mem2, q, r, len)
    ensures PrefixKept(mem, mem2, p, r, len)
  {
    forall k: nat | k < len && k % 4 == 0 ensures WordKept(mem, mem2, p, r, k) {
      assert WordKept(mem, mem1, p, q, k) && WordKept(mem1, mem2, q, r, k);
    }
  }

  lemma KeptWeaken(blk: Blocks, ex: set<nat>, mem: Memory, mem': Memory)
    requires PayloadsKept(blk, {}, mem, mem')
    ensures PayloadsKept(blk, ex, mem, mem')
  {
  }

  lemma GrownKept(blk: Blocks, b: nat, mem: Memory, mem1: Memory, blk1: Blocks, mem2: Memory, len: nat)
    requires PayloadsKept(blk, {b}, mem, mem1) && UsedKept(blk, {b}, blk1) && PayloadsKept(blk1, {}, mem1, mem2)
    requires PrefixKept(mem, mem1, b + HDR, b + HDR, len) && b in blk1 && !blk1[b].free && len <= blk1[b].size && b % 4 == 0
    ensures PayloadsKept(blk, {b}, mem, mem2) && PrefixKept(mem, mem2, b + HDR, b + HDR, len)
  {
    KeptTrans(blk, {b}, mem, mem1, blk1, {}, mem2);
    PrefixFromPayload(blk1, {}, mem1, mem2, b, len);
    PrefixTrans(mem, mem1, mem2, b + HDR, b + HDR, b + HDR, len);
  }

  /** In a complete heap the block after b has its header. */
  lemma NextHalf(lo: nat, end: nat, mem: Memory, blk: Blocks, lists: Lists, b: nat)
    requires Inv(lo, end, Abs(blk, lists)) && HeadersBut(lo, mem, blk, {}) && Live(lo, end, blk, b)
    ensures Next(blk, b) in blk && HalfHeader(mem, blk, Next(blk, b)) && HeadersBut(lo, mem, blk, {Next(blk, b)})
  {
    Neighbours(lo, end, blk, b);
    assert HeaderAt(lo, mem, blk, Next(blk, b));
  }
}
