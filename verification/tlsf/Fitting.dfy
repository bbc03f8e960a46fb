/** The heaps the entry points leave, described by what they have changed. */
module Fitting {
  import opened Words
  import opened Mapping
  import opened Heap
  import opened FreeLists
  import opened Invariant
  import opened Coalesce
  import opened Frames
  import opened Carve
  import opened Effects

  /** A well formed heap, and a used block with a used one after it: what is split. */
  ghost predicate Cuttable(lo: nat, end: nat, s: Abs, b: nat, r: nat)
  {
    && Inv(lo, end, s) && Live(lo, end, s.blk, b) && Next(s.blk, b) in s.blk && !s.blk[Next(s.blk, b)].free
    && r % 8 == 0 && r >= MIN_BLOCK && r + SPLIT_MIN <= s.blk[b].size
  }

  lemma CarvedFits(lo: nat, end: nat, s: Abs, b: nat, r: nat)
    requires Cuttable(lo, end, s, b, r)
    ensures Fitted(s, CarvedAbs(s, b, r), b, Next(s.blk, b), [], r)
  {
    var blk' := Split(s.blk, b, r);
    var t := b + HDR + r;
    Neighbours(lo, end, s.blk, b);
    SplitInside(lo, end, s.blk, b, r);
    SizeFits(lo, end, s.blk, b);
    InsertInRange(blk'[t].size);
    var c := MappingInsert(blk'[t].size);
    assert Class(c.fl, c.sl) in s.lists;
    hide Inv, SameOutside, OnlyInside, MappingInsert;
  }

  lemma FittedAfter(s: Abs, s1: Abs, s': Abs, b: nat, m: nat, x: nat, n: nat)
    requires SameOutside(s.blk, s1.blk, b, m) && s1.lists.Keys == s.lists.Keys
    requires forall c: Class {:trigger s1.lists[c]} :: c in s.lists ==> s1.lists[c] == Remove(s.lists[c], x)
    requires Fitted(s1, s', b, m, [], n)
    ensures Fitted(s, s', b, m, [x], n)
  {
    SameOutsideTrans(s.blk, s1.blk, s'.blk, b, m);
    forall c: Class | c in s.lists ensures s'.lists[c] == FrontOf(s'.blk, c, Next(s'.blk, b)) + Without(s.lists[c], [x]) {
      WithoutOne(s1.lists[c], x);
      WithoutOne(s.lists[c], x);
    }
    hide SameOutside;
  }

  /** A block used as it is. */
  lemma WholeFits(lo: nat, end: nat, s: Abs, b: nat, n: nat)
    requires Inv(lo, end, s) && Live(lo, end, s.blk, b) && Next(s.blk, b) in s.blk && !s.blk[Next(s.blk, b)].free
    requires n <= s.blk[b].size < n + SPLIT_MIN && n % 8 == 0
    ensures Fitted(s, s, b, Next(s.blk, b), [], n)
  {
    assert SizedAt(lo, end, s.blk, b);
    assert s.blk[b].size == n || s.blk[b].size == n + 8;
    forall y | y in s.blk && b < y ensures y >= Next(s.blk, b) {
      assert Before(s.blk, b, y);
    }
    forall c: Class | c in s.lists ensures s.lists[c] == FrontOf(s.blk, c, Next(s.blk, b)) + Without(s.lists[c], []) {
      WithoutOne(s.lists[c], b);
    }
  }

  /** The rest of malloc_ex and of realloc_ex in place: split if enough is left. */
  lemma SettledFits(lo: nat, end: nat, s: Abs, b: nat, n: nat)
    requires Inv(lo, end, s) && Live(lo, end, s.blk, b) && Next(s.blk, b) in s.blk && !s.blk[Next(s.blk, b)].free
    requires n <= s.blk[b].size && n % 8 == 0 && n >= MIN_BLOCK
    ensures Fitted(s, if s.blk[b].size >= n + SPLIT_MIN then CarvedAbs(s, b, n) else s, b, Next(s.blk, b), [], n)
  {
    hide Inv, Fitted, CarvedAbs;
    if s.blk[b].size >= n + SPLIT_MIN { CarvedFits(lo, end, s, b, n); } else { WholeFits(lo, end, s, b, n); }
  }

  /** malloc_ex: the block taken is cut to the rounded request. */
  lemma GrantedFits(lo: nat, end: nat, s: Abs, s': Abs, a: nat, size: u32)
    requires Inv(lo, end, s) && Granted(s, s', a, size)
    ensures Allotted(s, s', a, size)
  {
    hide Inv, Fitted, CarvedAbs, MappingSearch, FirstFrom, SameOutside;
    var r := Wanted(size);
    WantedSize(size);
    TakenReady(lo, end, s, a);
    var s1 := Abs(SetFree(s.blk, a, false), Extracted(s.lists, MappingInsert(s.blk[a].size), a));
    SettledFits(lo, end, s1, a, r);
    FittedAfter(s, s1, s', a, Next(s.blk, a), a, r);
  }

  lemma WantedSize(size: u32)
    requires Fits(size)
    ensures Wanted(size) % 8 == 0 && Wanted(size) >= MIN_BLOCK
  {
    SearchIsExact(Adjusted(size), Adjusted(size));
  }

  /** A free block marked used and off its list. */
  lemma TakenReady(lo: nat, end: nat, s: Abs, a: nat)
    requires Inv(lo, end, s) && a in s.blk && s.blk[a].free
    ensures s.blk[a].size < SIZE_LIMIT && MappingInsert(s.blk[a].size) in s.lists
    ensures var s1 := Abs(SetFree(s.blk, a, false), Extracted(s.lists, MappingInsert(s.blk[a].size), a));
      && Inv(lo, end, s1) && Live(lo, end, s1.blk, a) && Next(s1.blk, a) == Next(s.blk, a)
      && Next(s1.blk, a) in s1.blk && !s1.blk[Next(s1.blk, a)].free
      && SameOutside(s.blk, s1.blk, a, Next(s.blk, a)) && s1.lists.Keys == s.lists.Keys
      && forall c: Class {:trigger s1.lists[c]} :: c in s.lists ==> s1.lists[c] == Remove(s.lists[c], a)
  {
    assert Listed(s.blk, s.lists, a);
    TakeLists(lo, end, s.blk, s.lists, a);
    Neighbours(lo, end, s.blk, a);
    NextOfFree(lo, end, s, a);
    ListedOnce(s.blk, s.lists, a);
    assert a != lo;
    hide Tile, Members, AllListedBut, Coalesced, MappingInsert;
  }

  /** No free block follows a free block. */
  lemma NextOfFree(lo: nat, end: nat, s: Abs, a: nat)
    requires Inv(lo, end, s) && a in s.blk && s.blk[a].free
    ensures a != end && a != lo && Next(s.blk, a) in s.blk && !s.blk[Next(s.blk, a)].free && !PrevFree(lo, s.blk, a)
    ensures Next(s.blk, a) != a
  {
    Neighbours(lo, end, s.blk, a);
    assert !PrevFree(lo, s.blk, a);
    assert PrevFree(lo, s.blk, Next(s.blk, a));
  }

  /** realloc_ex in place: the block, with a free block after it, is cut to the size asked for. */
  lemma ResizedFits(lo: nat, end: nat, s: Abs, b: nat, n: u32)
    requires Inv(lo, end, s) && Live(lo, end, s.blk, b) && InPlace(s.blk, b, n) && n % 8 == 0 && n >= MIN_BLOCK
    ensures Refitted(s, ResizedAbs(s, b, n), b, n)
  {
    hide Inv, Fitted, CarvedAbs, SameOutside, MergedAbs;
    InvParts(lo, end, s);
    Neighbours(lo, end, s.blk, b);
    var x := Next(s.blk, b);
    if s.blk[x].free {
      MergedReady(lo, end, s, b);
      var s1 := MergedAbs(s, b, x);
      SettledFits(lo, end, s1, b, n);
      FittedAfter(s, s1, ResizedAbs(s, b, n), b, Next(s.blk, x), x, n);
    } else {
      SettledFits(lo, end, s, b, n);
      NotListed(s.blk, s.lists, x);
      SameOutsideRefl(s.blk, b, x);
      FittedAfter(s, s, ResizedAbs(s, b, n), b, x, x, n);
    }
  }

  lemma SameOutsideRefl(blk: Blocks, from: nat, to: nat)
    ensures SameOutside(blk, blk, from, to)
  {
  }

  lemma MergedReady(lo: nat, end: nat, s: Abs, b: nat)
    requires Inv(lo, end, s) && Live(lo, end, s.blk, b) && Next(s.blk, b) in s.blk && s.blk[Next(s.blk, b)].free
    ensures var x := Next(s.blk, b); var s1 := MergedAbs(s, b, x);
      && Next(s.blk, x) in s.blk && Inv(lo, end, s1) && Live(lo, end, s1.blk, b)
      && s1.blk[b].size == s.blk[b].size + HDR + s.blk[x].size
      && Next(s1.blk, b) == Next(s.blk, x) && Next(s.blk, x) in s1.blk && !s1.blk[Next(s.blk, x)].free
      && SameOutside(s.blk, s1.blk, b, Next(s.blk, x)) && s1.lists.Keys == s.lists.Keys
      && forall c: Class {:trigger s1.lists[c]} :: c in s.lists ==> s1.lists[c] == Remove(s.lists[c], x)
  {
    var x := Next(s.blk, b);
    AbsorbUsedLists(lo, end, s.blk, s.lists, b);
    NextOfFree(lo, end, s, x);
    Neighbours(lo, end, s.blk, b);
    AbsorbInside(lo, end, s.blk, b);
    AbsorbOutside(lo, end, s.blk, b, b);
    AbsorbOutside(lo, end, s.blk, b, Next(s.blk, x));
    ListedOnce(s.blk, s.lists, x);
    hide Inv, Tile, Members, AllListedBut, Coalesced, MappingInsert, SameOutside;
  }

  // ----- free_ex

  /** s1 is s with b as a free block up to m, not listed yet, n being off its list. */
  ghost predicate Freeing(lo: nat, end: nat, s: Abs, s1: Abs, b: nat, n: nat, m: nat)
  {
    && Bounds(lo, end) && PendingAbs(lo, end, s1.blk, s1.lists, b) && Next(s1.blk, b) == m && b < m && !s1.blk[m].free
    && SameOutside(s.blk, s1.blk, b, m) && OnlyInside(s1.blk, b, m, b) && s1.lists.Keys == s.lists.Keys
    && forall c: Class {:trigger s1.lists[c]} :: c in s.lists ==> s1.lists[c] == Remove(s.lists[c], n)
  }

  lemma MarkedFreeing(lo: nat, end: nat, s: Abs, b: nat)
    requires Inv(lo, end, s) && Live(lo, end, s.blk, b)
    ensures var s1 := Abs(SetFree(s.blk, b, true), s.lists); var n := Next(s.blk, b);
      && n in s.blk && n in s1.blk && s1.blk[n] == s.blk[n] && Bounds(lo, end) && PendingAbs(lo, end, s1.blk, s1.lists, b)
      && Next(s1.blk, b) == n && PrevFree(lo, s1.blk, b) == PrevFree(lo, s.blk, b) && s1.blk[b].prev == s.blk[b].prev
      && SameOutside(s.blk, s1.blk, b, n)
      && (!s.blk[n].free ==> Freeing(lo, end, s, s1, b, n, n))
  {
    TileSetFree(lo, end, s.blk, b, true);
    MarkLists(lo, s.blk, s.lists, b);
    Neighbours(lo, end, s.blk, b);
    assert BackAt(end, s.blk, b);
    var n := Next(s.blk, b);
    if !s.blk[n].free { NotListed(s.blk, s.lists, n); }
    forall y | y in s.blk && b < y ensures y >= n { assert Before(s.blk, b, y); }
    hide Tile, Members, AllListedBut, Coalesced, CoalescedBut, Unlisted;
  }

  lemma NextFreeing(lo: nat, end: nat, s: Abs, b: nat)
    requires Inv(lo, end, s) && Live(lo, end, s.blk, b) && Next(s.blk, b) in s.blk && s.blk[Next(s.blk, b)].free
    ensures var n := Next(s.blk, b); var s1 := MergedAbs(Abs(SetFree(s.blk, b, true), s.lists), b, n);
      && Freeing(lo, end, s, s1, b, n, Next(s.blk, n)) && PrevFree(lo, s1.blk, b) == PrevFree(lo, s.blk, b) && s1.blk[b].prev == s.blk[b].prev
  {
    hide Inv, PendingAbs, SameOutside;
    MarkedFreeing(lo, end, s, b);
    var s0 := Abs(SetFree(s.blk, b, true), s.lists);
    var n := Next(s.blk, b);
    NextMergeable(lo, end, s0.blk, s0.lists, b);
    NextNotFree(lo, end, s0.blk, s0.lists, b);
    MergePendingAbs(lo, end, s0.blk, s0.lists, b, n, b);
    PendingParts(lo, end, s0.blk, s0.lists, b);
    MergeableBlocks(lo, end, s0.blk, s0.lists, b, n, b);
    AbsorbInside(lo, end, s0.blk, b);
    ListedOnce(s0.blk, s0.lists, n);
    SameOutsideWider(s.blk, s0.blk, b, n, b, Next(s.blk, n));
    SameOutsideTrans(s.blk, s0.blk, Absorb(s0.blk, b), b, Next(s.blk, n));
  }

  lemma PendingParts(lo: nat, end: nat, blk: Blocks, lists: Lists, b: nat)
    requires PendingAbs(lo, end, blk, lists, b)
    ensures Tile(lo, end, blk) && Members(blk, lists) && Unlisted(lists, b) && b in blk && blk[b].free && Next(blk, b) in blk && b != end
  {
  }

  lemma MergeableBlocks(lo: nat, end: nat, blk: Blocks, lists: Lists, b: nat, x: nat, a: nat)
    requires Bounds(lo, end) && MergeableAbs(lo, end, blk, lists, b, x, a)
    ensures a in blk && a != end && Next(blk, a) in blk && Next(blk, a) != end && Next(blk, Next(blk, a)) in blk && a < Next(blk, a)
    ensures x in blk && blk[x].free && blk[x].size < SIZE_LIMIT && MappingInsert(blk[x].size) in lists
  {
    MergePendingAbs(lo, end, blk, lists, b, x, a);
    SizeFits(lo, end, blk, x);
    hide Tile, Members, AllListedBut, CoalescedBut, Unlisted, Absorb;
  }

  lemma SameOutsideWider(blk: Blocks, blk': Blocks, from: nat, to: nat, from': nat, to': nat)
    requires SameOutside(blk, blk', from, to) && from' <= from && to <= to'
    ensures SameOutside(blk, blk', from', to')
  {
  }

  /** The last step: b is listed, or with the free block before it listed as one. */
  lemma FinishedReleases(lo: nat, end: nat, s: Abs, s1: Abs, b: nat, n: nat, m: nat)
    requires Freeing(lo, end, s, s1, b, n, m)
    ensures var p := if PrevFree(lo, s1.blk, b) then s1.blk[b].prev else b; var s' := FinishedAbs(lo, s1, b);
      && p in s'.blk && s'.blk[p].free && Next(s'.blk, p) == m
      && SameOutside(s.blk, s'.blk, p, m) && OnlyInside(s'.blk, p, m, p) && Relisted(s, s', [n, p], p)
  {
    hide PendingAbs, SameOutside, OnlyInside;
    PendingParts(lo, end, s1.blk, s1.lists, b);
    if PrevFree(lo, s1.blk, b) {
      var p := s1.blk[b].prev;
      PrevMergeable(lo, end, s1.blk, s1.lists, b);
      MergePendingAbs(lo, end, s1.blk, s1.lists, b, p, p);
      MergeableBlocks(lo, end, s1.blk, s1.lists, b, p, p);
      AbsorbInside(lo, end, s1.blk, p);
      ListedOnce(s1.blk, s1.lists, p);
      SameOutsideWider(s.blk, s1.blk, b, m, p, m);
      SameOutsideTrans(s.blk, s1.blk, Absorb(s1.blk, p), p, m);
      ListedReleases(lo, end, s, MergedAbs(s1, p, p), p, n, p);
    } else {
      ListedReleases(lo, end, s, s1, b, n, b);
    }
  }

  lemma ListedReleases(lo: nat, end: nat, s: Abs, s1: Abs, p: nat, n: nat, q: nat)
    requires Bounds(lo, end) && PendingAbs(lo, end, s1.blk, s1.lists, p) && s1.lists.Keys == s.lists.Keys
    requires forall c: Class {:trigger s1.lists[c]} :: c in s.lists ==>
               s1.lists[c] == Remove(Remove(s.lists[c], n), q) || (p == q && s1.lists[c] == Remove(s.lists[c], n))
    ensures ListedAbs(s1, p).blk == s1.blk && Relisted(s, ListedAbs(s1, p), [n, q], p)
  {
    PendingParts(lo, end, s1.blk, s1.lists, p);
    SizeFits(lo, end, s1.blk, p);
    InsertInRange(s1.blk[p].size);
    var d := MappingInsert(s1.blk[p].size);
    assert Class(d.fl, d.sl) in s1.lists;
    hide PendingAbs, Tile, Members, MappingInsert;
    forall c: Class | c in s.lists
      ensures ListedAbs(s1, p).lists[c] == FrontOf(s1.blk, c, p) + Without(s.lists[c], [n, q])
    {
      WithoutTwo(s.lists[c], n, q);
      if s1.lists[c] == Remove(s.lists[c], n) && p == q { RemoveNothing(s1.lists[c], p); }
    }
  }

  /** free_ex: one free block, with its free neighbours, in front of its list. */
  lemma FreedReleases(lo: nat, end: nat, s: Abs, b: nat)
    requires Inv(lo, end, s) && Live(lo, end, s.blk, b)
    ensures Released(lo, s, FreedAbs(lo, s, b), b)
  {
    hide Inv, SameOutside, OnlyInside, FinishedAbs, MergedAbs, Relisted, PrevFree, Freeing;
    MarkedFreeing(lo, end, s, b);
    var n := Next(s.blk, b);
    var s0 := Abs(SetFree(s.blk, b, true), s.lists);
    if s.blk[n].free {
      NextFreeing(lo, end, s, b);
      FinishedReleases(lo, end, s, MergedAbs(s0, b, n), b, n, Next(s.blk, n));
    } else {
      FinishedReleases(lo, end, s, s0, b, n, n);
    }
  }
}
