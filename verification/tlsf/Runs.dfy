/** Whole runs of the allocator on the abstract heap. */
module Runs {
  import opened NewPool
  import opened Words
  import opened Mapping
  import opened Heap
  import opened FreeLists
  import opened Invariant
  import opened Coalesce
  import opened Frames
  import opened Carve
  import opened Effects
  import opened Fitting

  // ----- the tiling

  /** Every address of the area lies in exactly one block. */
  lemma {:induction false} TileCovers(lo: nat, end: nat, blk: Blocks, from: nat, p: nat) returns (a: nat)
    requires Tile(lo, end, blk) && from in blk && from <= p < end
    ensures a in blk && a <= p < Next(blk, a)
    ensures forall b :: b in blk && b <= p < Next(blk, b) ==> b == a
    decreases end - from
  {
    assert from != end && ForwardAt(blk, from) && SizedAt(lo, end, blk, from);
    if p < Next(blk, from) {
      a := from;
      forall b | b in blk && b <= p < Next(blk, b) ensures b == a {
        assert b < a ==> Before(blk, b, a);
        assert a < b ==> Before(blk, a, b);
      }
    } else {
      a := TileCovers(lo, end, blk, Next(blk, from), p);
    }
  }

  /** Live payloads are disjoint, inside the area and clear of every header. */
  lemma LiveDisjoint(lo: nat, end: nat, s: Abs, a: nat, b: nat)
    requires Inv(lo, end, s) && Live(lo, end, s.blk, a) && Live(lo, end, s.blk, b) && a != b
    ensures a + HDR + s.blk[a].size <= b || b + HDR + s.blk[b].size <= a
    ensures lo + 16 <= a && a + HDR + s.blk[a].size <= end && a % 4 == 0
  {
    assert if a < b then Before(s.blk, a, b) else Before(s.blk, b, a);
    SizeFits(lo, end, s.blk, a);
    assert SizedAt(lo, end, s.blk, a) && Before(s.blk, lo, a);
  }

  // ----- releasing everything

  ghost predicate NothingLive(lo: nat, end: nat, blk: Blocks)
  {
    forall a :: a in blk ==> !Live(lo, end, blk, a)
  }

  lemma NothingLiveBlocks(lo: nat, end: nat, s: Abs)
    requires Inv(lo, end, s) && Roomy(lo, end) && NothingLive(lo, end, s.blk)
    ensures s.blk == InitialBlocks(lo, end, true)
  {
    var blk := s.blk;
    var b := lo + 16;
    Neighbours(lo, end, blk, lo);
    assert b in blk && b != end && !Live(lo, end, blk, b);
    Neighbours(lo, end, blk, b);
    var m := Next(blk, b);
    PrevIsInverse(lo, end, blk, m, b);
    assert PrevFree(lo, blk, m) && !Live(lo, end, blk, m);
    assert m == end;
    forall y | y in blk ensures y == lo || y == b || y == end {
      assert SizedAt(lo, end, blk, y);
      assert lo < y ==> Before(blk, lo, y);
      assert b < y ==> Before(blk, b, y);
    }
    assert blk.Keys == {lo, b, end};
  }

  lemma NothingLiveLists(lo: nat, end: nat, s: Abs)
    requires Inv(lo, end, s) && Roomy(lo, end) && s.blk == InitialBlocks(lo, end, true)
    ensures s.lists == InitialAbs(lo, end).lists
  {
    var b := lo + 16;
    var lists := s.lists;
    assert Listed(s.blk, lists, b);
    var d := MappingInsert(end - lo - 24);
    assert s.blk.Keys == {lo, b, end};
    forall c: Class | c in lists ensures c in AllClasses() && lists[c] == if c == d then [b] else [] {
      assert Member(s.blk, c, lists[c]);
      forall x | x in lists[c] ensures x == b { }
      if |lists[c]| >= 2 { assert lists[c][0] in lists[c] && lists[c][1] in lists[c]; }
      if |lists[c]| >= 1 { assert lists[c][0] in lists[c]; }
    }
    assert lists.Keys == AllClasses();
  }

  /** When nothing is live the heap is the new pool again: one free block of the original size,
      alone on its list. */
  lemma NothingLiveIsInitial(lo: nat, end: nat, s: Abs)
    requires Inv(lo, end, s) && Roomy(lo, end) && NothingLive(lo, end, s.blk)
    ensures s == InitialAbs(lo, end)
  {
    NothingLiveBlocks(lo, end, s);
    NothingLiveLists(lo, end, s);
  }

  // ----- each operation keeps the invariant, and changes the used blocks as it should

  /** The used blocks are the same but for those excepted, which are used no more. */
  ghost predicate UsedExactly(blk: Blocks, ex: set<nat>, blk': Blocks)
  {
    && UsedKept(blk, ex, blk')
    && forall u {:trigger blk'[u]} :: u in blk' && !blk'[u].free ==> u in blk && !blk[u].free && u !in ex
  }

  lemma UsedMerged(lo: nat, end: nat, blk: Blocks, a: nat)
    requires Tile(lo, end, blk) && a in blk && a != end && Next(blk, a) in blk && Next(blk, a) != end
    requires Next(blk, Next(blk, a)) in blk && blk[Next(blk, a)].free && blk[a].free
    ensures UsedExactly(blk, {}, Absorb(blk, a))
  {
    AbsorbKeeps(lo, end, blk, a);
    forall u | u in Absorb(blk, a) && !Absorb(blk, a)[u].free ensures u in blk && !blk[u].free {
      AbsorbOutside(lo, end, blk, a, u);
    }
  }

  lemma UsedExactlyTrans(blk: Blocks, ex: set<nat>, blk1: Blocks, blk2: Blocks)
    requires UsedExactly(blk, ex, blk1) && UsedExactly(blk1, {}, blk2)
    ensures UsedExactly(blk, ex, blk2)
  {
    UsedTrans(blk, ex, blk1, {}, blk2);
    forall u | u in blk2 && !blk2[u].free ensures u in blk && !blk[u].free && u !in ex {
      assert !blk1[u].free;
    }
  }

  lemma FinishedInv(lo: nat, end: nat, s: Abs, b: nat)
    requires Bounds(lo, end) && PendingAbs(lo, end, s.blk, s.lists, b) && !s.blk[Next(s.blk, b)].free
    ensures Inv(lo, end, FinishedAbs(lo, s, b)) && UsedExactly(s.blk, {}, FinishedAbs(lo, s, b).blk)
  {
    UsedRefl(s.blk, {});
    if PrevFree(lo, s.blk, b) {
      PrevMergeable(lo, end, s.blk, s.lists, b);
      var p := s.blk[b].prev;
      MergePendingAbs(lo, end, s.blk, s.lists, b, p, p);
      UsedMerged(lo, end, s.blk, p);
      var s1 := MergedAbs(s, p, p);
      Publishable(lo, end, s1, p);
      PublishAbs(lo, end, s1.blk, s1.lists, p);
    } else {
      Publishable(lo, end, s, b);
      PublishAbs(lo, end, s.blk, s.lists, b);
    }
  }

  lemma Publishable(lo: nat, end: nat, s: Abs, b: nat)
    requires Bounds(lo, end) && PendingAbs(lo, end, s.blk, s.lists, b)
    ensures s.blk[b].size < SIZE_LIMIT && MappingInsert(s.blk[b].size) in s.lists
  {
    SizeFits(lo, end, s.blk, b);
    InsertInRange(s.blk[b].size);
    var c := MappingInsert(s.blk[b].size);
    assert Class(c.fl, c.sl) in s.lists;
  }

  /** free_ex keeps the heap well formed and makes just its block unused. */
  lemma FreedInv(lo: nat, end: nat, s: Abs, b: nat)
    requires Inv(lo, end, s) && Live(lo, end, s.blk, b)
    ensures Inv(lo, end, FreedAbs(lo, s, b)) && UsedExactly(s.blk, {b}, FreedAbs(lo, s, b).blk)
  {
    TileSetFree(lo, end, s.blk, b, true);
    MarkLists(lo, s.blk, s.lists, b);
    Neighbours(lo, end, s.blk, b);
    var s1 := Abs(SetFree(s.blk, b, true), s.lists);
    assert Next(s1.blk, b) == Next(s.blk, b);
    assert UsedExactly(s.blk, {b}, s1.blk);
    if s.blk[Next(s.blk, b)].free {
      NextMergeable(lo, end, s1.blk, s1.lists, b);
      NextNotFree(lo, end, s1.blk, s1.lists, b);
      MergePendingAbs(lo, end, s1.blk, s1.lists, b, Next(s1.blk, b), b);
      UsedMerged(lo, end, s1.blk, b);
      var s2 := MergedAbs(s1, b, Next(s1.blk, b));
      FinishedInv(lo, end, s2, b);
      UsedExactlyTrans(s.blk, {b}, s1.blk, s2.blk);
      UsedExactlyTrans(s.blk, {b}, s2.blk, FinishedAbs(lo, s2, b).blk);
    } else {
      FinishedInv(lo, end, s1, b);
      UsedExactlyTrans(s.blk, {b}, s1.blk, FinishedAbs(lo, s1, b).blk);
    }
  }

  /** Releasing every live block, in any order, gives back the new pool. */
  function ReleaseAll(lo: nat, s: Abs, order: seq<nat>): Abs
    decreases |order|
  {
    if order == [] then s
    else if order[0] !in s.blk then s
    else ReleaseAll(lo, FreedAbs(lo, s, order[0]), order[1..])
  }

  lemma {:induction false} ReleaseAllRestores(lo: nat, end: nat, s: Abs, order: seq<nat>)
    requires Inv(lo, end, s) && Roomy(lo, end) && Distinct(order)
    requires forall a :: a in order <==> Live(lo, end, s.blk, a)
    ensures ReleaseAll(lo, s, order) == InitialAbs(lo, end)
    decreases |order|
  {
    if order == [] {
      NothingLiveIsInitial(lo, end, s);
    } else {
      var b := order[0];
      assert b in order;
      FreedInv(lo, end, s, b);
      var s' := FreedAbs(lo, s, b);
      var rest := order[1..];
      assert forall a :: a in order <==> a == b || a in rest;
      assert b !in rest;
      forall a ensures a in rest <==> Live(lo, end, s'.blk, a) {
        assert a in order <==> Live(lo, end, s.blk, a);
        assert a in s'.blk ==> !s'.blk[a].free || s'.blk[a].free;
      }
      assert Distinct(rest);
      ReleaseAllRestores(lo, end, s', rest);
    }
  }

  /** Splitting a used block keeps the heap well formed. */
  lemma CarvedAbsInv(lo: nat, end: nat, s: Abs, b: nat, r: nat)
    requires Inv(lo, end, s) && Live(lo, end, s.blk, b) && Next(s.blk, b) in s.blk && !s.blk[Next(s.blk, b)].free
    requires r % 8 == 0 && r >= MIN_BLOCK && r + SPLIT_MIN <= s.blk[b].size
    ensures Inv(lo, end, CarvedAbs(s, b, r))
    ensures UsedKept(s.blk, {b}, CarvedAbs(s, b, r).blk)
    ensures b in CarvedAbs(s, b, r).blk && !CarvedAbs(s, b, r).blk[b].free && CarvedAbs(s, b, r).blk[b].size == r
    ensures forall u :: u in CarvedAbs(s, b, r).blk && !CarvedAbs(s, b, r).blk[u].free ==> u in s.blk && !s.blk[u].free
  {
    var blk' := Split(s.blk, b, r);
    var t := b + HDR + r;
    TileSplit(lo, end, s.blk, b, r);
    SplitLists(lo, end, s.blk, s.lists, b, r);
    Neighbours(lo, end, s.blk, b);
    assert SizedAt(lo, end, s.blk, b);
    SizeFits(lo, end, blk', t);
    InsertInRange(blk'[t].size);
    var c := MappingInsert(blk'[t].size);
    assert Class(c.fl, c.sl) in s.lists;
    PublishLists(lo, end, blk', s.lists, t);
    SplitOutside(lo, end, s.blk, b, r, lo);
    forall u | u in s.blk ensures u in blk' && blk'[u].free == s.blk[u].free && (u != b ==> blk'[u].size == s.blk[u].size) {
      SplitOutside(lo, end, s.blk, b, r, u);
    }
  }

  /** A successful malloc_ex keeps the heap well formed; its block is newly used, at least as
      large as asked, and no other block changes hands. */
  lemma GrantedInv(lo: nat, end: nat, s: Abs, s': Abs, a: nat, size: u32)
    requires Inv(lo, end, s) && Granted(s, s', a, size)
    ensures Inv(lo, end, s') && UsedKept(s.blk, {}, s'.blk) && Live(lo, end, s'.blk, a) && s'.blk[a].size >= size
    ensures forall u :: u in s'.blk && !s'.blk[u].free && u != a ==> u in s.blk && !s.blk[u].free
  {
    var r := Wanted(size);
    var d := MappingInsert(s.blk[a].size);
    SearchIsExact(Adjusted(size), Adjusted(size));
    assert Listed(s.blk, s.lists, a);
    TakeLists(lo, end, s.blk, s.lists, a);
    var s1 := Abs(SetFree(s.blk, a, false), Extracted(s.lists, d, a));
    Neighbours(lo, end, s.blk, a);
    NextOfFree(lo, end, s, a);
    assert Live(lo, end, s1.blk, a);
    assert Next(s1.blk, a) == Next(s.blk, a);
    if s.blk[a].size >= r + SPLIT_MIN {
      CarvedAbsInv(lo, end, s1, a, r);
      UsedAroundTaken(s.blk, a, s'.blk);
    } else {
      UsedAroundTaken(s.blk, a, s1.blk) by { UsedRefl(s1.blk, {a}); }
    }
  }

  lemma FittedSize(s: Abs, s': Abs, b: nat, m: nat, out: seq<nat>, n: nat)
    requires Fitted(s, s', b, m, out, n)
    ensures b in s'.blk && (s'.blk[b].size == n || s'.blk[b].size == n + 8)
  {
  }

  /** Resizing in place keeps the heap well formed and resizes only its block. */
  lemma ResizedInv(lo: nat, end: nat, s: Abs, b: nat, n: u32)
    requires Inv(lo, end, s) && Live(lo, end, s.blk, b) && InPlace(s.blk, b, n) && n % 8 == 0 && n >= MIN_BLOCK
    ensures var s' := ResizedAbs(s, b, n);
      && Inv(lo, end, s') && UsedKept(s.blk, {b}, s'.blk) && Live(lo, end, s'.blk, b) && Refitted(s, s', b, n)
      && (s'.blk[b].size == n || s'.blk[b].size == n + 8)
      && forall u :: u in s'.blk && !s'.blk[u].free ==> u in s.blk && !s.blk[u].free
  {
    ResizedFits(lo, end, s, b, n);
    FittedSize(s, ResizedAbs(s, b, n), b, RoomEnd(s.blk, b), [Next(s.blk, b)], n);
    hide Refitted;
    Neighbours(lo, end, s.blk, b);
    UsedRefl(s.blk, {b});
    var x := Next(s.blk, b);
    if s.blk[x].free {
      NextOfFree(lo, end, s, x);
      AbsorbUsedLists(lo, end, s.blk, s.lists, b);
      AbsorbKeeps(lo, end, s.blk, b);
      var s1 := MergedAbs(s, b, x);
      Neighbours(lo, end, s.blk, x);
      AbsorbOutside(lo, end, s.blk, b, Next(s.blk, x));
      assert Next(s1.blk, b) == Next(s.blk, x);
      forall u | u in s1.blk && !s1.blk[u].free ensures u in s.blk && !s.blk[u].free {
        AbsorbOutside(lo, end, s.blk, b, u);
      }
      if s1.blk[b].size >= n + SPLIT_MIN {
        CarvedAbsInv(lo, end, s1, b, n);
        UsedTrans(s.blk, {b}, s1.blk, {b}, CarvedAbs(s1, b, n).blk);
      }
    } else if s.blk[b].size >= n + SPLIT_MIN {
      CarvedAbsInv(lo, end, s, b, n);
    }
  }

  // ----- runs

  datatype Request = Allocate(size: u32) | Release(b: nat) | Resize(b: nat, size: u32)

  /** One call, as the entry points' contracts describe it. */
  ghost predicate Step(lo: nat, end: nat, s: Abs, req: Request, s': Abs)
  {
    match req
    case Allocate(size) =>
      Fits(size) && if NoneFits(s.blk, size) then s' == s else exists a :: Granted(s, s', a, size)
    case Release(b) =>
      Live(lo, end, s.blk, b) && s' == FreedAbs(lo, s, b)
    case Resize(b, size) =>
      && Fits(size) && size != 0 && Live(lo, end, s.blk, b)
      && if InPlace(s.blk, b, Adjusted(size)) then s' == ResizedAbs(s, b, Adjusted(size))
         else if NoneFits(s.blk, size) then s' == s
         else exists a: nat :: MovedTo(lo, s, s', b, a, Adjusted(size))
  }

  /** The block at b was moved to a. */
  ghost predicate MovedTo(lo: nat, s: Abs, s': Abs, b: nat, a: nat, n: u32)
  {
    Moved(lo, s, s', b + HDR, a + HDR, n)
  }

  lemma StepKeepsInv(lo: nat, end: nat, s: Abs, req: Request, s': Abs)
    requires Inv(lo, end, s) && Step(lo, end, s, req, s')
    ensures Inv(lo, end, s')
    ensures forall u :: Live(lo, end, s.blk, u) && !(req.Release? && u == req.b) && !(req.Resize? && u == req.b) ==>
              Live(lo, end, s'.blk, u) && s'.blk[u].size == s.blk[u].size
  {
    hide Inv, Granted, FreedAbs, ResizedAbs, MovedTo, NoneFits, InPlace, MappingSearch;
    StepUsed(lo, end, s, req, s');
    hide Step;
    InvParts(lo, end, s');
    InvParts(lo, end, s);
    forall u | Live(lo, end, s.blk, u) && !(req.Release? && u == req.b) && !(req.Resize? && u == req.b)
      ensures Live(lo, end, s'.blk, u) && s'.blk[u].size == s.blk[u].size
    {
      assert s'.blk[u].size == s.blk[u].size;
    }
  }

  lemma StepUsed(lo: nat, end: nat, s: Abs, req: Request, s': Abs)
    requires Inv(lo, end, s) && Step(lo, end, s, req, s')
    ensures Inv(lo, end, s')
    ensures UsedKept(s.blk, if req.Allocate? then {} else {req.b}, s'.blk)
  {
    hide Inv, Granted, FreedAbs, ResizedAbs, MovedTo, NoneFits, InPlace, UsedKept, MappingSearch;
    UsedRefl(s.blk, if req.Allocate? then {} else {req.b});
    match req
    case Allocate(size) =>
      if !NoneFits(s.blk, size) {
        var a :| Granted(s, s', a, size);
        GrantedInv(lo, end, s, s', a, size);
      }
    case Release(b) =>
      FreedInv(lo, end, s, b);
    case Resize(b, size) =>
      if InPlace(s.blk, b, Adjusted(size)) {
        ResizedInv(lo, end, s, b, Adjusted(size));
      } else if !NoneFits(s.blk, size) {
        var a: nat :| MovedTo(lo, s, s', b, a, Adjusted(size));
        MovedInv(lo, end, s, s', b, a, Adjusted(size));
      }
  }

  lemma MovedInv(lo: nat, end: nat, s: Abs, s': Abs, b: nat, a: nat, n: u32)
    requires Inv(lo, end, s) && Live(lo, end, s.blk, b) && MovedTo(lo, s, s', b, a, n)
    ensures Inv(lo, end, s') && UsedKept(s.blk, {b}, s'.blk) && Live(lo, end, s'.blk, a)
  {
    assert (a + HDR) - HDR == a && (b + HDR) - HDR == b;
    var s1 := TakenAbs(s, a, Wanted(n));
    GrantedInv(lo, end, s, s1, a, n);
    assert s1.blk[b].size == s.blk[b].size;
    FreedInv(lo, end, s1, b);
    forall u | u in s.blk && !s.blk[u].free && u != b ensures u in s'.blk && !s'.blk[u].free && s'.blk[u].size == s.blk[u].size {
      assert s1.blk[u].size == s.blk[u].size;
    }
    assert s'.blk[a].size == s1.blk[a].size;
  }

  /** A run from the new pool: states and the requests between them. */
  ghost predicate Run(lo: nat, end: nat, states: seq<Abs>, reqs: seq<Request>)
  {
    && Roomy(lo, end) && |states| == |reqs| + 1 && states[0] == InitialAbs(lo, end)
    && forall i :: 0 <= i < |reqs| ==> Step(lo, end, states[i], reqs[i], states[i + 1])
  }

  /** Every state of every run is well formed. */
  lemma {:induction false} RunsAreSafe(lo: nat, end: nat, states: seq<Abs>, reqs: seq<Request>, i: nat)
    requires Run(lo, end, states, reqs) && i < |states|
    ensures Inv(lo, end, states[i])
  {
    if i == 0 {
      InitialInv(lo, end);
    } else {
      RunsAreSafe(lo, end, states, reqs, i - 1);
      StepKeepsInv(lo, end, states[i - 1], reqs[i - 1], states[i]);
    }
  }

  /** A block once live stays live, at its address and with its size, until a request names it. */
  lemma {:induction false} LiveUntilNamed(lo: nat, end: nat, states: seq<Abs>, reqs: seq<Request>, i: nat, j: nat, u: nat)
    requires Run(lo, end, states, reqs) && i <= j < |states| && Live(lo, end, states[i].blk, u)
    requires forall k :: i <= k < j ==> !(reqs[k].Release? && reqs[k].b == u) && !(reqs[k].Resize? && reqs[k].b == u)
    ensures Live(lo, end, states[j].blk, u) && states[j].blk[u].size == states[i].blk[u].size
    decreases j
  {
    if i < j {
      LiveUntilNamed(lo, end, states, reqs, i, j - 1, u);
      RunsAreSafe(lo, end, states, reqs, j - 1);
      StepKeepsInv(lo, end, states[j - 1], reqs[j - 1], states[j]);
    }
  }

  // ----- allocate and release

  /** A successful malloc_ex followed by free_ex of its result restores the tiling and every free
      list, in order. */
  lemma AllocateThenRelease(lo: nat, end: nat, s: Abs, s': Abs, a: nat, size: u32)
    requires Inv(lo, end, s) && Granted(s, s', a, size)
    ensures Live(lo, end, s'.blk, a) && FreedAbs(lo, s', a) == s
  {
    hide Inv, Granted, TakenAbs, FreedAbs, Listed, MappingSearch, Wanted;
    GrantedInv(lo, end, s, s', a, size);
    GrantedHead(lo, end, s, s', a, size);
    if s.blk[a].size >= Wanted(size) + SPLIT_MIN {
      SplitThenRelease(lo, end, s, a, Wanted(size));
    } else {
      WholeThenRelease(lo, end, s, a, Wanted(size));
    }
  }

  lemma GrantedHead(lo: nat, end: nat, s: Abs, s': Abs, a: nat, size: u32)
    requires Inv(lo, end, s) && Granted(s, s', a, size)
    ensures Fits(size) && Wanted(size) % 8 == 0 && Wanted(size) >= MIN_BLOCK && s' == TakenAbs(s, a, Wanted(size))
    ensures a in s.blk && s.blk[a].free && s.blk[a].size < SIZE_LIMIT && Listed(s.blk, s.lists, a)
    ensures s.lists[MappingInsert(s.blk[a].size)][0] == a
  {
    SearchIsExact(Adjusted(size), Adjusted(size));
    assert Listed(s.blk, s.lists, a);
    SizeFits(lo, end, s.blk, a);
    hide Inv, TakenAbs, MappingSearch, MappingInsert;
  }

  lemma WholeThenRelease(lo: nat, end: nat, s: Abs, a: nat, r: nat)
    requires Inv(lo, end, s) && a in s.blk && s.blk[a].free && s.blk[a].size < r + SPLIT_MIN
    requires s.blk[a].size < SIZE_LIMIT && Listed(s.blk, s.lists, a) && s.lists[MappingInsert(s.blk[a].size)][0] == a
    ensures a in TakenAbs(s, a, r).blk && FreedAbs(lo, TakenAbs(s, a, r), a) == s
  {
    NextOfFree(lo, end, s, a);
    var c := MappingInsert(s.blk[a].size);
    var l := s.lists[c];
    assert [a] + Remove(l, a) == l;
    var s1 := Abs(SetFree(s.blk, a, false), Extracted(s.lists, c, a));
    assert TakenAbs(s, a, r) == s1;
    var n := Next(s.blk, a);
    assert Next(s1.blk, a) == n && !s1.blk[n].free;
    assert SetFree(s1.blk, a, true) == s.blk;
    assert FreedAbs(lo, s1, a) == ListedAbs(Abs(s.blk, s1.lists), a);
    assert Inserted(s1.lists, c, a) == s.lists;
  }

  lemma SplitThenRelease(lo: nat, end: nat, s: Abs, a: nat, r: nat)
    requires Inv(lo, end, s) && a in s.blk && s.blk[a].free && s.blk[a].size >= r + SPLIT_MIN
    requires s.blk[a].size < SIZE_LIMIT && Listed(s.blk, s.lists, a) && s.lists[MappingInsert(s.blk[a].size)][0] == a
    requires r % 8 == 0 && r >= MIN_BLOCK
    ensures a in TakenAbs(s, a, r).blk && FreedAbs(lo, TakenAbs(s, a, r), a) == s
  {
    var c := MappingInsert(s.blk[a].size);
    NextOfFree(lo, end, s, a);
    Neighbours(lo, end, s.blk, a);
    var s1 := Abs(SetFree(s.blk, a, false), Extracted(s.lists, c, a));
    TileSetFree(lo, end, s.blk, a, false);
    TileSplit(lo, end, s1.blk, a, r);
    var t, m := a + HDR + r, Next(s.blk, a);
    var rest := s.blk[a].size - r - HDR;
    var blk2 := Split(s1.blk, a, r);
    InsertInRange(rest);
    var d := MappingInsert(rest);
    assert Class(d.fl, d.sl) in s1.lists;
    var s2 := Abs(blk2, Inserted(s1.lists, d, t));
    assert TakenAbs(s, a, r) == s2;
    var blk3 := SetFree(blk2, a, true);
    assert Next(blk3, a) == t && Next(blk3, t) == m && Next(blk2, a) == t;
    assert Absorb(blk3, a) == s.blk;
    assert Remove([t] + s1.lists[d], t) == s1.lists[d];
    assert Extracted(s2.lists, d, t) == s1.lists;
    var s4 := MergedAbs(Abs(blk3, s2.lists), a, t);
    assert s4 == Abs(s.blk, s1.lists);
    assert FreedAbs(lo, s2, a) == FinishedAbs(lo, s4, a);
    var l := s.lists[c];
    assert [a] + Remove(l, a) == l;
    assert Inserted(s1.lists, c, a) == s.lists;
  }

  /** The heads and the bitmaps are a function of the lists, so restoring the lists restores them. */
  lemma IndexDetermined(mem: Memory, matrix: Matrix, sl: seq<u32>, fl: u32,
                        mem': Memory, matrix': Matrix, sl': seq<u32>, fl': u32, lists: Lists)
    requires ListsInMemory(mem, matrix, sl, fl, lists) && ListsInMemory(mem', matrix', sl', fl', lists)
    ensures matrix == matrix' && sl == sl' && fl == fl'
  {
    BitmapsDetermined(sl, fl, sl', fl', lists);
    assert matrix.Keys == lists.Keys == matrix'.Keys;
  }
}
