/** What the entry points change, block by block and list by list: each between two addresses only, every list keeping its
    order. */
module Effects {
  import opened Words
  import opened Mapping
  import opened Heap
  import opened FreeLists
  import opened Invariant
  import opened Coalesce

  /** Blocks before `from` and from `to` on are as they were, and no others begin there. */
  ghost predicate SameOutside(blk: Blocks, blk': Blocks, from: nat, to: nat)
  {
    forall y: nat {:trigger y in blk'} :: y < from || y >= to ==>
      (y in blk <==> y in blk') && (y in blk ==> blk'[y].size == blk[y].size && blk'[y].free == blk[y].free)
  }

  /** Between two addresses no block begins, but for t. */
  ghost predicate OnlyInside(blk: Blocks, from: nat, to: nat, t: nat)
  {
    forall y {:trigger y in blk} :: y in blk && from < y < to ==> y == t
  }

  function Without(l: seq<nat>, out: seq<nat>): seq<nat>
    decreases |out|
  {
    if out == [] then l else Without(Remove(l, out[0]), out[1..])
  }

  /** The new entry of list c: t, if it is a free block of that class. */
  function FrontOf(blk: Blocks, c: Class, t: nat): seq<nat>
  {
    if t in blk && blk[t].free && blk[t].size < SIZE_LIMIT && MappingInsert(blk[t].size) == c then [t] else []
  }

  /** Every list keeps its order, but for the blocks taken out and t put in front. */
  ghost predicate Relisted(s: Abs, s': Abs, out: seq<nat>, t: nat)
  {
    && s'.lists.Keys == s.lists.Keys
    && forall c: Class {:trigger s'.lists[c]} :: c in s.lists ==> s'.lists[c] == FrontOf(s'.blk, c, t) + Without(s.lists[c], out)
  }

  /** Up to m, where nothing else had been used, there is now the used block b, of n bytes or, with nothing left behind it, of
      8 more; what is left is one free block, in front of its list. */
  ghost predicate Fitted(s: Abs, s': Abs, b: nat, m: nat, out: seq<nat>, n: nat)
  {
    && b in s'.blk && !s'.blk[b].free
    && var t := Next(s'.blk, b);
    && (s'.blk[b].size == n || (s'.blk[b].size == n + 8 && t == m))
    && (t != m ==> t in s'.blk && s'.blk[t].free && Next(s'.blk, t) == m)
    && SameOutside(s.blk, s'.blk, b, m) && OnlyInside(s'.blk, b, m, t) && Relisted(s, s', out, t)
  }

  /** The block after b, if it is free, counts as room for b. */
  function RoomEnd(blk: Blocks, b: nat): nat
    requires b in blk
  {
    var n := Next(blk, b);
    if n in blk && blk[n].free then Next(blk, n) else n
  }

  /** b is free, as one block with the free blocks before and after it, in front of its list. */
  ghost predicate Released(lo: nat, s: Abs, s': Abs, b: nat)
  {
    && b in s.blk
    && var p := if PrevFree(lo, s.blk, b) then s.blk[b].prev else b;
    && p in s'.blk && s'.blk[p].free && Next(s'.blk, p) == RoomEnd(s.blk, b)
    && SameOutside(s.blk, s'.blk, p, RoomEnd(s.blk, b)) && OnlyInside(s'.blk, p, RoomEnd(s.blk, b), p)
    && Relisted(s, s', [Next(s.blk, b), p], p)
  }

  // ----- each step

  lemma {:induction false} RemoveNothing(l: seq<nat>, x: nat)
    requires x !in l
    ensures Remove(l, x) == l
  {
    if l != [] { RemoveNothing(l[1..], x); }
  }

  lemma WithoutOne(l: seq<nat>, x: nat)
    ensures Without(l, []) == l && Without(l, [x]) == Remove(l, x)
  {
    assert [x][1..] == [];
  }

  lemma WithoutTwo(l: seq<nat>, x: nat, y: nat)
    ensures Without(l, [x, y]) == Remove(Remove(l, x), y)
  {
    assert [x, y][1..] == [y] && [y][1..] == [] && [x, y][0] == x;
    assert Without(Remove(l, x), [y]) == Remove(Remove(l, x), y);
  }

  /** A used block, or an address without a block, is on no list. */
  lemma NotListed(blk: Blocks, lists: Lists, x: nat)
    requires Members(blk, lists) && (x in blk ==> !blk[x].free)
    ensures forall c: Class {:trigger Remove(lists[c], x)} :: c in lists ==> Remove(lists[c], x) == lists[c]
  {
    forall c: Class | c in lists ensures Remove(lists[c], x) == lists[c] {
      assert Member(blk, c, lists[c]);
      RemoveNothing(lists[c], x);
    }
  }

  /** A free block is on the list of its class only. */
  lemma ListedOnce(blk: Blocks, lists: Lists, x: nat)
    requires Members(blk, lists) && x in blk && blk[x].free && blk[x].size < SIZE_LIMIT && MappingInsert(blk[x].size) in lists
    ensures forall c: Class {:trigger Remove(lists[c], x)} :: c in lists ==>
              Extracted(lists, MappingInsert(blk[x].size), x)[c] == Remove(lists[c], x)
  {
    forall c: Class | c in lists && c != MappingInsert(blk[x].size) ensures Remove(lists[c], x) == lists[c] {
      assert Member(blk, c, lists[c]);
      RemoveNothing(lists[c], x);
    }
  }

  lemma SameOutsideTrans(blk: Blocks, blk1: Blocks, blk2: Blocks, from: nat, to: nat)
    requires SameOutside(blk, blk1, from, to) && SameOutside(blk1, blk2, from, to)
    ensures SameOutside(blk, blk2, from, to)
  {
    forall y: nat | y < from || y >= to
      ensures (y in blk <==> y in blk2) && (y in blk ==> blk2[y].size == blk[y].size && blk2[y].free == blk[y].free)
    {
      assert y in blk <==> y in blk1;
    }
  }

  /** Splitting changes nothing outside the block split. */
  lemma SplitInside(lo: nat, end: nat, blk: Blocks, b: nat, r: nat)
    requires Tile(lo, end, blk) && b in blk && b != end && Next(blk, b) in blk && r + SPLIT_MIN <= blk[b].size
    ensures var blk' := Split(blk, b, r); var t := b + HDR + r;
      SameOutside(blk, blk', b, Next(blk, b)) && OnlyInside(blk', b, Next(blk, b), t) && Next(blk', t) == Next(blk, b)
  {
    var blk' := Split(blk, b, r);
    forall y | y in blk' && b < y < Next(blk, b) ensures y == b + HDR + r {
      assert y in blk ==> Before(blk, b, y);
    }
  }

  /** Merging changes nothing outside the two blocks. */
  lemma AbsorbInside(lo: nat, end: nat, blk: Blocks, a: nat)
    requires Tile(lo, end, blk) && a in blk && a != end && Next(blk, a) in blk && Next(blk, a) != end && Next(blk, Next(blk, a)) in blk
    ensures var blk' := Absorb(blk, a); var m := Next(blk, Next(blk, a));
      SameOutside(blk, blk', a, m) && OnlyInside(blk', a, m, a) && Next(blk', a) == m
  {
    Neighbours(lo, end, blk, a);
    var n := Next(blk, a);
    forall y | y in blk && a < y ensures y == n || y >= Next(blk, n) {
      assert Before(blk, a, y);
      assert y > n ==> Before(blk, n, y);
    }
  }
}
