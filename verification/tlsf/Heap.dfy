/** What the words of a managed area mean: block headers, free lists and bitmaps. */
module Heap {
  import opened Words
  import opened Mapping

  /** BHDR_OVERHEAD: prev_hdr and size come before the payload. */
  const HDR: nat := 8
  const MIN_BLOCK: nat := 8
  /** sizeof(bhdr_t): the least remainder that is split off. */
  const SPLIT_MIN: nat := 16

  /** A block at some address: payload bytes, whether it is free, and the address of
      the block before it. */
  datatype Blk = Blk(size: nat, free: bool, prev: nat)

  type Blocks = map<nat, Blk>
  type Lists = map<Class, seq<nat>>
  type Memory = map<nat, u32>

  function Next(blk: Blocks, a: nat): nat
    requires a in blk
  {
    a + HDR + blk[a].size
  }

  // ----- tiling

  // The four conditions are stated through a predicate at each block, so that a proof
  // uses them at the blocks it names and nowhere else.

  /** Sizes and addresses are multiples of BLOCK_ALIGN; only the sentinel is empty. */
  predicate SizedAt(lo: nat, end: nat, blk: Blocks, a: nat)
    requires a in blk
  {
    lo <= a <= end && blk[a].size % 8 == 0 && a % 8 == lo % 8 && (a != end ==> blk[a].size >= MIN_BLOCK)
  }

  predicate ForwardAt(blk: Blocks, a: nat)
    requires a in blk
  {
    Next(blk, a) in blk && blk[Next(blk, a)].prev == a
  }

  predicate BackAt(end: nat, blk: Blocks, a: nat)
    requires a in blk
  {
    blk[a].prev in blk && blk[a].prev != end && Next(blk, blk[a].prev) == a
  }

  predicate Before(blk: Blocks, a: nat, b: nat)
    requires a in blk
  {
    a + HDR + blk[a].size <= b
  }

  ghost predicate Sized(lo: nat, end: nat, blk: Blocks)
  {
    forall a {:trigger SizedAt(lo, end, blk, a)} :: a in blk ==> SizedAt(lo, end, blk, a)
  }

  ghost predicate ForwardLinked(end: nat, blk: Blocks)
  {
    forall a {:trigger ForwardAt(blk, a)} :: a in blk && a != end ==> ForwardAt(blk, a)
  }

  ghost predicate BackLinked(lo: nat, end: nat, blk: Blocks)
  {
    forall a {:trigger BackAt(end, blk, a)} :: a in blk && a != lo ==> BackAt(end, blk, a)
  }

  ghost predicate Ordered(blk: Blocks)
  {
    forall a, b {:trigger Before(blk, a, b)} :: a in blk && b in blk && a < b ==> Before(blk, a, b)
  }

  /** The blocks lie one after another from lo up to the empty sentinel at end. */
  ghost predicate Tile(lo: nat, end: nat, blk: Blocks)
  {
    && lo in blk && end in blk && lo < end && blk[end].size == 0 && !blk[end].free
    && Sized(lo, end, blk) && ForwardLinked(end, blk) && BackLinked(lo, end, blk) && Ordered(blk)
  }

  predicate PrevFree(lo: nat, blk: Blocks, a: nat)
    requires a in blk
  {
    a != lo && blk[a].prev in blk && blk[blk[a].prev].free
  }

  /** Free neighbours are always coalesced. */
  ghost predicate Coalesced(lo: nat, blk: Blocks)
  {
    forall a {:trigger PrevFree(lo, blk, a)} :: a in blk && blk[a].free ==> !PrevFree(lo, blk, a)
  }

  function SetFree(blk: Blocks, a: nat, free: bool): Blocks
    requires a in blk
  {
    blk[a := blk[a].(free := free)]
  }

  /** Merge a with the block after it. */
  function Absorb(blk: Blocks, a: nat): Blocks
    requires a in blk && Next(blk, a) in blk && Next(blk, Next(blk, a)) in blk
  {
    var n := Next(blk, a);
    var m := Next(blk, n);
    (blk - {n})[a := blk[a].(size := blk[a].size + HDR + blk[n].size)][m := blk[m].(prev := a)]
  }

  /** Cut a down to r bytes; the rest becomes a free block. */
  function Split(blk: Blocks, a: nat, r: nat): Blocks
    requires a in blk && Next(blk, a) in blk && r + HDR <= blk[a].size
  {
    var m := Next(blk, a);
    blk[a := blk[a].(size := r)]
       [a + HDR + r := Blk(blk[a].size - r - HDR, true, a)]
       [m := blk[m].(prev := a + HDR + r)]
  }


  // ----- the three changes keep the tiling, one condition at a time

  lemma ForwardSetFree(lo: nat, end: nat, blk: Blocks, a: nat, free: bool)
    requires a in blk && ForwardLinked(end, blk) && BackLinked(lo, end, blk)
    ensures ForwardLinked(end, SetFree(blk, a, free)) && BackLinked(lo, end, SetFree(blk, a, free))
  {
    var blk' := SetFree(blk, a, free);
    forall x | x in blk' && x != end ensures ForwardAt(blk', x) { assert ForwardAt(blk, x); }
    forall x | x in blk' && x != lo ensures BackAt(end, blk', x) { assert BackAt(end, blk, x); }
  }

  lemma SizedSetFree(lo: nat, end: nat, blk: Blocks, a: nat, free: bool)
    requires a in blk && Sized(lo, end, blk) && Ordered(blk)
    ensures Sized(lo, end, SetFree(blk, a, free)) && Ordered(SetFree(blk, a, free))
  {
    var blk' := SetFree(blk, a, free);
    forall x | x in blk' ensures SizedAt(lo, end, blk', x) { assert SizedAt(lo, end, blk, x); }
    forall x, y | x in blk' && y in blk' && x < y ensures Before(blk', x, y) { assert Before(blk, x, y); }
  }

  lemma TileSetFree(lo: nat, end: nat, blk: Blocks, a: nat, free: bool)
    requires Tile(lo, end, blk) && a in blk && a != end
    ensures Tile(lo, end, SetFree(blk, a, free))
  {
    ForwardSetFree(lo, end, blk, a, free);
    SizedSetFree(lo, end, blk, a, free);
  }

  /** The block after a, and the one after that. */
  lemma Neighbours(lo: nat, end: nat, blk: Blocks, a: nat)
    requires Tile(lo, end, blk) && a in blk && a != end
    ensures var n := Next(blk, a);
      && a + SPLIT_MIN <= n && n in blk && n <= end && blk[n].prev == a && n != lo
      && (n != end ==> n + SPLIT_MIN <= Next(blk, n) <= end && Next(blk, n) in blk && blk[Next(blk, n)].prev == n)
  {
    var n := Next(blk, a);
    assert ForwardAt(blk, a) && SizedAt(lo, end, blk, a) && SizedAt(lo, end, blk, n);
    if n != end { assert ForwardAt(blk, n) && SizedAt(lo, end, blk, Next(blk, n)); }
  }

  lemma ForwardAbsorb(end: nat, blk: Blocks, a: nat)
    requires a in blk && a != end && ForwardLinked(end, blk)
    requires var n := Next(blk, a); a < n && n != end && n in blk && n < Next(blk, n) && Next(blk, n) in blk
    ensures ForwardLinked(end, Absorb(blk, a))
  {
    var n := Next(blk, a);
    var m := Next(blk, n);
    var blk' := Absorb(blk, a);
    assert ForwardAt(blk, a) && ForwardAt(blk, n);
    forall x | x in blk' && x != end ensures ForwardAt(blk', x) {
      assert ForwardAt(blk, x);
      if x == a { assert Next(blk', a) == m; } else { assert Next(blk', x) == Next(blk, x); }
    }
  }

  lemma BackAbsorb(lo: nat, end: nat, blk: Blocks, a: nat)
    requires a in blk && BackLinked(lo, end, blk) && ForwardLinked(end, blk) && a != end && lo <= a
    requires var n := Next(blk, a); a < n && n != end && n in blk && n < Next(blk, n) && Next(blk, n) in blk
    ensures BackLinked(lo, end, Absorb(blk, a))
  {
    var n := Next(blk, a);
    var m := Next(blk, n);
    var blk' := Absorb(blk, a);
    assert ForwardAt(blk, a) && ForwardAt(blk, n);
    forall x | x in blk' && x != lo ensures BackAt(end, blk', x) {
      assert BackAt(end, blk, x);
      if x == m {
        assert Next(blk', a) == m;
      } else {
        var p := blk[x].prev;
        assert p != n && p != a && Next(blk', p) == Next(blk, p);
      }
    }
  }

  lemma AlignedAbsorb(a: nat, b: nat)
    requires a % 8 == 0 && b % 8 == 0
    ensures (a + HDR + b) % 8 == 0
  {
  }

  lemma SizedAbsorb(lo: nat, end: nat, blk: Blocks, a: nat)
    requires a in blk && Sized(lo, end, blk) && Ordered(blk)
    requires var n := Next(blk, a); a < n && n in blk && n < Next(blk, n) && Next(blk, n) in blk
    requires a != end && Next(blk, a) != end
    ensures Sized(lo, end, Absorb(blk, a)) && Ordered(Absorb(blk, a))
  {
    var n := Next(blk, a);
    var blk' := Absorb(blk, a);
    assert SizedAt(lo, end, blk, a) && SizedAt(lo, end, blk, n);
    AlignedAbsorb(blk[a].size, blk[n].size);
    forall x | x in blk' ensures SizedAt(lo, end, blk', x) { assert SizedAt(lo, end, blk, x); }
    forall x, y | x in blk' && y in blk' && x < y ensures Before(blk', x, y) {
      assert Before(blk, x, y);
      if x == a { assert n <= y && Before(blk, n, y); }
    }
  }

  lemma TileAbsorb(lo: nat, end: nat, blk: Blocks, a: nat)
    requires Tile(lo, end, blk) && a in blk && a != end && Next(blk, a) != end
    ensures Next(blk, a) in blk && Next(blk, Next(blk, a)) in blk && Tile(lo, end, Absorb(blk, a))
  {
    Neighbours(lo, end, blk, a);
    assert SizedAt(lo, end, blk, a);
    ForwardAbsorb(end, blk, a);
    BackAbsorb(lo, end, blk, a);
    SizedAbsorb(lo, end, blk, a);
  }

  lemma ForwardSplit(end: nat, blk: Blocks, a: nat, r: nat)
    requires a in blk && a != end && ForwardLinked(end, blk)
    requires blk[a].size >= r + SPLIT_MIN && a + HDR + r !in blk && Next(blk, a) in blk
    ensures ForwardLinked(end, Split(blk, a, r))
  {
    var m := Next(blk, a);
    var t := a + HDR + r;
    var blk' := Split(blk, a, r);
    assert ForwardAt(blk, a);
    forall x | x in blk' && x != end ensures ForwardAt(blk', x) {
      if x == a {
        assert Next(blk', a) == t;
      } else if x == t {
        assert Next(blk', t) == m;
      } else {
        assert ForwardAt(blk, x) && Next(blk', x) == Next(blk, x);
      }
    }
  }

  lemma BackSplit(lo: nat, end: nat, blk: Blocks, a: nat, r: nat)
    requires a in blk && a != end && BackLinked(lo, end, blk) && ForwardLinked(end, blk) && end in blk
    requires blk[a].size >= r + SPLIT_MIN && a + HDR + r !in blk && Next(blk, a) in blk
    ensures BackLinked(lo, end, Split(blk, a, r))
  {
    var m := Next(blk, a);
    var t := a + HDR + r;
    var blk' := Split(blk, a, r);
    assert ForwardAt(blk, a);
    forall x | x in blk' && x != lo ensures BackAt(end, blk', x) {
      if x == t {
        assert Next(blk', a) == t;
      } else if x == m {
        assert Next(blk', t) == m;
      } else {
        assert BackAt(end, blk, x);
        var p := blk[x].prev;
        assert p != a && Next(blk', p) == Next(blk, p);
      }
    }
  }

  lemma AlignedSplit(a: nat, size: nat, r: nat, lo: nat)
    requires r % 8 == 0 && size % 8 == 0 && a % 8 == lo % 8 && size >= r + SPLIT_MIN
    ensures (size - r - HDR) % 8 == 0 && (a + HDR + r) % 8 == lo % 8
  {
  }

  lemma SizedSplit(lo: nat, end: nat, blk: Blocks, a: nat, r: nat)
    requires a in blk && a != end && Sized(lo, end, blk) && Ordered(blk) && Next(blk, a) in blk
    requires r % 8 == 0 && r >= MIN_BLOCK && blk[a].size >= r + SPLIT_MIN
    ensures a + HDR + r !in blk && Sized(lo, end, Split(blk, a, r))
  {
    var m := Next(blk, a);
    var t := a + HDR + r;
    var blk' := Split(blk, a, r);
    assert t in blk ==> Before(blk, a, t);
    assert SizedAt(lo, end, blk, a) && SizedAt(lo, end, blk, m);
    AlignedSplit(a, blk[a].size, r, lo);
    forall x | x in blk' ensures SizedAt(lo, end, blk', x) {
      if x != t { assert SizedAt(lo, end, blk, x); }
    }
  }

  lemma OrderedSplit(blk: Blocks, a: nat, r: nat)
    requires a in blk && Ordered(blk) && Next(blk, a) in blk && blk[a].size >= r + SPLIT_MIN
    ensures Ordered(Split(blk, a, r))
  {
    var t := a + HDR + r;
    var blk' := Split(blk, a, r);
    forall x, y | x in blk' && y in blk' && x < y ensures Before(blk', x, y) {
      if x == t {
        assert Before(blk, a, y);
      } else if y == t {
        assert x > a ==> Before(blk, a, x);
        assert x < a ==> Before(blk, x, a);
      } else {
        assert Before(blk, x, y);
      }
    }
  }

  lemma TileSplit(lo: nat, end: nat, blk: Blocks, a: nat, r: nat)
    requires Tile(lo, end, blk) && a in blk && a != end && r % 8 == 0 && r >= MIN_BLOCK
    requires blk[a].size >= r + SPLIT_MIN
    ensures a + HDR + r !in blk && Next(blk, a) in blk && Tile(lo, end, Split(blk, a, r))
  {
    Neighbours(lo, end, blk, a);
    SizedSplit(lo, end, blk, a, r);
    OrderedSplit(blk, a, r);
    ForwardSplit(end, blk, a, r);
    BackSplit(lo, end, blk, a, r);
  }

  /** prev is the inverse of next. */
  lemma PrevIsInverse(lo: nat, end: nat, blk: Blocks, a: nat, b: nat)
    requires Tile(lo, end, blk) && a in blk && b in blk
    ensures a != lo && blk[a].prev == b <==> b != end && Next(blk, b) == a
  {
    if b != end && Next(blk, b) == a { Neighbours(lo, end, blk, b); }
    if a != lo { assert BackAt(end, blk, a); }
  }

  lemma BlocksApart(lo: nat, end: nat, blk: Blocks, a: nat, b: nat)
    requires Tile(lo, end, blk) && a in blk && b in blk && a != b && b != end
    ensures a + 8 <= b || b + 16 <= a
    ensures a != end ==> a + 16 <= b || b + 16 <= a
  {
    assert SizedAt(lo, end, blk, a) && SizedAt(lo, end, blk, b);
    assert if a < b then Before(blk, a, b) else Before(blk, b, a);
  }
}
