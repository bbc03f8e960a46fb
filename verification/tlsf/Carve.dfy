/** The steps of malloc_ex and realloc_ex: take a block out of its list or grow one, and
    split off what is left over. */
module Carve {
  import opened Words
  import opened Mapping
  import opened Heap
  import opened FreeLists
  import opened Invariant
  import opened Coalesce
  import opened Frames
  import opened Effects

  /** b is a used block whose size word, and the stale flag after it, remain to be written. */
  ghost predicate Loose(lo: nat, end: nat, mem: Memory, blk: Blocks, lists: Lists, b: nat)
  {
    && Inv(lo, end, Abs(blk, lists)) && Mapped(lo, end, mem)
    && b in blk && b != lo && b != end && !blk[b].free && Next(blk, b) in blk && !blk[Next(blk, b)].free
    && b in mem && b + 4 in mem && (PrevFreeFlag(mem[b + 4]) <==> PrevFree(lo, blk, b))
    && (PrevFree(lo, blk, b) ==> mem[b] == blk[b].prev)
    && HalfHeader(mem, blk, Next(blk, b))
    && HeadersBut(lo, mem, blk, {b, Next(blk, b)})
  }

  /** The size word of a remainder: tmp_size | FREE_BLOCK | PREV_USED. */
  function RestWord(size: u32): u32
  {
    SetBit(0, size)
  }

  /** The size word of the part kept: size | (b->size & PREV_STATE). */
  function KeptWord(size: u32, w: u32): u32
  {
    if PrevFreeFlag(w) then SetBit(1, size) else size
  }

  /** Memory after the rest of b beyond r bytes became the free block t, put before h on its list. */
  function Carved(mem: Memory, b: nat, t: u32, n: nat, r: u32, rest: u32, h: u32): Memory
    requires b + 4 in Link(mem[t + 4 := RestWord(rest)][n := t], t, h)
  {
    var m2 := Link(mem[t + 4 := RestWord(rest)][n := t], t, h);
    m2[b + 4 := KeptWord(r, m2[b + 4])]
  }

  /** A block outside the split keeps its record. */
  lemma SplitOutside(lo: nat, end: nat, blk: Blocks, b: nat, r: nat, y: nat)
    requires Tile(lo, end, blk) && b in blk && b != end && !blk[b].free && Next(blk, b) in blk
    requires r + SPLIT_MIN <= blk[b].size && b + HDR + r !in blk && y in blk
    ensures var blk' := Split(blk, b, r);
      && y in blk' && blk'[y].free == blk[y].free && (y != b ==> blk'[y].size == blk[y].size)
      && (y != Next(blk, b) ==> blk'[y].prev == blk[y].prev && PrevFree(lo, blk', y) == PrevFree(lo, blk, y))
      && (y == Next(blk, b) ==> PrevFree(lo, blk', y) && blk'[y].prev == b + HDR + r && y != lo)
  {
    Neighbours(lo, end, blk, b);
    PrevIsInverse(lo, end, blk, y, b);
    if y != lo { assert BackAt(end, blk, y); }
    hide Tile;
  }

  /** What splitting makes of the abstract heap. */
  function CarvedAbs(s: Abs, b: nat, r: nat): Abs
  {
    if b in s.blk && Next(s.blk, b) in s.blk && r + SPLIT_MIN <= s.blk[b].size
    then ListedAbs(Abs(Split(s.blk, b, r), s.lists), b + HDR + r)
    else s
  }

  lemma SplitLists(lo: nat, end: nat, blk: Blocks, lists: Lists, b: nat, r: nat)
    requires Tile(lo, end, blk) && Members(blk, lists) && AllListedBut(blk, lists, {}) && Coalesced(lo, blk)
    requires b in blk && b != end && !blk[b].free && Next(blk, b) in blk && !blk[Next(blk, b)].free
    requires r + SPLIT_MIN <= blk[b].size && b + HDR + r !in blk
    ensures var blk' := Split(blk, b, r); var t := b + HDR + r;
      Members(blk', lists) && AllListedBut(blk', lists, {t}) && Unlisted(lists, t) && Coalesced(lo, blk')
  {
    var blk' := Split(blk, b, r);
    var t := b + HDR + r;
    forall c: Class | c in lists ensures ValidClass(c) && Member(blk', c, lists[c]) && t !in lists[c] {
      assert Member(blk, c, lists[c]);
      forall x | x in lists[c] ensures x in blk' && blk'[x].free && blk'[x].size == blk[x].size {
        SplitOutside(lo, end, blk, b, r, x);
      }
    }
    forall a | a in blk' && blk'[a].free && a != t ensures Listed(blk', lists, a) {
      SplitOutside(lo, end, blk, b, r, a);
      assert Listed(blk, lists, a);
    }
    forall a | a in blk' && blk'[a].free ensures !PrevFree(lo, blk', a) {
      if a != t {
        SplitOutside(lo, end, blk, b, r, a);
        assert !PrevFree(lo, blk, a);
      }
    }
  }

  // ----- the headers after a split

  /** Everything the split of b at r relies on. */
  ghost predicate Splittable(lo: nat, end: nat, mem: Memory, blk: Blocks, lists: Lists, b: nat, r: nat)
  {
    && Loose(lo, end, mem, blk, lists, b)
    && r % 8 == 0 && r >= MIN_BLOCK && r + SPLIT_MIN <= blk[b].size
    && mem[Next(blk, b) + 4] == Word(blk[Next(blk, b)].size, false, true)
  }

  /** The addresses and words a split uses. */
  lemma SplitFits(lo: nat, end: nat, mem: Memory, blk: Blocks, lists: Lists, b: nat, r: nat)
    requires Splittable(lo, end, mem, blk, lists, b, r)
    ensures b in blk && Next(blk, b) in blk && !blk[b].free && r + SPLIT_MIN <= blk[b].size
    ensures var t := b + HDR + r; var rest := blk[b].size - r - HDR; var n := Next(blk, b);
      && Bounds(lo, end) && Tile(lo, end, blk) && Members(blk, lists) && t !in blk && Tile(lo, end, Split(blk, b, r))
      && t in mem && t + 4 in mem && t + 8 in mem && t + 12 in mem && n in mem && n + 4 in mem && b + 4 in mem
      && t + HDR + rest == n && t < WORD && rest < SIZE_LIMIT && rest % 8 == 0 && rest >= MIN_BLOCK && r < SIZE_LIMIT
      && MappingInsert(rest) in lists && ValidClass(MappingInsert(rest))
      && RestWord(rest) == Word(rest, true, false)
      && KeptWord(r, mem[b + 4]) == Word(r, false, PrevFree(lo, blk, b))
  {
    TileSplit(lo, end, blk, b, r);
    var t := b + HDR + r;
    var rest := blk[b].size - r - HDR;
    SizeFits(lo, end, blk, b);
    SizeFits(lo, end, Split(blk, b, r), t);
    assert SizedAt(lo, end, Split(blk, b, r), t);
    assert t % 4 == 0 && (t + 4) % 4 == 0 && (t + 8) % 4 == 0 && (t + 12) % 4 == 0;
    WordParts(rest, false, false);
    WordParts(r, false, false);
    InsertInRange(rest);
    var c := MappingInsert(rest);
    assert Class(c.fl, c.sl) in lists;
  }

  /** t, n and rest name the parts of the split, and h the head of the list the rest goes to. */
  predicate SplitNames(blk: Blocks, lists: Lists, b: nat, r: nat, t: u32, n: nat, rest: u32, h: u32)
    requires b in blk
  {
    && t == b + HDR + r && n == Next(blk, b) && rest == blk[b].size - r - HDR
    && var c := MappingInsert(rest);
    && c in lists && h == if lists[c] == [] then 0 else lists[c][0]
  }

  lemma CarvedHeader(lo: nat, end: nat, mem: Memory, blk: Blocks, lists: Lists, b: nat, r: u32,
                     t: u32, n: nat, rest: u32, h: u32, y: nat)
    requires Splittable(lo, end, mem, blk, lists, b, r) && y in Split(blk, b, r)
    requires SplitNames(blk, lists, b, r, t, n, rest, h)
    ensures b + 4 in Link(mem[t + 4 := RestWord(rest)][n := t], t, h)
    ensures HeaderAt(lo, Carved(mem, b, t, n, r, rest, h), Split(blk, b, r), y)
  {
    hide Inv, Tile, Members, HeadersBut, Bounds, Carved, Link, RestWord, KeptWord, Word, MappingInsert, HalfHeader, Loose;
    SplitFits(lo, end, mem, blk, lists, b, r);
    CarvedReads(lo, end, mem, blk, lists, b, r, t, n, rest, h, y);
    if y == t {
      assert !PrevFree(lo, Split(blk, b, r), t);
    } else {
      SplitOutside(lo, end, blk, b, r, y);
      if y == b {
        KeptHeader(lo, end, mem, blk, lists, b);
      } else if y != n {
        OtherHeader(lo, end, mem, blk, lists, b, y);
      } else {
        NextHeader(lo, end, mem, blk, lists, b);
      }
    }
  }

  lemma KeptHeader(lo: nat, end: nat, mem: Memory, blk: Blocks, lists: Lists, b: nat)
    requires Loose(lo, end, mem, blk, lists, b)
    ensures b in mem && b + 4 in mem && (PrevFree(lo, blk, b) ==> mem[b] == blk[b].prev) && b != Next(blk, b)
  {
  }

  lemma NextHeader(lo: nat, end: nat, mem: Memory, blk: Blocks, lists: Lists, b: nat)
    requires Loose(lo, end, mem, blk, lists, b)
    ensures Next(blk, b) in mem && Next(blk, b) + 4 in mem && !blk[Next(blk, b)].free
  {
  }

  lemma OtherHeader(lo: nat, end: nat, mem: Memory, blk: Blocks, lists: Lists, b: nat, y: nat)
    requires Loose(lo, end, mem, blk, lists, b) && y in blk && y != b && y != Next(blk, b)
    ensures HeaderAt(lo, mem, blk, y)
  {
  }

  /** Linking the rest changes no header. */
  lemma CarvedLinks(lo: nat, end: nat, mem: Memory, blk: Blocks, lists: Lists, b: nat, r: u32,
                    t: u32, n: nat, rest: u32, h: u32, y: nat)
    requires Splittable(lo, end, mem, blk, lists, b, r) && y in Split(blk, b, r)
    requires SplitNames(blk, lists, b, r, t, n, rest, h)
    ensures var m1 := mem[t + 4 := RestWord(rest)][n := t]; var m2 := Link(m1, t, h);
      && (y in m1 ==> y in m2 && m2[y] == m1[y]) && (y + 4 in m1 ==> y + 4 in m2 && m2[y + 4] == m1[y + 4])
  {
    hide Inv, Tile, Members, HeadersBut, Bounds, Link, RestWord, KeptWord, Word, Loose;
    SplitFits(lo, end, mem, blk, lists, b, r);
    SplitMembers(lo, end, mem, blk, lists, b, r);
    LinkHeaders(lo, end, mem[t + 4 := RestWord(rest)][n := t], Split(blk, b, r), lists, MappingInsert(rest), t, y);
  }

  /** The header words after a split. */
  lemma CarvedReads(lo: nat, end: nat, mem: Memory, blk: Blocks, lists: Lists, b: nat, r: u32,
                    t: u32, n: nat, rest: u32, h: u32, y: nat)
    requires Splittable(lo, end, mem, blk, lists, b, r) && y in Split(blk, b, r)
    requires SplitNames(blk, lists, b, r, t, n, rest, h)
    ensures b + 4 in Link(mem[t + 4 := RestWord(rest)][n := t], t, h)
    ensures var mem' := Carved(mem, b, t, n, r, rest, h);
      && (y in mem ==> y in mem' && mem'[y] == if y == n then t else mem[y])
      && (y + 4 in mem ==>
            y + 4 in mem' &&
            mem'[y + 4] == if y == t then RestWord(rest) else if y == b then KeptWord(r, mem[b + 4]) else mem[y + 4])
  {
    hide Inv, Tile, Members, HeadersBut, Bounds, Link, KeptWord, RestWord, Word, Loose, Splittable;
    SplitFits(lo, end, mem, blk, lists, b, r);
    SplitApart(lo, end, blk, b, r, y);
    SplitApart(lo, end, blk, b, r, b);
    CarvedLinks(lo, end, mem, blk, lists, b, r, t, n, rest, h, y);
    CarvedLinks(lo, end, mem, blk, lists, b, r, t, n, rest, h, b);
    hide Split, SplitNames;
  }

  /** The headers the split writes do not overlap any other. */
  lemma SplitApart(lo: nat, end: nat, blk: Blocks, b: nat, r: nat, y: nat)
    requires b in blk && Next(blk, b) in blk && r + HDR <= blk[b].size
    requires Tile(lo, end, Split(blk, b, r)) && y in Split(blk, b, r)
    ensures b in Split(blk, b, r) && b + HDR + r in Split(blk, b, r) && Next(blk, b) in Split(blk, b, r)
    ensures b != b + HDR + r && b != Next(blk, b)
    ensures var t, n := b + HDR + r, Next(blk, b);
      && (y == t || y + 8 <= t || t + 8 <= y) && (y == n || y + 8 <= n || n + 8 <= y) && (y == b || y + 8 <= b || b + 8 <= y)
  {
    hide Tile;
    var blk' := Split(blk, b, r);
    HeadersApart(lo, end, blk', y, b + HDR + r);
    HeadersApart(lo, end, blk', y, Next(blk, b));
    HeadersApart(lo, end, blk', y, b);
  }

  lemma HeadersApart(lo: nat, end: nat, blk: Blocks, a: nat, b: nat)
    requires Tile(lo, end, blk) && a in blk && b in blk
    ensures a == b || a + 8 <= b || b + 8 <= a
  {
    if a != b {
      if b != end { BlocksApart(lo, end, blk, a, b); } else { BlocksApart(lo, end, blk, b, a); }
    }
  }

  lemma SplitMembers(lo: nat, end: nat, mem: Memory, blk: Blocks, lists: Lists, b: nat, r: nat)
    requires Splittable(lo, end, mem, blk, lists, b, r)
    ensures b + HDR + r !in blk
    ensures var blk' := Split(blk, b, r); var t := b + HDR + r;
      Members(blk', lists) && AllListedBut(blk', lists, {t}) && Unlisted(lists, t) && Coalesced(lo, blk') && InfoBlock(lo, blk')
  {
    TileSplit(lo, end, blk, b, r);
    SplitLists(lo, end, blk, lists, b, r);
    Neighbours(lo, end, blk, b);
    assert SizedAt(lo, end, blk, b);
    SplitOutside(lo, end, blk, b, r, lo);
  }

  lemma CarvedInv(lo: nat, end: nat, mem: Memory, blk: Blocks, lists: Lists, b: nat, r: u32,
                  t: u32, n: nat, rest: u32, h: u32)
    requires Splittable(lo, end, mem, blk, lists, b, r) && SplitNames(blk, lists, b, r, t, n, rest, h)
    ensures b + 4 in Link(mem[t + 4 := RestWord(rest)][n := t], t, h)
    ensures var mem' := Carved(mem, b, t, n, r, rest, h); var s' := CarvedAbs(Abs(blk, lists), b, r);
      Mapped(lo, end, mem') && HeadersBut(lo, mem', s'.blk, {}) && Inv(lo, end, s')
  {
    SplitFits(lo, end, mem, blk, lists, b, r);
    SplitMembers(lo, end, mem, blk, lists, b, r);
    var blk' := Split(blk, b, r);
    assert blk'[t].size == rest && blk'[t].free;
    PublishLists(lo, end, blk', lists, t);
    hide Tile, Members, AllListedBut, Coalesced, Unlisted, Bounds, HalfHeader, SizeOf;
    CarvedReads(lo, end, mem, blk, lists, b, r, t, n, rest, h, b);
    var mem' := Carved(mem, b, t, n, r, rest, h);
    forall y | y in blk' ensures HeaderAt(lo, mem', blk', y) {
      hide Splittable;
      CarvedHeader(lo, end, mem, blk, lists, b, r, t, n, rest, h, y);
    }
    assert Mapped(lo, end, mem');
  }

  /** A split keeps every payload, of b the first r bytes. */
  lemma CarvedKeeps(lo: nat, end: nat, mem: Memory, blk: Blocks, lists: Lists, b: nat, r: u32,
                    t: u32, n: nat, rest: u32, h: u32)
    requires Splittable(lo, end, mem, blk, lists, b, r) && SplitNames(blk, lists, b, r, t, n, rest, h)
    ensures b + 4 in Link(mem[t + 4 := RestWord(rest)][n := t], t, h)
    ensures PayloadsKept(Split(blk, b, r), {}, mem, Carved(mem, b, t, n, r, rest, h))
    ensures UsedKept(blk, {b}, Split(blk, b, r))
  {
    SplitFits(lo, end, mem, blk, lists, b, r);
    SplitMembers(lo, end, mem, blk, lists, b, r);
    var blk' := Split(blk, b, r);
    var c := MappingInsert(rest);
    CarvedReads(lo, end, mem, blk, lists, b, r, t, n, rest, h, b);
    UsedRefl(blk', {});
    hide Tile, Members, AllListedBut, Coalesced, Unlisted, HalfHeader, SizeOf, Splittable, PayloadsKept, RestWord, Link;
    HeaderKeeps(lo, end, mem, blk', t, t + 4, RestWord(rest));
    var m0 := mem[t + 4 := RestWord(rest)];
    HeaderKeeps(lo, end, m0, blk', n, n, t);
    var m1 := m0[n := t];
    KeptTrans(blk', {}, mem, m0, blk', {}, m1);
    LinkKeeps(lo, end, m1, blk', lists, c, t, h);
    var m2 := Link(m1, t, h);
    KeptTrans(blk', {}, mem, m1, blk', {}, m2);
    HeaderKeeps(lo, end, m2, blk', b, b + 4, KeptWord(r, m2[b + 4]));
    KeptTrans(blk', {}, mem, m2, blk', {}, m2[b + 4 := KeptWord(r, m2[b + 4])]);
  }

  // ----- taking a free block off its list for use

  /** malloc_ex after the search: b leaves its list, and is split when enough is left. */
  function TakenAbs(s: Abs, b: nat, r: nat): Abs
  {
    if b in s.blk && s.blk[b].size < SIZE_LIMIT && MappingInsert(s.blk[b].size) in s.lists then
      var s1 := Abs(SetFree(s.blk, b, false), Extracted(s.lists, MappingInsert(s.blk[b].size), b));
      if s.blk[b].size >= r + SPLIT_MIN then CarvedAbs(s1, b, r) else s1
    else s
  }

  /** The whole state before an operation. */
  ghost predicate Consistent(lo: nat, end: nat, mem: Memory, blk: Blocks, lists: Lists)
  {
    Inv(lo, end, Abs(blk, lists)) && Mapped(lo, end, mem) && HeadersBut(lo, mem, blk, {})
  }

  lemma TakeLists(lo: nat, end: nat, blk: Blocks, lists: Lists, b: nat)
    requires Inv(lo, end, Abs(blk, lists)) && b in blk && blk[b].free && Listed(blk, lists, b)
    ensures Inv(lo, end, Abs(SetFree(blk, b, false), Extracted(lists, MappingInsert(blk[b].size), b)))
  {
    var c := MappingInsert(blk[b].size);
    var blk' := SetFree(blk, b, false);
    var lists' := Extracted(lists, c, b);
    TileSetFree(lo, end, blk, b, false);
    MembersExtracted(blk, lists, c, b);
    forall d: Class | d in lists' ensures ValidClass(d) && Member(blk', d, lists'[d]) {
      assert Member(blk, d, lists'[d]);
    }
    forall a | a in blk' && blk'[a].free ensures Listed(blk', lists', a) {
      assert Listed(blk, lists, a);
      ListedAfterExtract(blk, lists, c, b, a);
    }
    forall a | a in blk' && blk'[a].free ensures !PrevFree(lo, blk', a) {
      assert !PrevFree(lo, blk, a);
    }
  }

  lemma TakenHeader(lo: nat, end: nat, mem: Memory, blk: Blocks, lists: Lists, b: nat, y: nat)
    requires Tile(lo, end, blk) && Members(blk, lists) && b in blk && blk[b].free && Listed(blk, lists, b)
    requires Linked(mem, lists[MappingInsert(blk[b].size)]) && y in blk && HeaderAt(lo, mem, blk, y)
    ensures b + 8 in mem && b + 12 in mem && y in Unlink(mem, b) && y + 4 in Unlink(mem, b)
    ensures Unlink(mem, b)[y] == mem[y] && Unlink(mem, b)[y + 4] == mem[y + 4]
    ensures y != b && y != Next(blk, b) ==> HeaderAt(lo, Unlink(mem, b), SetFree(blk, b, false), y)
    ensures y != b ==> HalfHeader(Unlink(mem, b), SetFree(blk, b, false), y)
  {
    UnlinkHeaders(lo, end, mem, blk, lists, MappingInsert(blk[b].size), b, y);
    PrevIsInverse(lo, end, blk, y, b);
    hide Tile, Members, Unlink, Linked, Listed;
  }

  /** After the extraction b is a loose used block, followed by a block told the one before is free. */
  lemma TakeLoose(lo: nat, end: nat, mem: Memory, blk: Blocks, lists: Lists, b: nat)
    requires Consistent(lo, end, mem, blk, lists) && b in blk && blk[b].free && Listed(blk, lists, b)
    requires Linked(mem, lists[MappingInsert(blk[b].size)])
    ensures b + 8 in mem && b + 12 in mem && b + 4 in mem && b != end && Next(blk, b) in blk && Next(blk, b) != b
    ensures SizeOf(mem[b + 4]) == blk[b].size
    ensures var mem' := Unlink(mem, b); var blk' := SetFree(blk, b, false); var n := Next(blk, b);
      && Loose(lo, end, mem', blk', Extracted(lists, MappingInsert(blk[b].size), b), b)
      && n + 4 in mem' && mem'[n + 4] == Word(blk[n].size, false, true)
      && b + 4 in mem' && mem'[b + 4] == Word(blk[b].size, true, false) && !PrevFree(lo, blk', b)
  {
    TakeLists(lo, end, blk, lists, b);
    Neighbours(lo, end, blk, b);
    SizeFits(lo, end, blk, b);
    UnlinkDomain(mem, lists[MappingInsert(blk[b].size)], b);
    var mem' := Unlink(mem, b);
    var blk' := SetFree(blk, b, false);
    var n := Next(blk, b);
    assert HeaderAt(lo, mem, blk, b) && HeaderAt(lo, mem, blk, n);
    assert !PrevFree(lo, blk, b);
    assert PrevFree(lo, blk, n);
    WordParts(blk[b].size, true, false);
    TakenHeader(lo, end, mem, blk, lists, b, b);
    TakenHeader(lo, end, mem, blk, lists, b, n);
    PrevIsInverse(lo, end, blk, b, b);
    hide Inv, Tile, Members, Unlink, Linked, Listed, SizeOf, Coalesced, AllListedBut;
    forall y | y in blk' && y != b && y != n ensures HeaderAt(lo, mem', blk', y) {
      assert HeaderAt(lo, mem, blk, y);
      TakenHeader(lo, end, mem, blk, lists, b, y);
    }
  }

  /** A loose block whose two words are put right completes the heap. */
  lemma LooseSettled(lo: nat, end: nat, mem: Memory, mem': Memory, blk: Blocks, lists: Lists, b: nat)
    requires Loose(lo, end, mem, blk, lists, b) && mem'.Keys == mem.Keys
    requires forall p :: p in mem && p != b + 4 && p != Next(blk, b) + 4 && p != Next(blk, b) ==> mem'[p] == mem[p]
    requires b + 4 in mem' && Next(blk, b) + 4 in mem'
    requires mem'[b + 4] == Word(blk[b].size, false, PrevFree(lo, blk, b))
    requires mem'[Next(blk, b) + 4] == Word(blk[Next(blk, b)].size, false, false)
    ensures Consistent(lo, end, mem', blk, lists) && PayloadsKept(blk, {}, mem, mem')
  {
    var n := Next(blk, b);
    forall y | y in blk ensures HeaderAt(lo, mem', blk, y) {
      HeadersApart(lo, end, blk, y, b);
      HeadersApart(lo, end, blk, y, n);
      PrevIsInverse(lo, end, blk, y, b);
      hide Inv;
      if y != b && y != n {
        assert HeaderAt(lo, mem, blk, y);
      }
    }
    assert Mapped(lo, end, mem') by { hide Inv, HeadersBut, HalfHeader; }
    forall u, p: nat | u in blk && !blk[u].free && PayloadWord(blk, u, p) && p in mem ensures p in mem' && mem'[p] == mem[p] {
      PayloadNotHeader(lo, end, blk, u, p, b);
      PayloadNotHeader(lo, end, blk, u, p, n);
    }
  }

  // ----- the request and what is granted

  /** size rounded up to BLOCK_ALIGN: (size + 7) & ~7. */
  function RoundUp(size: u32): (r: u32)
    requires size + 7 < WORD
    ensures r % 8 == 0 && size <= r < size + 8
  {
    MaskDown8(size + 7);
    And(size + 7, 0xFFFF_FFF8)
  }

  /** The size that malloc_ex looks for. */
  function Adjusted(size: u32): (n: u32)
    requires size + 7 < WORD
    ensures n % 8 == 0 && n >= MIN_BLOCK && n >= size && (n < size + 8 || n == MIN_BLOCK)
  {
    if size < MIN_BLOCK then MIN_BLOCK else RoundUp(size)
  }

  /** Requests whose class is in the matrix. */
  predicate Fits(size: u32)
  {
    size + 7 < WORD && Adjusted(size) < 0x8000_0000 && MappingSearch(Adjusted(size)).0 < SIZE_LIMIT
  }

  /** The size of a request rounded up to its class. */
  function Wanted(size: u32): u32
    requires Fits(size)
  {
    MappingSearch(Adjusted(size)).0
  }

  /** The search from the class of a request finds a block exactly when some free block is
      as large as the rounded request, and then one of that size. */
  lemma SearchOutcome(lo: nat, end: nat, blk: Blocks, lists: Lists, size: u32, b: nat, d: Class)
    requires Fits(size) && Inv(lo, end, Abs(blk, lists))
    requires FirstFrom(lists, MappingSearch(Adjusted(size)).1, b, d)
    ensures Wanted(size) % 8 == 0 && size <= Wanted(size) && MIN_BLOCK <= Wanted(size) < SIZE_LIMIT
    ensures b == 0 <==> NoneFits(blk, size)
    ensures b != 0 ==> b in blk && blk[b].free && Listed(blk, lists, b) && blk[b].size >= Wanted(size)
                       && d == MappingInsert(blk[b].size)
  {
    var n := Adjusted(size);
    var (r, c) := MappingSearch(n);
    SearchIsExact(n, n);
    if b != 0 {
      assert Member(blk, d, lists[d]) && lists[d][0] in lists[d];
      assert SizedAt(lo, end, blk, b);
      SearchIsExact(n, blk[b].size);
    } else {
      forall a | a in blk && blk[a].free ensures blk[a].size < r {
        assert Listed(blk, lists, a);
        assert SizedAt(lo, end, blk, a);
        SearchIsExact(n, blk[a].size);
        hide Tile, Members, MappingSearch, MappingInsert;
      }
    }
  }

  /** The search of malloc_ex is well defined and finds the first suitable list. */
  lemma SearchReady(lo: nat, end: nat, mem: Memory, matrix: Matrix, sl: seq<u32>, fl: u32, blk: Blocks, lists: Lists, size: u32)
    requires Fits(size) && Inv(lo, end, Abs(blk, lists)) && ListsInMemory(mem, matrix, sl, fl, lists)
    ensures var c := MappingSearch(Adjusted(size)).1;
      && ValidClass(c) && RowsMatch(sl, fl)
      && (forall f, s | 0 <= f < REAL_FLI && 0 <= s < MAX_SLI :: Class(f, s) in matrix)
      && var (b, d) := FindSuitable(sl, fl, matrix, c);
      && FirstFrom(lists, c, b, d) && (b != 0 ==> d in lists && lists[d] != [] && b == lists[d][0])
  {
    var n := Adjusted(size);
    var (r, c) := MappingSearch(n);
    SearchIsExact(n, n);
    InsertInRange(r);
    assert Total(lists);
    FindIsFirst(sl, fl, matrix, lists, c);
  }

  /** What a successful malloc_ex does: a was the head of the first list of suitable blocks; it is
      taken, and granted the rounded request or 8 bytes more. */
  ghost predicate Granted(s: Abs, s': Abs, a: nat, size: u32)
  {
    && Fits(size) && a in s.blk && s.blk[a].free && Wanted(size) <= s.blk[a].size < SIZE_LIMIT
    && FirstFrom(s.lists, MappingSearch(Adjusted(size)).1, a, MappingInsert(s.blk[a].size))
    && s' == TakenAbs(s, a, Wanted(size))
    && a in s'.blk && !s'.blk[a].free && (s'.blk[a].size == Wanted(size) || s'.blk[a].size == Wanted(size) + 8)
  }

  lemma LooseParts(lo: nat, end: nat, mem: Memory, blk: Blocks, lists: Lists, b: nat)
    requires Loose(lo, end, mem, blk, lists, b)
    ensures Bounds(lo, end) && Tile(lo, end, blk) && Members(blk, lists) && Inv(lo, end, Abs(blk, lists))
    ensures b in blk && Next(blk, b) in blk && b != lo && b != end && !blk[Next(blk, b)].free && !blk[b].free
    ensures blk[b].size % 8 == 0 && MIN_BLOCK <= blk[b].size < SIZE_LIMIT && b > 0
    ensures SizedAt(lo, end, blk, b)
  {
    SizeFits(lo, end, blk, b);
    assert SizedAt(lo, end, blk, b);
  }

  /** Block b has been extracted but its header still calls it free. */
  ghost predicate Taken(lo: nat, end: nat, mem: Memory, blk: Blocks, lists: Lists, b: nat)
  {
    && b in blk && Loose(lo, end, mem, SetFree(blk, b, false), lists, b) && b + 4 in mem
    && !PrevFree(lo, SetFree(blk, b, false), b) && Next(blk, b) != b && Next(blk, b) + 4 in mem && Next(blk, b) in blk
    && mem[Next(blk, b) + 4] == Word(blk[Next(blk, b)].size, false, true)
    && mem[b + 4] == Word(blk[b].size, true, false) && SizeOf(mem[b + 4]) == blk[b].size
  }

  lemma TakenParts(lo: nat, end: nat, mem: Memory, blk: Blocks, lists: Lists, b: nat)
    requires Taken(lo, end, mem, blk, lists, b)
    ensures var blk' := SetFree(blk, b, false); var n := Next(blk', b);
      && b in blk && blk'[b] == blk[b].(free := false) && Loose(lo, end, mem, blk', lists, b) && b + 4 in mem && !PrevFree(lo, blk', b)
      && n != b && n in blk' && n + 4 in mem
      && mem[n + 4] == Word(blk'[n].size, false, true) && mem[b + 4] == Word(blk'[b].size, true, false)
      && SizeOf(mem[b + 4]) == blk'[b].size
  {
  }

  lemma TakeReady(lo: nat, end: nat, mem: Memory, blk: Blocks, lists: Lists, b: nat)
    requires Consistent(lo, end, mem, blk, lists) && b in blk && blk[b].free && Listed(blk, lists, b)
    requires Linked(mem, lists[MappingInsert(blk[b].size)])
    ensures b + 8 in mem && b + 12 in mem
    ensures Taken(lo, end, Unlink(mem, b), blk, Extracted(lists, MappingInsert(blk[b].size), b), b)
  {
    hide Loose, Unlink, Word, SizeOf, Extracted, Consistent, Listed, Linked, PrevFree, MappingInsert, Members;
    TakeLoose(lo, end, mem, blk, lists, b);
  }

  lemma TakeKeeps(lo: nat, end: nat, mem: Memory, blk: Blocks, lists: Lists, b: nat)
    requires Inv(lo, end, Abs(blk, lists)) && b in blk && blk[b].free && Listed(blk, lists, b)
    requires Linked(mem, lists[MappingInsert(blk[b].size)])
    ensures b + 8 in mem && b + 12 in mem
    ensures PayloadsKept(blk, {}, mem, Unlink(mem, b)) && UsedKept(blk, {}, SetFree(blk, b, false))
  {
    UnlinkKeeps(lo, end, mem, blk, lists, MappingInsert(blk[b].size), b);
  }

  /** The whole block is used: both stale flags are cleared. */
  lemma SettleWhole(lo: nat, end: nat, mem: Memory, blk: Blocks, lists: Lists, b: nat)
    requires Loose(lo, end, mem, blk, lists, b)
    requires mem[b + 4] == Word(blk[b].size, true, PrevFree(lo, blk, b))
    requires Next(blk, b) + 4 in mem && mem[Next(blk, b) + 4] == Word(blk[Next(blk, b)].size, false, true)
    ensures var n := Next(blk, b); var m1 := mem[n + 4 := ClearBit(1, mem[n + 4])];
      && b + 4 in m1
      && var m2 := m1[b + 4 := ClearBit(0, m1[b + 4])];
      && Consistent(lo, end, m2, blk, lists) && PayloadsKept(blk, {}, mem, m2)
  {
    var n := Next(blk, b);
    SizeFits(lo, end, blk, b);
    SizeFits(lo, end, blk, n);
    Neighbours(lo, end, blk, b);
    WordParts(blk[b].size, true, PrevFree(lo, blk, b));
    WordParts(blk[n].size, false, true);
    var m1 := mem[n + 4 := ClearBit(1, mem[n + 4])];
    hide Inv, Tile;
    LooseSettled(lo, end, mem, m1[b + 4 := ClearBit(0, m1[b + 4])], blk, lists, b);
  }

  // ----- realloc_ex: a used block takes in the free block after it

  /** realloc_ex in place: b takes in a free block after it, and is split when enough is left. */
  function ResizedAbs(s: Abs, b: nat, r: nat): Abs
  {
    if b in s.blk then
      var n := Next(s.blk, b);
      var s1 := if n in s.blk && s.blk[n].free then MergedAbs(s, b, n) else s;
      if b in s1.blk && s1.blk[b].size >= r + SPLIT_MIN then CarvedAbs(s1, b, r) else s1
    else s
  }

  lemma AbsorbUsedLists(lo: nat, end: nat, blk: Blocks, lists: Lists, b: nat)
    requires Inv(lo, end, Abs(blk, lists)) && Live(lo, end, blk, b)
    requires Next(blk, b) in blk && blk[Next(blk, b)].free
    ensures Next(blk, Next(blk, b)) in blk && Listed(blk, lists, Next(blk, b))
    ensures Inv(lo, end, Abs(Absorb(blk, b), Extracted(lists, MappingInsert(blk[Next(blk, b)].size), Next(blk, b))))
  {
    var n := Next(blk, b);
    var m := Next(blk, n);
    assert Listed(blk, lists, n);
    var c := MappingInsert(blk[n].size);
    Neighbours(lo, end, blk, b);
    var blk' := Absorb(blk, b);
    var lists' := Extracted(lists, c, n);
    TileAbsorb(lo, end, blk, b);
    forall y | y in blk && blk[y].free && y != n ensures y in blk' && blk'[y].size == blk[y].size && blk'[y].free {
      AbsorbOutside(lo, end, blk, b, y);
    }
    MergeMembers(blk, lists, blk', c, n);
    forall a | a in blk' && blk'[a].free
      ensures Listed(blk', lists', a) && !PrevFree(lo, blk', a)
    {
      AbsorbOutside(lo, end, blk, b, a);
      assert Listed(blk, lists, a) && !PrevFree(lo, blk, a);
      ListedAfterExtract(blk, lists, c, n, a);
    }
    AbsorbOutside(lo, end, blk, b, lo);
  }

  lemma AbsorbedHeader(lo: nat, end: nat, mem: Memory, blk: Blocks, lists: Lists, b: nat, n: nat, y: nat)
    requires Tile(lo, end, blk) && Members(blk, lists) && b in blk && b != end && !blk[b].free && n == Next(blk, b)
    requires n in blk && blk[n].free && n != end && Next(blk, n) in blk && Listed(blk, lists, n)
    requires Linked(mem, lists[MappingInsert(blk[n].size)]) && y in blk && y != n && HeaderAt(lo, mem, blk, y)
    ensures n + 8 in mem && n + 12 in mem && y in Unlink(mem, n) && y + 4 in Unlink(mem, n) && y in Absorb(blk, b)
    ensures Unlink(mem, n)[y] == mem[y] && Unlink(mem, n)[y + 4] == mem[y + 4]
    ensures y != b && y != Next(blk, n) ==> HeaderAt(lo, Unlink(mem, n), Absorb(blk, b), y)
  {
    UnlinkHeaders(lo, end, mem, blk, lists, MappingInsert(blk[n].size), n, y);
    AbsorbOutside(lo, end, blk, b, y);
    hide Tile, Members, Unlink, Linked, Listed;
  }

  /** After its free neighbour n is unlinked, b is loose, grown, and followed by a block told the
      one before is free; the size words of b and n have not changed. */
  ghost predicate TookNext(lo: nat, end: nat, mem: Memory, blk: Blocks, lists: Lists, b: nat, n: nat)
  {
    && b in blk && n == Next(blk, b) && n in blk && n != end && Next(blk, n) in blk && Listed(blk, lists, n)
    && n + 8 in mem && n + 12 in mem && b + 4 in mem && n + 4 in mem
    && var mem' := Unlink(mem, n); var blk' := Absorb(blk, b); var m := Next(blk, n);
    && b in blk' && Next(blk', b) == m && m in blk' && blk'[b].size == blk[b].size + HDR + blk[n].size
    && Loose(lo, end, mem', blk', Extracted(lists, MappingInsert(blk[n].size), n), b)
    && m + 4 in mem' && mem'[m + 4] == Word(blk'[m].size, false, true) && m in mem'
    && b + 4 in mem' && mem'[b + 4] == mem[b + 4] == Word(blk[b].size, false, PrevFree(lo, blk', b))
    && n + 4 in mem' && mem'[n + 4] == mem[n + 4] && SizeOf(mem[n + 4]) == blk[n].size && SizeOf(mem[b + 4]) == blk[b].size
  }

  lemma AbsorbWords(lo: nat, end: nat, mem: Memory, blk: Blocks, lists: Lists, b: nat, n: nat)
    requires Consistent(lo, end, mem, blk, lists) && Live(lo, end, blk, b)
    requires n == Next(blk, b) && n in blk && blk[n].free
    requires Listed(blk, lists, n) && Linked(mem, lists[MappingInsert(blk[n].size)])
    ensures Next(blk, n) in blk && n + 8 in mem && n + 12 in mem && b in Absorb(blk, b) && n != end
    ensures var mem' := Unlink(mem, n); var m := Next(blk, n); var blk' := Absorb(blk, b);
      && m in blk' && blk'[m].size == blk[m].size && !blk'[m].free && Next(blk', b) == m
      && b in mem' && b + 4 in mem' && n + 4 in mem' && m in mem' && m + 4 in mem' && b + 4 in mem && n + 4 in mem
      && PrevFree(lo, blk', b) == PrevFree(lo, blk, b) && blk'[b].prev == blk[b].prev
      && mem'[m + 4] == Word(blk[m].size, false, true)
      && mem'[b + 4] == mem[b + 4] == Word(blk[b].size, false, PrevFree(lo, blk, b))
      && (PrevFree(lo, blk, b) ==> mem'[b] == blk[b].prev)
      && mem'[n + 4] == mem[n + 4] == Word(blk[n].size, true, false)
  {
    var m := Next(blk, n);
    var c := MappingInsert(blk[n].size);
    Neighbours(lo, end, blk, b);
    Neighbours(lo, end, blk, n);
    UnlinkHeaders(lo, end, mem, blk, lists, c, n, n);
    UnlinkHeaders(lo, end, mem, blk, lists, c, n, b);
    UnlinkHeaders(lo, end, mem, blk, lists, c, n, m);
    assert HeaderAt(lo, mem, blk, b) && HeaderAt(lo, mem, blk, m) && HeaderAt(lo, mem, blk, n);
    assert PrevFree(lo, blk, m);
    AbsorbOutside(lo, end, blk, b, b);
    AbsorbOutside(lo, end, blk, b, m);
    hide Tile, Members, Unlink, Linked, Listed, Word, AllListedBut, Mapped, HeadersBut;
  }

  lemma AbsorbLoose(lo: nat, end: nat, mem: Memory, blk: Blocks, lists: Lists, b: nat, n: nat)
    requires Consistent(lo, end, mem, blk, lists) && Live(lo, end, blk, b)
    requires n == Next(blk, b) && n in blk && blk[n].free
    requires forall c: Class {:trigger Linked(mem, lists[c])} :: c in lists ==> Linked(mem, lists[c])
    ensures TookNext(lo, end, mem, blk, lists, b, n)
  {
    AbsorbUsedLists(lo, end, blk, lists, b);
    assert Linked(mem, lists[MappingInsert(blk[n].size)]);
    AbsorbWords(lo, end, mem, blk, lists, b, n);
    UnlinkDomain(mem, lists[MappingInsert(blk[n].size)], n);
    SizeFits(lo, end, blk, b);
    SizeFits(lo, end, blk, n);
    WordParts(blk[b].size, false, PrevFree(lo, blk, b));
    WordParts(blk[n].size, true, false);
    AbsorbOthers(lo, end, mem, blk, lists, b, n);
    hide Inv, Tile, Members, Unlink, Linked, Listed, SizeOf, Coalesced, AllListedBut, Absorb, HeadersBut, Word, PrevFree,
         PrevFreeFlag;
  }

  lemma AbsorbOthers(lo: nat, end: nat, mem: Memory, blk: Blocks, lists: Lists, b: nat, n: nat)
    requires Consistent(lo, end, mem, blk, lists) && Live(lo, end, blk, b)
    requires n == Next(blk, b) && n in blk && blk[n].free && Next(blk, n) in blk && n != end
    requires Listed(blk, lists, n) && Linked(mem, lists[MappingInsert(blk[n].size)])
    ensures n + 8 in mem && n + 12 in mem
    ensures HeadersBut(lo, Unlink(mem, n), Absorb(blk, b), {b, Next(blk, n)})
  {
    UnlinkDomain(mem, lists[MappingInsert(blk[n].size)], n);
    hide Tile, Members, Unlink, Linked, Listed, AllListedBut, Coalesced;
    forall y | y in Absorb(blk, b) && y != b && y != Next(blk, n) ensures HeaderAt(lo, Unlink(mem, n), Absorb(blk, b), y) {
      assert HeaderAt(lo, mem, blk, y);
      AbsorbedHeader(lo, end, mem, blk, lists, b, n, y);
    }
  }

  /** Telling the block after b that b is free, as it is about to be in part. */
  lemma FlagNext(lo: nat, end: nat, mem: Memory, blk: Blocks, lists: Lists, b: nat)
    requires Loose(lo, end, mem, blk, lists, b)
    ensures Next(blk, b) in blk && Next(blk, b) + 4 in mem
    ensures var n := Next(blk, b); var mem' := mem[n + 4 := SetBit(1, mem[n + 4])];
      && Loose(lo, end, mem', blk, lists, b) && mem'[n + 4] == Word(blk[n].size, false, true)
      && PayloadsKept(blk, {}, mem, mem')
  {
    var n := Next(blk, b);
    var mem' := mem[n + 4 := SetBit(1, mem[n + 4])];
    SizeFits(lo, end, blk, n);
    HeadersApart(lo, end, blk, b, n);
    WordParts(blk[n].size, false, true);
    WordParts(blk[n].size, false, false);
    HeaderKeeps(lo, end, mem, blk, n, n + 4, SetBit(1, mem[n + 4]));
    forall y | y in blk && y != b && y != n ensures HeaderAt(lo, mem', blk, y) {
      HeadersApart(lo, end, blk, y, n);
      assert HeaderAt(lo, mem, blk, y);
      hide Inv, Tile;
    }
    hide Inv, Tile, SetBit;
  }

  /** A live block in a complete heap is loose when no free block follows it. */
  lemma LiveLoose(lo: nat, end: nat, mem: Memory, blk: Blocks, lists: Lists, b: nat)
    requires Consistent(lo, end, mem, blk, lists) && Live(lo, end, blk, b)
    ensures Bounds(lo, end) && Next(blk, b) in blk && b + 4 in mem && Next(blk, b) + 4 in mem && SizeOf(mem[b + 4]) == blk[b].size
    ensures FreeFlag(mem[Next(blk, b) + 4]) <==> blk[Next(blk, b)].free
    ensures MIN_BLOCK <= blk[b].size < SIZE_LIMIT && blk[b].size % 8 == 0 && b % 4 == 0 && b > 0 && Next(blk, b) != b
    ensures blk[Next(blk, b)].size < SIZE_LIMIT && SizeOf(mem[Next(blk, b) + 4]) == blk[Next(blk, b)].size
    ensures blk[Next(blk, b)].free ==> blk[Next(blk, b)].size >= MIN_BLOCK
    ensures !blk[Next(blk, b)].free ==> Loose(lo, end, mem, blk, lists, b)
  {
    Neighbours(lo, end, blk, b);
    var n := Next(blk, b);
    SizeFits(lo, end, blk, b);
    SizeFits(lo, end, blk, n);
    assert HeaderAt(lo, mem, blk, b) && HeaderAt(lo, mem, blk, n);
    WordParts(blk[b].size, false, PrevFree(lo, blk, b));
    WordParts(blk[n].size, blk[n].free, PrevFree(lo, blk, n));
    hide Inv, Tile, SizeOf;
  }

  /** A live block that took in its neighbour is used as a whole: its size is written, and the block
      after it told. */
  lemma SettleGrown(lo: nat, end: nat, mem: Memory, blk: Blocks, lists: Lists, b: nat, size: nat)
    requires Loose(lo, end, mem, blk, lists, b) && size % 8 == 0 && size <= blk[b].size
    requires mem[b + 4] == Word(size, false, PrevFree(lo, blk, b))
    requires Next(blk, b) + 4 in mem && Next(blk, b) in mem && mem[Next(blk, b) + 4] == Word(blk[Next(blk, b)].size, false, true)
    ensures mem[b + 4] + (blk[b].size - size) < WORD && b < WORD
    ensures var n := Next(blk, b);
      var m1 := mem[b + 4 := mem[b + 4] + (blk[b].size - size)];
      && b + 4 in m1 && n + 4 in m1 && SizeOf(m1[b + 4]) == blk[b].size
      && var m2 := m1[n := b];
      && n + 4 in m2 && b + 4 in m2 && m2[b + 4] == m1[b + 4]
      && var m3 := m2[n + 4 := ClearBit(1, m2[n + 4])];
      && b + 4 in m3 && m3[b + 4] == m1[b + 4]
      && Consistent(lo, end, m3, blk, lists) && PayloadsKept(blk, {}, mem, m3)
  {
    var n := Next(blk, b);
    SizeFits(lo, end, blk, b);
    SizeFits(lo, end, blk, n);
    Neighbours(lo, end, blk, b);
    WordParts(blk[b].size, false, PrevFree(lo, blk, b));
    WordParts(blk[n].size, false, true);
    var m1 := mem[b + 4 := mem[b + 4] + (blk[b].size - size)];
    var m2 := m1[n := b];
    hide Inv, Tile, SizeOf, ClearBit;
    LooseSettled(lo, end, mem, m2[n + 4 := ClearBit(1, m2[n + 4])], blk, lists, b);
  }

  // ----- copying payloads

  /** The words a payload copy touches are mapped, and the source still holds what it held. */
  lemma CopyReads(lo: nat, end: nat, m0: Memory, mem: Memory, blk: Blocks, lists: Lists, d: nat, u: nat, i: nat)
    requires Inv(lo, end, Abs(blk, lists)) && Mapped(lo, end, mem) && Mapped(lo, end, m0) && PayloadsKept(blk, {d}, m0, mem)
    requires Live(lo, end, blk, d) && Live(lo, end, blk, u) && d != u
    requires i % 4 == 0 && i < blk[d].size && i < blk[u].size
    ensures u + HDR + i in mem && d + HDR + i in mem && PayloadWord(blk, d, d + HDR + i)
    ensures u + HDR + i in m0 && mem[u + HDR + i] == m0[u + HDR + i]
  {
    SizeFits(lo, end, blk, d);
    SizeFits(lo, end, blk, u);
    assert SizedAt(lo, end, blk, d) && SizedAt(lo, end, blk, u);
    hide Inv;
    WordOffset(u, i);
    WordOffset(d, i);
    assert PayloadWord(blk, u, u + HDR + i);
  }

  lemma WordOffset(a: nat, i: nat)
    requires a % 4 == 0 && i % 4 == 0
    ensures (a + HDR + i) % 4 == 0
  {
    assert a + HDR + i == 4 * (a / 4 + 2 + i / 4);
  }

  /** Writing a payload word of a used block disturbs no structure and no other payload. */
  lemma PayloadWrite(lo: nat, end: nat, mem: Memory, matrix: Matrix, sl: seq<u32>, fl: u32, blk: Blocks, lists: Lists,
                     d: nat, p: nat, v: u32)
    requires Consistent(lo, end, mem, blk, lists) && ListsInMemory(mem, matrix, sl, fl, lists)
    requires Live(lo, end, blk, d) && PayloadWord(blk, d, p)
    ensures Consistent(lo, end, mem[p := v], blk, lists) && ListsInMemory(mem[p := v], matrix, sl, fl, lists)
    ensures PayloadsKept(blk, {d}, mem, mem[p := v])
  {
    SizeFits(lo, end, blk, d);
    PayloadNotLink(lo, end, blk, d, p);
    var mem' := mem[p := v];
    forall y | y in blk ensures HeaderAt(lo, mem', blk, y) {
      assert HeaderAt(lo, mem, blk, y);
      PayloadNotHeader(lo, end, blk, d, p, y);
      hide Inv;
    }
    forall u, q: nat | u in blk && !blk[u].free && u != d && PayloadWord(blk, u, q) && q in mem
      ensures q in mem' && mem'[q] == mem[q]
    {
      assert if u < d then Before(blk, u, d) else Before(blk, d, u);
    }
    hide Inv, HeadersBut, PayloadsKept;
    InvParts(lo, end, Abs(blk, lists));
    WriteKeepsLists(mem, matrix, sl, fl, blk, lists, p, v);
  }

  lemma CopyStep(m0: Memory, mem: Memory, blk: Blocks, dst: nat, src: nat, i: nat, len: nat)
    requires dst >= HDR && PrefixKept(m0, mem, src, dst, i) && i % 4 == 0 && src + i in mem && src + i in m0
    requires mem[src + i] == m0[src + i] && dst != src && PayloadsKept(blk, {dst - HDR}, m0, mem) && dst - HDR in blk
    requires PayloadsKept(blk, {dst - HDR}, mem, mem[dst + i := mem[src + i]])
    ensures PrefixKept(m0, mem[dst + i := mem[src + i]], src, dst, i + 4)
    ensures PayloadsKept(blk, {dst - HDR}, m0, mem[dst + i := mem[src + i]])
  {
    var mem' := mem[dst + i := mem[src + i]];
    forall k: nat | k < i + 4 && k % 4 == 0 ensures WordKept(m0, mem', src, dst, k) {
      if k < i { assert WordKept(m0, mem, src, dst, k); }
    }
    UsedRefl(blk, {dst - HDR});
    KeptTrans(blk, {dst - HDR}, m0, mem, blk, {dst - HDR}, mem');
  }

  // ----- what realloc_ex promises

  /** No free block is as large as the rounded request. */
  ghost predicate NoneFits(blk: Blocks, size: u32)
    requires Fits(size)
  {
    forall a :: a in blk && blk[a].free ==> blk[a].size < Wanted(size)
  }

  lemma AdjustedTwice(size: u32)
    requires Fits(size)
    ensures Fits(Adjusted(size)) && Adjusted(Adjusted(size)) == Adjusted(size) && Wanted(Adjusted(size)) == Wanted(size)
  {
    var n := Adjusted(size);
    if n >= MIN_BLOCK { OnlyMultiple(n, Adjusted(n)); }
    hide RoundUp, MappingSearch;
  }

  lemma OnlyMultiple(n: nat, r: nat)
    requires n % 8 == 0 && r % 8 == 0 && n <= r < n + 8
    ensures r == n
  {
  }

  /** A new block at p was granted n bytes and then the block at ptr freed. */
  ghost predicate Moved(lo: nat, s: Abs, s': Abs, ptr: nat, p: nat, n: u32)
  {
    && ptr >= HDR && p >= HDR && Fits(n)
    && Granted(s, TakenAbs(s, p - HDR, Wanted(n)), p - HDR, n)
    && ptr - HDR in TakenAbs(s, p - HDR, Wanted(n)).blk
    && s' == FreedAbs(lo, TakenAbs(s, p - HDR, Wanted(n)), ptr - HDR)
  }

  /** The block can serve n bytes where it is: alone, or together with a free block after it. */
  predicate InPlace(blk: Blocks, b: nat, n: nat)
    requires b in blk
  {
    || n <= blk[b].size
    || (Next(blk, b) in blk && blk[Next(blk, b)].free && n <= blk[b].size + blk[Next(blk, b)].size)
  }

  /** The block at b has the n bytes asked for, or 8 more, and all else of it and of a free block after it is given back. */
  ghost predicate Refitted(s: Abs, s': Abs, b: nat, n: nat)
  {
    b in s.blk && Fitted(s, s', b, RoomEnd(s.blk, b), [Next(s.blk, b)], n)
  }

  /** The block taken at a has the rounded request, or 8 bytes more, and the rest is given back. */
  ghost predicate Allotted(s: Abs, s': Abs, a: nat, size: u32)
  {
    a in s.blk && Fits(size) && Fitted(s, s', a, Next(s.blk, a), [a], Wanted(size))
  }

  /** realloc_ex of a live block to a non-zero size: in place when possible, else moved, else refused;
      the payload common to both sizes is kept. */
  ghost predicate Resized(lo: nat, s: Abs, s': Abs, mem: Memory, mem': Memory, ptr: nat, p: nat, newSize: u32)
  {
    && ptr >= HDR && ptr - HDR in s.blk && Fits(newSize)
    && var b, n := ptr - HDR, Adjusted(newSize);
    && (InPlace(s.blk, b, n) ==> p == ptr && s' == ResizedAbs(s, b, n) && Refitted(s, s', b, n))
    && (!InPlace(s.blk, b, n) ==> (p == 0 <==> NoneFits(s.blk, newSize)))
    && (p == 0 ==> s' == s)
    && (!InPlace(s.blk, b, n) && p != 0 ==> Moved(lo, s, s', ptr, p, n))
    && (p != 0 ==> p >= HDR && p - HDR in s'.blk && !s'.blk[p - HDR].free && s'.blk[p - HDR].size >= newSize
                   && PrefixKept(mem, mem', ptr, p, if s.blk[b].size <= n then s.blk[b].size else n))
  }

  /** The granted block is live, as is any block live before. */
  lemma LiveAfterGrant(lo: nat, end: nat, s: Abs, s': Abs, d: nat, b: nat, n: u32)
    requires Inv(lo, end, s) && Inv(lo, end, s') && Granted(s, s', d, n) && Live(lo, end, s.blk, b) && UsedKept(s.blk, {}, s'.blk)
    ensures Live(lo, end, s'.blk, d) && Live(lo, end, s'.blk, b) && s'.blk[b].size == s.blk[b].size && d != b && b % 4 == 0 && d % 4 == 0
    ensures s'.blk[d].size >= Wanted(n) >= n
  {
    SizeFits(lo, end, s.blk, b);
    SizeFits(lo, end, s.blk, d);
    SearchIsExact(Adjusted(n), Adjusted(n));
    assert s'.blk[b].size == s.blk[b].size;
  }

  /** Frames of a move: allocate d, copy the payload of b into it, free b. */
  lemma MoveKeeps(lo: nat, end: nat, blk: Blocks, b: nat, d: nat, size: nat, m0: Memory, m1: Memory, blk1: Blocks,
                  m2: Memory, blk3: Blocks, m3: Memory)
    requires b in blk && !blk[b].free && size == blk[b].size && d in blk && blk[d].free && b % 4 == 0 && d % 4 == 0
    requires UsedKept(blk, {}, blk1) && PayloadsKept(blk, {}, m0, m1)
    requires d in blk1 && !blk1[d].free && size <= blk1[d].size
    requires PayloadsKept(blk1, {d}, m1, m2) && PrefixKept(m1, m2, b + HDR, d + HDR, size)
    requires UsedKept(blk1, {b}, blk3) && PayloadsKept(blk1, {b}, m2, m3)
    ensures UsedKept(blk, {b}, blk3) && PayloadsKept(blk, {b}, m0, m3)
    ensures PrefixKept(m0, m3, b + HDR, d + HDR, size)
    ensures d in blk3 && !blk3[d].free && blk3[d].size == blk1[d].size
  {
    assert blk3[d].size == blk1[d].size;
    forall u | u in blk && !blk[u].free && u != b ensures u in blk3 && !blk3[u].free && blk3[u].size == blk[u].size {
      assert blk1[u].size == blk[u].size;
    }
    forall u, p: nat | u in blk && !blk[u].free && u != b && PayloadWord(blk, u, p) && p in m0
      ensures p in m3 && m3[p] == m0[p]
    {
      assert blk1[u].size == blk[u].size && PayloadWord(blk1, u, p);
    }
    PrefixFromPayload(blk, {}, m0, m1, b, size);
    PrefixFromPayload(blk1, {b}, m2, m3, d, size);
    PrefixTrans(m0, m1, m2, b + HDR, b + HDR, d + HDR, size);
    PrefixTrans(m0, m2, m3, b + HDR, d + HDR, d + HDR, size);
  }

  lemma NoneFitsTwice(blk: Blocks, size: u32)
    requires Fits(size)
    ensures Fits(Adjusted(size)) && (NoneFits(blk, Adjusted(size)) <==> NoneFits(blk, size))
  {
    AdjustedTwice(size);
    hide Adjusted, Fits, MappingSearch;
  }

  lemma GrantedByUse(s: Abs, s': Abs, a: nat, size: u32)
    requires Fits(size) && a in s.blk && s.blk[a].free && Wanted(size) <= s.blk[a].size < SIZE_LIMIT
    requires MappingInsert(s.blk[a].size) in s.lists
    requires FirstFrom(s.lists, MappingSearch(Adjusted(size)).1, a, MappingInsert(s.blk[a].size))
    requires var s1 := Abs(SetFree(s.blk, a, false), Extracted(s.lists, MappingInsert(s.blk[a].size), a));
      s' == if s.blk[a].size >= Wanted(size) + SPLIT_MIN then CarvedAbs(s1, a, Wanted(size)) else s1
    requires a in s'.blk && !s'.blk[a].free && (s'.blk[a].size == Wanted(size) || s'.blk[a].size == Wanted(size) + 8)
    ensures Granted(s, s', a, size)
  {
  }
}
