/** The heap invariant: headers in memory, free lists and bitmaps all describe one tiling. */
module Invariant {
  import opened Words
  import opened Mapping
  import opened Heap
  import opened FreeLists

  /** The managed area: word aligned, in a 32-bit address space, within the size classes. */
  predicate Bounds(lo: nat, end: nat)
  {
    0 < lo && lo % 4 == 0 && lo < end && end + HDR <= WORD && end - lo < SIZE_LIMIT
  }

  /** Every word of the area is mapped. */
  ghost predicate Mapped(lo: nat, end: nat, mem: Memory)
  {
    forall p: nat :: lo <= p < end + HDR && p % 4 == 0 ==> p in mem
  }

  /** The header of a: its size and flags, and prev_hdr when the block before is free. */
  predicate HeaderAt(lo: nat, mem: Memory, blk: Blocks, a: nat)
    requires a in blk
  {
    && a in mem && a + 4 in mem
    && mem[a + 4] == Word(blk[a].size, blk[a].free, PrevFree(lo, blk, a))
    && (PrevFree(lo, blk, a) ==> mem[a] == blk[a].prev)
  }

  /** Size and state of a are recorded; the flag about the block before may be stale. */
  predicate HalfHeader(mem: Memory, blk: Blocks, a: nat)
    requires a in blk
  {
    && a in mem && a + 4 in mem
    && (mem[a + 4] == Word(blk[a].size, blk[a].free, true) || mem[a + 4] == Word(blk[a].size, blk[a].free, false))
  }

  ghost predicate HeadersBut(lo: nat, mem: Memory, blk: Blocks, ex: set<nat>)
  {
    forall a {:trigger HeaderAt(lo, mem, blk, a)} :: a in blk && a !in ex ==> HeaderAt(lo, mem, blk, a)
  }

  /** The members of list c are free blocks of that class, each once. */
  ghost predicate Member(blk: Blocks, c: Class, l: seq<nat>)
  {
    && Distinct(l)
    && forall x :: x in l ==> x in blk && blk[x].free && blk[x].size < SIZE_LIMIT && MappingInsert(blk[x].size) == c
  }

  ghost predicate Members(blk: Blocks, lists: Lists)
  {
    && Total(lists)
    && forall c: Class {:trigger Member(blk, c, lists[c])} :: c in lists ==> ValidClass(c) && Member(blk, c, lists[c])
  }

  predicate Listed(blk: Blocks, lists: Lists, a: nat)
    requires a in blk
  {
    blk[a].size < SIZE_LIMIT &&
    var c := MappingInsert(blk[a].size);
    c in lists && a in lists[c]
  }

  /** Every free block but those excepted is on the list of its class. */
  ghost predicate AllListedBut(blk: Blocks, lists: Lists, ex: set<nat>)
  {
    forall a {:trigger Listed(blk, lists, a)} :: a in blk && blk[a].free && a !in ex ==> Listed(blk, lists, a)
  }

  ghost predicate Unlisted(lists: Lists, a: nat)
  {
    forall c: Class :: c in lists ==> a !in lists[c]
  }

  /** The lists and bitmaps in memory are the given ones. */
  ghost predicate ListsInMemory(mem: Memory, matrix: Matrix, sl: seq<u32>, fl: u32, lists: Lists)
  {
    && Heads(matrix, lists) && Bitmaps(sl, fl, lists)
    && forall c: Class {:trigger Linked(mem, lists[c])} :: c in lists ==> Linked(mem, lists[c])
  }

  /** The first block holds the area's own record and is never given out. */
  predicate InfoBlock(lo: nat, blk: Blocks)
  {
    lo in blk && blk[lo] == Blk(8, false, 0)
  }

  /** The abstract heap. */
  datatype Abs = Abs(blk: Blocks, lists: Lists)

  ghost predicate Inv(lo: nat, end: nat, s: Abs)
  {
    && Bounds(lo, end) && Tile(lo, end, s.blk) && InfoBlock(lo, s.blk)
    && Coalesced(lo, s.blk)
    && Members(s.blk, s.lists) && AllListedBut(s.blk, s.lists, {})
  }

  /** An allocated block that may be passed to free and realloc. */
  predicate Live(lo: nat, end: nat, blk: Blocks, a: nat)
  {
    a in blk && !blk[a].free && a != lo && a != end
  }

  // ----- which words belong to links

  /** p is not a link word of any free block. */
  ghost predicate NotLink(blk: Blocks, p: nat)
  {
    forall x :: x in blk && blk[x].free ==> p != x + 8 && p != x + 12
  }

  lemma HeaderNotLink(lo: nat, end: nat, blk: Blocks, a: nat)
    requires Tile(lo, end, blk) && a in blk
    ensures NotLink(blk, a) && NotLink(blk, a + 4)
  {
    forall x | x in blk && blk[x].free ensures a != x + 8 && a != x + 12 && a + 4 != x + 8 && a + 4 != x + 12 {
      if x != a { BlocksApart(lo, end, blk, a, x); }
    }
  }

  lemma PayloadNotLink(lo: nat, end: nat, blk: Blocks, a: nat, p: nat)
    requires Tile(lo, end, blk) && a in blk && !blk[a].free && a + HDR <= p < a + HDR + blk[a].size
    requires p % 4 == a % 4
    ensures NotLink(blk, p)
  {
    forall x | x in blk && blk[x].free ensures p != x + 8 && p != x + 12 {
      assert SizedAt(lo, end, blk, x) && x != end;
      assert if x < a then Before(blk, x, a) else Before(blk, a, x);
    }
  }

  lemma MembersSpaced(lo: nat, end: nat, blk: Blocks, lists: Lists, c: Class)
    requires 0 < lo && Tile(lo, end, blk) && Members(blk, lists) && c in lists
    ensures Spaced(lists[c]) && forall x :: x in lists[c] ==> x in blk && blk[x].free && lo <= x < end
  {
    assert Member(blk, c, lists[c]);
    forall x | x in lists[c] ensures x in blk && blk[x].free && lo <= x < end {
      assert SizedAt(lo, end, blk, x);
    }
    forall x, y | x in lists[c] && y in lists[c] && x < y ensures x + SPLIT_MIN <= y {
      BlocksApart(lo, end, blk, x, y);
    }
  }

  /** Unlinking writes only link words of free blocks. */
  lemma UnlinkElsewhere(lo: nat, end: nat, mem: Memory, blk: Blocks, lists: Lists, c: Class, x: nat, p: nat)
    requires Members(blk, lists) && c in lists && x in lists[c]
    requires Linked(mem, lists[c]) && NotLink(blk, p)
    ensures x + 8 in mem && x + 12 in mem && Unlink(mem, x).Keys == mem.Keys
    ensures p in mem ==> Unlink(mem, x)[p] == mem[p]
  {
    assert Member(blk, c, lists[c]);
    UnlinkDomain(mem, lists[c], x);
    UnlinkFrame(mem, lists[c], x, p);
  }

  /** Removing a member keeps the other lists linked as well. */
  lemma UnlinkKeepsLists(lo: nat, end: nat, mem: Memory, blk: Blocks, lists: Lists, c: Class, x: nat, d: Class)
    requires 0 < lo && Tile(lo, end, blk) && Members(blk, lists) && c in lists && x in lists[c] && d in lists
    requires Linked(mem, lists[c]) && Linked(mem, lists[d])
    ensures x + 8 in mem && x + 12 in mem
    ensures Linked(Unlink(mem, x), if d == c then Remove(lists[c], x) else lists[d])
  {
    UnlinkDomain(mem, lists[c], x);
    if d == c {
      MembersSpaced(lo, end, blk, lists, c);
      hide Tile;
      var i: nat :| i < |lists[c]| && lists[c][i] == x;
      assert Member(blk, c, lists[c]);
      UnlinkKeepsList(mem, lists[c], i);
    } else {
      ListsApart(lo, end, blk, lists, c, d);
      hide Tile, Members;
      UnlinkOtherList(mem, lists[c], x, lists[d]);
    }
  }

  lemma ListsApart(lo: nat, end: nat, blk: Blocks, lists: Lists, c: Class, d: Class)
    requires Tile(lo, end, blk) && Members(blk, lists) && c in lists && d in lists && c != d
    ensures forall y :: y in lists[d] ==> OffList(lists[c], y + 8) && OffList(lists[c], y + 12)
  {
    hide Tile, Members;
    forall y | y in lists[d] ensures OffList(lists[c], y + 8) && OffList(lists[c], y + 12) {
      forall z | z in lists[c] ensures y + SPLIT_MIN <= z || z + SPLIT_MIN <= y {
        TwoClasses(lo, end, blk, lists, c, z, d, y);
      }
    }
  }

  lemma TwoClasses(lo: nat, end: nat, blk: Blocks, lists: Lists, c: Class, x: nat, d: Class, y: nat)
    requires Tile(lo, end, blk) && Members(blk, lists) && c in lists && d in lists && c != d
    requires x in lists[c] && y in lists[d]
    ensures x + SPLIT_MIN <= y || y + SPLIT_MIN <= x
  {
    assert Member(blk, c, lists[c]) && Member(blk, d, lists[d]);
    BlocksApart(lo, end, blk, x, y);
  }

  // ----- EXTRACT_BLOCK and INSERT_BLOCK on the whole structure

  function Extracted(lists: Lists, c: Class, x: nat): Lists
    requires c in lists
  {
    lists[c := Remove(lists[c], x)]
  }

  function Inserted(lists: Lists, c: Class, x: nat): Lists
    requires c in lists
  {
    lists[c := [x] + lists[c]]
  }

  lemma {:induction false} RemoveMembers(l: seq<nat>, x: nat, y: nat)
    requires Distinct(l)
    ensures y in Remove(l, x) <==> y in l && y != x
  {
    if l != [] {
      assert forall j :: 1 <= j < |l| ==> l[j] == l[1..][j - 1];
      RemoveMembers(l[1..], x, y);
      assert y in l <==> y == l[0] || y in l[1..];
      if l[0] == x {
        assert x !in l[1..];
      }
    }
  }

  lemma {:induction false} RemoveDistinct(l: seq<nat>, x: nat)
    requires Distinct(l)
    ensures Distinct(Remove(l, x))
  {
    if l != [] && l[0] != x {
      var t := l[1..];
      assert Distinct(t);
      RemoveDistinct(t, x);
      RemoveMembers(t, x, l[0]);
      assert l[0] !in t;
    }
  }

  lemma MembersExtracted(blk: Blocks, lists: Lists, c: Class, x: nat)
    requires Members(blk, lists) && c in lists && x in lists[c]
    ensures Members(blk, Extracted(lists, c, x)) && Unlisted(Extracted(lists, c, x), x)
  {
    var lists' := Extracted(lists, c, x);
    assert Total(lists');
    assert Member(blk, c, lists[c]);
    RemoveDistinct(lists[c], x);
    forall y ensures y in lists'[c] <==> y in lists[c] && y != x { RemoveMembers(lists[c], x, y); }
    assert Member(blk, c, lists'[c]);
    forall d: Class | d in lists' ensures ValidClass(d) && Member(blk, d, lists'[d]) && x !in lists'[d] {
      if d != c { assert Member(blk, d, lists[d]); }
    }
  }

  lemma ListedAfterExtract(blk: Blocks, lists: Lists, c: Class, x: nat, a: nat)
    requires Members(blk, lists) && c in lists && x in lists[c] && a in blk && Listed(blk, lists, a) && a != x
    ensures Listed(blk, Extracted(lists, c, x), a)
  {
    assert Member(blk, c, lists[c]);
    RemoveMembers(lists[c], x, a);
  }

  lemma MembersInserted(blk: Blocks, lists: Lists, c: Class, x: nat)
    requires Members(blk, lists) && c in lists && Unlisted(lists, x)
    requires x in blk && blk[x].free && blk[x].size < SIZE_LIMIT && MappingInsert(blk[x].size) == c
    ensures Members(blk, Inserted(lists, c, x)) && Listed(blk, Inserted(lists, c, x), x)
  {
    var lists' := Inserted(lists, c, x);
    assert Total(lists');
    assert Member(blk, c, lists[c]);
    assert Member(blk, c, lists'[c]);
    forall d: Class | d in lists' ensures ValidClass(d) && Member(blk, d, lists'[d]) {
      if d != c { assert Member(blk, d, lists[d]); }
    }
  }

  lemma HeadsExtracted(mem: Memory, matrix: Matrix, lists: Lists, c: Class, x: nat)
    requires Heads(matrix, lists) && c in lists && x in lists[c] && Linked(mem, lists[c]) && Distinct(lists[c])
    requires Spaced(lists[c])
    ensures x + 12 in mem
    ensures matrix[c] == x <==> lists[c][0] == x
    ensures Heads(if matrix[c] == x then matrix[c := mem[x + 12]] else matrix, Extracted(lists, c, x))
    ensures matrix[c] == x ==> (Remove(lists[c], x) == [] <==> mem[x + 12] == 0)
    ensures matrix[c] != x ==> Remove(lists[c], x) != []
  {
    UnlinkDomain(mem, lists[c], x);
    var l := lists[c];
    if l[0] == x {
      assert LinkedAt(mem, l, 0);
      if |l| > 1 { assert l[1] in l; }
    }
    forall y | y in Remove(l, x) ensures y in l { RemoveMembers(l, x, y); }
    assert Remove(l, x) != [] ==> Remove(l, x)[0] in l;
  }

  lemma ListsExtracted(lo: nat, end: nat, mem: Memory, matrix: Matrix, sl: seq<u32>, fl: u32, blk: Blocks, lists: Lists,
                       c: Class, x: nat)
    requires 0 < lo && Tile(lo, end, blk) && Members(blk, lists) && c in lists && x in lists[c]
    requires forall d: Class :: d in lists ==> Linked(mem, lists[d])
    ensures x + 8 in mem && x + 12 in mem
    ensures forall d: Class :: d in Extracted(lists, c, x) ==> Linked(Unlink(mem, x), Extracted(lists, c, x)[d])
  {
    hide Tile, Members;
    UnlinkDomain(mem, lists[c], x);
    forall d: Class | d in lists ensures Linked(Unlink(mem, x), Extracted(lists, c, x)[d]) {
      UnlinkKeepsLists(lo, end, mem, blk, lists, c, x, d);
    }
  }

  lemma ListsInserted(lo: nat, end: nat, mem: Memory, blk: Blocks, lists: Lists, c: Class, x: u32, h: u32)
    requires 0 < lo && Tile(lo, end, blk) && Members(blk, lists) && c in lists && Unlisted(lists, x)
    requires x in blk && blk[x].free && blk[x].size < SIZE_LIMIT && MappingInsert(blk[x].size) == c
    requires h == if lists[c] == [] then 0 else lists[c][0]
    requires forall d: Class :: d in lists ==> Linked(mem, lists[d])
    ensures forall d: Class :: d in Inserted(lists, c, x) ==> Linked(Link(mem, x, h), Inserted(lists, c, x)[d])
  {
    var lists' := Inserted(lists, c, x);
    MembersInserted(blk, lists, c, x);
    MembersSpaced(lo, end, blk, lists', c);
    assert Member(blk, c, lists'[c]);
    LinkExtendsList(mem, lists[c], x);
    forall d: Class | d in lists' && d != c ensures Linked(Link(mem, x, h), lists'[d]) {
      ListsApart(lo, end, blk, lists', c, d);
      hide Tile, Members, Unlisted;
      LinkOtherList(mem, lists[c], x, h, lists[d]);
    }
  }

  /** What EXTRACT_BLOCK makes of the matrix and the bitmaps, next being the link of the block removed. */
  lemma ExtractRep(lo: nat, end: nat, mem: Memory, matrix: Matrix, sl: seq<u32>, fl: u32, blk: Blocks, lists: Lists,
                   c: Class, b: nat)
    requires 0 < lo && Tile(lo, end, blk) && Members(blk, lists) && ListsInMemory(mem, matrix, sl, fl, lists)
    requires c in lists && b in lists[c]
    ensures b + 8 in mem && b + 12 in mem && c in matrix && ValidClass(c) && |sl| == REAL_FLI
    ensures var next := mem[b + 12];
      var matrix' := if matrix[c] == b then matrix[c := next] else matrix;
      var emptied := matrix[c] == b && next == 0;
      var sl' := if emptied then sl[c.fl := ClearBit(c.sl, sl[c.fl])] else sl;
      var fl' := if emptied && sl'[c.fl] == 0 then ClearBit(c.fl, fl) else fl;
      ListsInMemory(Unlink(mem, b), matrix', sl', fl', Extracted(lists, c, b))
  {
    assert Member(blk, c, lists[c]) && Linked(mem, lists[c]);
    MembersSpaced(lo, end, blk, lists, c);
    HeadsExtracted(mem, matrix, lists, c, b);
    assert forall d: Class :: d in lists ==> Linked(mem, lists[d]);
    ListsExtracted(lo, end, mem, matrix, sl, fl, blk, lists, c, b);
    hide Tile, Members, Member, Heads, Linked, Unlink, Spaced, Distinct;
    var l' := Remove(lists[c], b);
    if l' == [] { BitmapsAfterEmptied(sl, fl, lists, c); } else { BitmapsSameShape(sl, fl, lists, c, l'); }
    hide Bitmaps, Remove;
  }

  /** What INSERT_BLOCK makes of the matrix and the bitmaps. */
  lemma InsertRep(lo: nat, end: nat, mem: Memory, matrix: Matrix, sl: seq<u32>, fl: u32, blk: Blocks, lists: Lists,
                  c: Class, b: u32)
    requires 0 < lo && Tile(lo, end, blk) && Members(blk, lists) && ListsInMemory(mem, matrix, sl, fl, lists)
    requires c in lists && Unlisted(lists, b)
    requires b in blk && blk[b].free && blk[b].size < SIZE_LIMIT && MappingInsert(blk[b].size) == c
    requires matrix[c] < WORD
    ensures ValidClass(c) && |sl| == REAL_FLI
    ensures ListsInMemory(Link(mem, b, matrix[c]), matrix[c := b], sl[c.fl := SetBit(c.sl, sl[c.fl])], SetBit(c.fl, fl),
                          Inserted(lists, c, b))
  {
    assert forall d: Class :: d in lists ==> Linked(mem, lists[d]);
    ListsInserted(lo, end, mem, blk, lists, c, b, matrix[c]);
    BitmapsAfterInsert(sl, fl, lists, c, [b] + lists[c]);
    assert SizedAt(lo, end, blk, b);
    hide Tile, Members, Linked, Bitmaps, Unlisted;
    assert Heads(matrix[c := b], Inserted(lists, c, b));
  }

  lemma HeadFits(lo: nat, end: nat, blk: Blocks, lists: Lists, matrix: Matrix, c: Class)
    requires Bounds(lo, end) && Tile(lo, end, blk) && Members(blk, lists) && Heads(matrix, lists) && c in lists
    ensures ValidClass(c) && matrix[c] == (if lists[c] == [] then 0 else lists[c][0]) && matrix[c] < WORD
  {
    MembersSpaced(lo, end, blk, lists, c);
    if lists[c] != [] { assert lists[c][0] in lists[c]; }
  }

  lemma ListsLinked(mem: Memory, matrix: Matrix, sl: seq<u32>, fl: u32, lists: Lists)
    requires ListsInMemory(mem, matrix, sl, fl, lists)
    ensures forall c: Class {:trigger Linked(mem, lists[c])} :: c in lists ==> Linked(mem, lists[c])
    ensures Heads(matrix, lists)
  {
  }

  /** Writing a word that is no link leaves the lists alone. */
  lemma WriteKeepsLists(mem: Memory, matrix: Matrix, sl: seq<u32>, fl: u32, blk: Blocks, lists: Lists, q: nat, v: u32)
    requires Members(blk, lists) && ListsInMemory(mem, matrix, sl, fl, lists) && NotLink(blk, q)
    ensures ListsInMemory(mem[q := v], matrix, sl, fl, lists)
  {
    forall c: Class | c in lists ensures Linked(mem[q := v], lists[c]) {
      assert Member(blk, c, lists[c]) && Linked(mem, lists[c]);
      forall x | x in lists[c] ensures x + 8 in mem && x + 12 in mem {
        var i: nat :| i < |lists[c]| && lists[c][i] == x;
        assert LinkedAt(mem, lists[c], i);
      }
      hide Members, Heads, Bitmaps, Linked;
      LinkedElsewhere(mem, mem[q := v], lists[c]);
    }
    hide Heads, Bitmaps;
  }

  /** Writing a header word of any block leaves the lists alone. */
  lemma HeaderWriteKeepsLists(lo: nat, end: nat, mem: Memory, matrix: Matrix, sl: seq<u32>, fl: u32, blk: Blocks, lists: Lists,
                              y: nat, q: nat, v: u32)
    requires Tile(lo, end, blk) && Members(blk, lists) && ListsInMemory(mem, matrix, sl, fl, lists)
    requires y in blk && (q == y || q == y + 4)
    ensures ListsInMemory(mem[q := v], matrix, sl, fl, lists)
  {
    hide ListsInMemory, Tile, Members;
    HeaderNotLink(lo, end, blk, y);
    WriteKeepsLists(mem, matrix, sl, fl, blk, lists, q, v);
  }

  lemma InvParts(lo: nat, end: nat, s: Abs)
    requires Inv(lo, end, s)
    ensures Bounds(lo, end) && Tile(lo, end, s.blk) && Members(s.blk, s.lists) && InfoBlock(lo, s.blk)
  {
  }
}
