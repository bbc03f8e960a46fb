/** fdt_rw.c: opening a blob for editing and packing it, blocks put in order header, reservations, structure, strings. */
module FdtPack {

  import opened Bytes
  import opened Tokens
  import opened Trees
  import opened Blob
  import opened Copy
  import opened Cursor
  import opened Fdt
  import opened Edits
  import opened Nodes
  import opened FdtRw

  // ----- fdt_num_mem_rsv

  lemma {:induction false} RsvSkip(r: seq<byte>, i: nat)
    requires i <= RsvCount(r)
    ensures 16 * i <= |r| && RsvCount(r) == i + RsvCount(r[16 * i..])
    decreases i
  {
    if i > 0 {
      RsvSkip(r[16..], i - 1);
      assert r[16..][16 * (i - 1)..] == r[16 * i..];
    } else {
      assert r[0..] == r;
    }
  }

  method NumMemRsv(fdt: array<byte>) returns (n: nat)
    requires Sound(fdt[..])
    ensures n == RsvCount(fdt[..][Head(fdt[..]).offRsv..Head(fdt[..]).totalSize])
  {
    hide U32, Streams, StreamLen, RsvCount, Region, Strings;
    ghost var s := fdt[..];
    var h := Head(fdt[..]);
    ghost var r := s[h.offRsv..h.totalSize];
    n := 0;
    EntryInTable(s, r, h.offRsv, 0);
    while U64(fdt[..], h.offRsv + 16 * n + 8) != 0
      invariant n <= RsvCount(r) && h.offRsv + 16 * n + 16 <= |s|
      invariant n == RsvCount(r) <==> U64(s, h.offRsv + 16 * n + 8) == 0
      decreases RsvCount(r) - n
    {
      EntryInTable(s, r, h.offRsv, n + 1);
      n := n + 1;
    }
  }

  lemma EntryInTable(s: seq<byte>, r: seq<byte>, o: nat, n: nat)
    requires o + |r| <= |s| && r == s[o..o + |r|] && Terminated(r) && n <= RsvCount(r)
    ensures o + 16 * n + 16 <= |s|
    ensures n == RsvCount(r) <==> U64(s, o + 16 * n + 8) == 0
  {
    hide U32, RsvCount;
    RsvSkip(r, n);
    var q := r[16 * n..];
    CountZero(q);
    TailU64(r, 16 * n);
    SliceU64(s, o, o + |r|, 16 * n + 8);
  }

  lemma CountZero(q: seq<byte>)
    ensures |q| >= 16 ==> (RsvCount(q) == 0 <==> U64(q, 8) == 0)
  {
    hide U32;
  }

  lemma TailU64(r: seq<byte>, i: nat)
    requires i + 16 <= |r|
    ensures U64(r[i..], 8) == U64(r, i + 8)
  {
    hide U32;
    assert r[i..] == r[i..|r|];
    WordOfSlice(r, i, |r|, 8); WordOfSlice(r, i, |r|, 12);
  }

  lemma SliceU64(s: seq<byte>, i: nat, j: nat, o: nat)
    requires i + o + 8 <= j <= |s|
    ensures U64(s[i..j], o) == U64(s, i + o)
  {
    hide U32;
    WordOfSlice(s, i, j, o); WordOfSlice(s, i, j, o + 4);
  }

  // ----- the size of the structure block

  /** The loop of fdt_open_into over a version 16 blob. */
  method StructSize(fdt: array<byte>) returns (size: int)
    requires Sound(fdt[..])
    ensures size == StructLen(fdt[..])
  {
    hide U32, Streams, StreamLen, RsvCount, Region, Strings, Parses, First, TagAt;
    ghost var s := fdt[..];
    var h := Head(fdt[..]);
    if h.version >= 17 {
      return h.sizeStruct;
    }
    ghost var b := Region(s);
    size := 0;
    RegionSize(s);
    ScanStarts(b);
    var tag: Word, next := NOP, 0;
    while tag != END
      invariant |b| < LIMIT && fdt[..] == s && (tag != END ==> 0 <= next <= |b| && Parses(b[..next]))
      invariant tag == END ==> next == StreamLen(b)
      decreases |b| - next, tag != END
    {
      ScanTag(b, next);
      tag, next := NextTag(fdt, next);
    }
    return next;
  }

  lemma RegionSize(s: seq<byte>)
    requires Readable(s)
    ensures |Region(s)| < LIMIT
  {
    hide U32;
  }

  lemma ScanStarts(b: seq<byte>)
    ensures Parses(b[..0])
  {
    assert b[..0] == [];
  }

  /** One tag of the loop: the end of the block at END, the next boundary otherwise. */
  lemma ScanTag(b: seq<byte>, o: nat)
    requires |b| < LIMIT && Streams(b) && o <= |b| && Parses(b[..o])
    ensures o < LIMIT - 4 && var t := TagAt(b, o);
      t.next > o && if t.tag == END then t.next == StreamLen(b) else t.next <= |b| && Parses(b[..t.next])
  {
    hide First, Parses, Parse, U32, TagAt, Streams, Stream, StreamLen;
    ParseAligned(b[..o]);
    StreamFrom(b, o);
    StreamStarts(b[o..]);
    TagIsFirst(b, o);
    var x := First(b[o..]).value;
    TagsApart(x.tok);
    if x.tok != End { ParseNext(b, o, x); }
  }

  // ----- _fdt_packblocks

  lemma PutAt(s: seq<byte>, o: nat, v: seq<byte>)
    requires o + |v| <= |s|
    ensures forall x {:trigger Put(s, o, v)[x]} :: 0 <= x < |s| ==> Put(s, o, v)[x] == if o <= x < o + |v| then v[x - o] else s[x]
  {
  }

  /** The blocks of a packed blob that starts at nb. */
  datatype Blocks = Blocks(rsv: seq<byte>, str: seq<byte>, strs: seq<byte>)

  function Total(b: Blocks): nat
  {
    HEADER_SIZE + |b.rsv| + |b.str| + |b.strs|
  }

  /** The writes of _fdt_packblocks, in order. */
  function PackRsv(n: seq<byte>, nb: nat, b: Blocks): (r: seq<byte>)
    requires nb + Total(b) <= |n|
    ensures |r| == |n|
  {
    Put(Put(n, nb + 40, b.rsv), nb + 16, Be32(40))
  }

  function PackStruct(n: seq<byte>, nb: nat, b: Blocks): (r: seq<byte>)
    requires nb + Total(b) <= |n| && Total(b) < W32
    ensures |r| == |n|
  {
    var off := 40 + |b.rsv|;
    Put(Put(Put(n, nb + off, b.str), nb + 8, Be32(off)), nb + 36, Be32(|b.str|))
  }

  function PackStrings(n: seq<byte>, nb: nat, b: Blocks): (r: seq<byte>)
    requires nb + Total(b) <= |n| && Total(b) < W32
    ensures |r| == |n|
  {
    var off := 40 + |b.rsv| + |b.str|;
    Put(Put(Put(n, nb + off, b.strs), nb + 12, Be32(off)), nb + 32, Be32(|b.strs|))
  }

  function PackAll(n: seq<byte>, nb: nat, b: Blocks): (r: seq<byte>)
    requires nb + Total(b) <= |n| && Total(b) < W32
    ensures |r| == |n|
  {
    PackStrings(PackStruct(PackRsv(n, nb, b), nb, b), nb, b)
  }

  /** What a packed blob at nb reads as. */
  ghost predicate PackedAt(n: seq<byte>, n': seq<byte>, nb: nat, b: Blocks)
  {
    && |n'| == |n| && nb + Total(b) <= |n|
    && n'[nb + 40..nb + 40 + |b.rsv|] == b.rsv
    && n'[nb + 40 + |b.rsv|..nb + 40 + |b.rsv| + |b.str|] == b.str
    && n'[nb + 40 + |b.rsv| + |b.str|..nb + Total(b)] == b.strs
    && U32(n', nb + 16) == 40 && U32(n', nb + 8) == 40 + |b.rsv| && U32(n', nb + 36) == |b.str|
    && U32(n', nb + 12) == 40 + |b.rsv| + |b.str| && U32(n', nb + 32) == |b.strs|
    && n'[nb..nb + 8] == n[nb..nb + 8] && n'[nb + 20..nb + 32] == n[nb + 20..nb + 32]
  }

  /** The byte at x of a packed blob. */
  lemma PackByte(n: seq<byte>, nb: nat, b: Blocks, x: nat)
    requires nb + Total(b) <= |n| && Total(b) < W32 && nb <= x < nb + Total(b)
    ensures var o1, o2, o3 := 40, 40 + |b.rsv|, 40 + |b.rsv| + |b.str|; var y := x - nb;
      PackAll(n, nb, b)[x] ==
      if y >= o3 then b.strs[y - o3] else if y >= o2 then b.str[y - o2] else if y >= o1 then b.rsv[y - o1]
      else if y >= 36 then Be32(|b.str|)[y - 36] else if y >= 32 then Be32(|b.strs|)[y - 32] else if y >= 20 then n[x]
      else if y >= 16 then Be32(40)[y - 16] else if y >= 12 then Be32(o3)[y - 12] else if y >= 8 then Be32(o2)[y - 8] else n[x]
  {
    hide Be32, Put;
    var o1, o2, o3 := nb + 40, nb + 40 + |b.rsv|, nb + 40 + |b.rsv| + |b.str|;
    var p1 := Put(n, o1, b.rsv);
    PutAt(n, o1, b.rsv);
    var p2 := Put(p1, nb + 16, Be32(40));
    PutAt(p1, nb + 16, Be32(40));
    var p3 := Put(p2, o2, b.str);
    PutAt(p2, o2, b.str);
    var p4 := Put(p3, nb + 8, Be32(40 + |b.rsv|));
    PutAt(p3, nb + 8, Be32(40 + |b.rsv|));
    var p5 := Put(p4, nb + 36, Be32(|b.str|));
    PutAt(p4, nb + 36, Be32(|b.str|));
    var p6 := Put(p5, o3, b.strs);
    PutAt(p5, o3, b.strs);
    var p7 := Put(p6, nb + 12, Be32(40 + |b.rsv| + |b.str|));
    PutAt(p6, nb + 12, Be32(40 + |b.rsv| + |b.str|));
    PutAt(p7, nb + 32, Be32(|b.strs|));
  }

  /** Four bytes of a packed blob that are those of a word. */
  lemma PackWord(n: seq<byte>, nb: nat, b: Blocks, k: nat, w: Word)
    requires nb + Total(b) <= |n| && Total(b) < W32
    requires (k == 16 && w == 40) || (k == 8 && w == 40 + |b.rsv|) || (k == 36 && w == |b.str|)
          || (k == 12 && w == 40 + |b.rsv| + |b.str|) || (k == 32 && w == |b.strs|)
    ensures U32(PackAll(n, nb, b), nb + k) == w
  {
    hide Be32, U32, PackAll;
    var p := PackAll(n, nb, b);
    forall i | 0 <= i < 4 ensures p[nb + k + i] == Be32(w)[i] { PackByte(n, nb, b, nb + k + i); }
    assert p[nb + k..nb + k + 4] == Be32(w)[0..4];
    SameWord(p, Be32(w), nb + k, 0);
    WordReadBack(w);
  }

  lemma PackAllReads(n: seq<byte>, nb: nat, b: Blocks)
    requires nb + Total(b) <= |n| && Total(b) < W32
    ensures PackedAt(n, PackAll(n, nb, b), nb, b)
  {
    hide U32, PackAll;
    var p := PackAll(n, nb, b);
    PackWord(n, nb, b, 16, 40);
    PackWord(n, nb, b, 8, 40 + |b.rsv|);
    PackWord(n, nb, b, 36, |b.str|);
    PackWord(n, nb, b, 12, 40 + |b.rsv| + |b.str|);
    PackWord(n, nb, b, 32, |b.strs|);
    PackSlices(n, nb, b);
  }

  lemma PackSlices(n: seq<byte>, nb: nat, b: Blocks)
    requires nb + Total(b) <= |n| && Total(b) < W32
    ensures var p := PackAll(n, nb, b);
      && p[nb + 40..nb + 40 + |b.rsv|] == b.rsv && p[nb + 40 + |b.rsv|..nb + 40 + |b.rsv| + |b.str|] == b.str
      && p[nb + 40 + |b.rsv| + |b.str|..nb + Total(b)] == b.strs
      && p[nb..nb + 8] == n[nb..nb + 8] && p[nb + 20..nb + 32] == n[nb + 20..nb + 32]
  {
    hide PackAll, Be32;
    var p := PackAll(n, nb, b);
    var o1, o2, o3 := nb + 40, nb + 40 + |b.rsv|, nb + 40 + |b.rsv| + |b.str|;
    forall x | o1 <= x < o2 ensures p[x] == b.rsv[x - o1] { PackByte(n, nb, b, x); }
    forall x | o2 <= x < o3 ensures p[x] == b.str[x - o2] { PackByte(n, nb, b, x); }
    forall x | o3 <= x < nb + Total(b) ensures p[x] == b.strs[x - o3] { PackByte(n, nb, b, x); }
    forall x | nb <= x < nb + 8 || nb + 20 <= x < nb + 32 ensures p[x] == n[x] { PackByte(n, nb, b, x); }
    SliceIs(p, o1, b.rsv); SliceIs(p, o2, b.str); SliceIs(p, o3, b.strs);
  }

  lemma SliceIs(p: seq<byte>, o: nat, v: seq<byte>)
    requires o + |v| <= |p| && forall x :: o <= x < o + |v| ==> p[x] == v[x - o]
    ensures p[o..o + |v|] == v
  {
  }

  /** The three blocks of a sound blob. */
  ghost function BlocksOf(s: seq<byte>): Blocks
    requires Sound(s)
  {
    var h := Head(s);
    Blocks(s[h.offRsv..h.offRsv + RsvLen(s)], s[h.offStruct..h.offStruct + StructLen(s)], Strings(s))
  }

  /** The blocks as the header words name them. */
  lemma BlockWords(s: seq<byte>)
    requires Sound(s)
    ensures var h, b := Head(s), BlocksOf(s);
      && |s| >= HEADER_SIZE && |b.rsv| == RsvLen(s) && |b.str| == StructLen(s) && |b.strs| == h.sizeStrings && b.strs == Strings(s)
      && h.offRsv == U32(s, 16) && h.offStruct == U32(s, 8) && h.offStrings == U32(s, 12) && h.sizeStrings == U32(s, 32)
      && h.offRsv + |b.rsv| <= h.totalSize && h.offStruct + |b.str| <= h.totalSize && h.offStrings + |b.strs| <= h.totalSize <= |s| < LIMIT
      && s[h.offRsv..h.offRsv + |b.rsv|] == b.rsv && s[h.offStruct..h.offStruct + |b.str|] == b.str
      && s[h.offStrings..h.offStrings + |b.strs|] == b.strs
      && h.offRsv >= 40 && h.offStruct >= 40 && h.offStrings >= 40
      && b.str == Region(s)[..StructLen(s)]
  {
    hide U32, Streams, StreamLen, RsvCount;
  }

  /** Where the blocks may be packed to when the source is the same memory: behind the blob, or at its start if
      the blocks are in order, so that every block moves down. */
  ghost predicate SafeTarget(s: seq<byte>, nb: nat)
    requires Sound(s)
  {
    var h := Head(s);
    nb >= h.totalSize || (nb == 0 && h.offRsv + RsvLen(s) <= h.offStruct && h.offStruct + StructLen(s) <= h.offStrings)
  }

  lemma KeptByRsv(n: seq<byte>, nb: nat, b: Blocks, i: nat, j: nat)
    requires nb + Total(b) <= |n| && i <= j <= |n|
    requires j <= nb + 16 || (nb + 20 <= i && j <= nb + 40) || i >= nb + 40 + |b.rsv|
    ensures PackRsv(n, nb, b)[i..j] == n[i..j]
  {
    hide Be32, Put;
    var p1 := Put(n, nb + 40, b.rsv);
    PutReads(n, nb + 40, b.rsv, i, j);
    PutReads(p1, nb + 16, Be32(40), i, j);
  }

  lemma KeptByStruct(n: seq<byte>, nb: nat, b: Blocks, i: nat, j: nat)
    requires nb + Total(b) <= |n| && Total(b) < W32 && i <= j <= |n|
    requires j <= nb + 8 || (nb + 12 <= i && j <= nb + 36) || i >= nb + 40 + |b.rsv| + |b.str|
    ensures PackStruct(n, nb, b)[i..j] == n[i..j]
  {
    hide Be32, Put;
    var o := 40 + |b.rsv|;
    var p3 := Put(n, nb + o, b.str);
    var p4 := Put(p3, nb + 8, Be32(o));
    PutReads(n, nb + o, b.str, i, j);
    PutReads(p3, nb + 8, Be32(o), i, j);
    PutReads(p4, nb + 36, Be32(|b.str|), i, j);
  }

  lemma SourceAfterRsv(s: seq<byte>, nb: nat)
    requires Sound(s) && SafeTarget(s, nb) && nb + Total(BlocksOf(s)) <= |s|
    ensures var m, b := PackRsv(s, nb, BlocksOf(s)), BlocksOf(s);
      U32(m, 8) == Head(s).offStruct && Head(s).offStruct + |b.str| <= |m| && m[Head(s).offStruct..Head(s).offStruct + |b.str|] == b.str
  {
    hide U32, PackRsv, BlocksOf, Head, Sound;
    BlockWords(s);
    var h, b := Head(s), BlocksOf(s);
    KeptByRsv(s, nb, b, h.offStruct, h.offStruct + |b.str|);
    KeptByRsv(s, nb, b, 8, 12);
    SameWord(PackRsv(s, nb, b), s, 8, 8);
  }

  lemma SourceAfterStruct(s: seq<byte>, nb: nat)
    requires Sound(s) && SafeTarget(s, nb) && nb + Total(BlocksOf(s)) <= |s|
    ensures Total(BlocksOf(s)) < W32
    ensures var b := BlocksOf(s); var m := PackStruct(PackRsv(s, nb, b), nb, b);
      && U32(m, 12) == Head(s).offStrings && U32(m, 32) == |b.strs|
      && Head(s).offStrings + |b.strs| <= |m| && m[Head(s).offStrings..Head(s).offStrings + |b.strs|] == b.strs
  {
    hide U32, PackRsv, PackStruct, BlocksOf, Head, Sound;
    BlockWords(s);
    var h, b := Head(s), BlocksOf(s);
    var m1 := PackRsv(s, nb, b);
    var m2 := PackStruct(m1, nb, b);
    KeptByRsv(s, nb, b, h.offStrings, h.offStrings + |b.strs|);
    KeptByStruct(m1, nb, b, h.offStrings, h.offStrings + |b.strs|);
    KeptByRsv(s, nb, b, 12, 16); KeptByStruct(m1, nb, b, 12, 16);
    SameWord(m2, s, 12, 12);
    KeptByRsv(s, nb, b, 32, 36); KeptByStruct(m1, nb, b, 32, 36);
    SameWord(m2, s, 32, 32);
  }

  /** Writing the size of the strings after their offset: the word is read before it is overwritten. */
  lemma SizeStays(m: seq<byte>, nb: nat, o: nat, v: seq<byte>, w: Word)
    requires nb + o + |v| <= |m| && o >= 40 && (nb == 0 || nb >= 40) && nb + 40 <= |m| && |m| >= 40
    ensures U32(Put(Put(m, nb + o, v), nb + 12, Be32(w)), 32) == U32(m, 32)
  {
    hide U32, Put, Be32;
    PutWord(m, nb + o, v, 32);
    PutWord(Put(m, nb + o, v), nb + 12, Be32(w), 32);
  }

  lemma SafeBase(s: seq<byte>, nb: nat)
    requires Sound(s) && SafeTarget(s, nb)
    ensures nb == 0 || nb >= 40
  {
    BlockWords(s);
  }

  /** Moving one block, named by header word w of the old blob. */
  method MoveBlock(old': array<byte>, new': array<byte>, w: nat, to: nat, len: nat, ghost v: seq<byte>)
    requires w + 4 <= old'.Length && |v| == len && to + len <= new'.Length
    requires U32(old'[..], w) + len <= old'.Length && old'[..][U32(old'[..], w)..U32(old'[..], w) + len] == v
    modifies new'
    ensures new'[..] == Put(old(new'[..]), to, v)
  {
    hide U32, Put;
    var from := U32(old'[..], w);
    assert old'[from..from + len] == old'[..][from..from + len];
    PutBytes(new', to, old'[from..from + len]);
  }

  /** The reservations and their offset. */
  method MoveRsv(old': array<byte>, new': array<byte>, nb: nat, ghost b: Blocks, rsvSize: nat)
    requires nb + Total(b) <= new'.Length && |b.rsv| == rsvSize && 20 <= old'.Length
    requires U32(old'[..], 16) + rsvSize <= old'.Length && old'[..][U32(old'[..], 16)..U32(old'[..], 16) + rsvSize] == b.rsv
    modifies new'
    ensures new'[..] == PackRsv(old(new'[..]), nb, b)
  {
    hide U32, Be32, Put;
    MoveBlock(old', new', 16, nb + 40, rsvSize, b.rsv);
    PutBytes(new', nb + 16, Be32(40));
  }

  /** The structure block, its offset and its size. */
  method MoveStruct(old': array<byte>, new': array<byte>, nb: nat, ghost b: Blocks, rsvSize: nat, structSize: nat)
    requires nb + Total(b) <= new'.Length < LIMIT && |b.rsv| == rsvSize && |b.str| == structSize && 12 <= old'.Length
    requires U32(old'[..], 8) + structSize <= old'.Length && old'[..][U32(old'[..], 8)..U32(old'[..], 8) + structSize] == b.str
    modifies new'
    ensures new'[..] == PackStruct(old(new'[..]), nb, b)
  {
    hide U32, Be32, Put;
    MoveBlock(old', new', 8, nb + 40 + rsvSize, structSize, b.str);
    PutBytes(new', nb + 8, Be32(40 + rsvSize));
    PutBytes(new', nb + 36, Be32(structSize));
  }

  /** The strings, their offset and their size. */
  method MoveStrings(old': array<byte>, new': array<byte>, nb: nat, ghost b: Blocks, stringsOff: nat)
    requires nb + Total(b) <= new'.Length < LIMIT && stringsOff == 40 + |b.rsv| + |b.str| && 40 <= old'.Length
    requires U32(old'[..], 32) == |b.strs| && U32(old'[..], 12) + |b.strs| <= old'.Length
    requires old'[..][U32(old'[..], 12)..U32(old'[..], 12) + |b.strs|] == b.strs && (old' == new' ==> nb == 0 || nb >= 40)
    modifies new'
    ensures new'[..] == PackStrings(old(new'[..]), nb, b)
  {
    hide U32, Be32, Put;
    ghost var s, m := old'[..], new'[..];
    MoveBlock(old', new', 12, nb + stringsOff, U32(old'[..], 32), b.strs);
    PutBytes(new', nb + 12, Be32(stringsOff));
    if old' == new' { SizeStays(m, nb, stringsOff, b.strs, stringsOff); } else { assert old'[..] == s; }
    PutBytes(new', nb + 32, Be32(U32(old'[..], 32)));
  }

  /** _fdt_packblocks, from the blob old to a blob at nb in new. */
  method PackBlocks(old': array<byte>, new': array<byte>, nb: nat, rsvSize: nat, structSize: nat)
    requires Sound(old'[..]) && RsvLen(old'[..]) == rsvSize && StructLen(old'[..]) == structSize
    requires nb + Total(BlocksOf(old'[..])) <= new'.Length < LIMIT && (old' == new' ==> SafeTarget(old'[..], nb))
    modifies new'
    ensures new'[..] == PackAll(old(new'[..]), nb, BlocksOf(old(old'[..])))
  {
    hide U32, Be32, Put, BlocksOf, Head, Sound, RsvLen, StructLen, SafeTarget, PackRsv, PackStruct, PackStrings;
    ghost var s, n := old'[..], new'[..];
    ghost var b := BlocksOf(s);
    BlockWords(s);
    MoveRsv(old', new', nb, b, rsvSize);
    if old' == new' { SourceAfterRsv(s, nb); } else { assert old'[..] == s; }
    MoveStruct(old', new', nb, b, rsvSize, structSize);
    if old' == new' { SourceAfterStruct(s, nb); SafeBase(s, nb); } else { assert old'[..] == s; }
    MoveStrings(old', new', nb, b, 40 + rsvSize + structSize);
  }

  // ----- what a packed blob stands for

  /** A header that names the three blocks in order, packed from byte 40. */
  ghost predicate PackedHead(h: Header, b: Blocks, total: int)
  {
    && h.magic == MAGIC && h.totalSize == total && h.version == LAST_VERSION && h.lastComp <= LAST_VERSION
    && h.offRsv == 40 && h.offStruct == 40 + |b.rsv| && h.sizeStruct == |b.str|
    && h.offStrings == 40 + |b.rsv| + |b.str| && h.sizeStrings == |b.strs|
  }

  /** The size of the blob with its blocks one after the other. */
  ghost function PackedEnd(s: seq<byte>): nat
    requires Sound(s)
  {
    HEADER_SIZE + (16 * |Reserved(s)| + 16) + StructLen(s) + Head(s).sizeStrings
  }

  lemma TotalIs(s: seq<byte>)
    requires Sound(s)
    ensures Total(BlocksOf(s)) == PackedEnd(s) && |BlocksOf(s).rsv| == 16 * |Reserved(s)| + 16
  {
    hide U32, Streams, StreamLen, RsvCount, Region, Strings, Entries;
    EntryCount(s);
    BlockWords(s);
  }

  /** The same structure block and strings, every offset in them as before. */
  ghost predicate SameContents(s: seq<byte>, s': seq<byte>)
    requires Sound(s)
  {
    Region(s') == Region(s)[..StructLen(s)] && Strings(s') == Strings(s)
  }

  /** The blocks one after the other behind the header. */
  ghost predicate PackedText(s: seq<byte>, s': seq<byte>, total: int)
    requires Sound(s)
  {
    && SameContents(s, s') && |s'| >= HEADER_SIZE
    && var h := Head(s');
    && h.totalSize == total && h.offRsv == HEADER_SIZE && h.offStruct == h.offRsv + 16 * |Reserved(s)| + 16
    && h.sizeStruct == StructLen(s) && h.offStrings == h.offStruct + h.sizeStruct && h.sizeStrings == Head(s).sizeStrings
    && h.offStrings + h.sizeStrings == PackedEnd(s)
  }

  lemma PackedRelocates(s: seq<byte>, s': seq<byte>, total: nat)
    requires Sound(s) && HEADER_SIZE <= |s'| < LIMIT && Total(BlocksOf(s)) <= total <= |s'|
    requires PackedHead(Head(s'), BlocksOf(s), total)
    requires var b := BlocksOf(s);
      && s'[40..40 + |b.rsv|] == b.rsv && s'[40 + |b.rsv|..40 + |b.rsv| + |b.str|] == b.str
      && s'[40 + |b.rsv| + |b.str|..Total(b)] == b.strs
    ensures Relocated(s, s') && Ordered(s') && PackedText(s, s', total)
  {
    hide U32, BlocksOf, Sound, RsvLen, StructLen, Region, Strings, Head;
    TotalIs(s);
    BlockWords(s);
    PackedOrdered(s, s', total);
    OrderedRegion(s');
    hide Ordered;
  }

  lemma PackedOrdered(s: seq<byte>, s': seq<byte>, total: nat)
    requires Sound(s) && HEADER_SIZE <= |s'| < LIMIT && Total(BlocksOf(s)) <= total <= |s'|
    requires PackedHead(Head(s'), BlocksOf(s), total)
    ensures Ordered(s')
  {
    hide U32, BlocksOf, Sound, RsvLen, StructLen, Region, Strings, Head;
    BlockWords(s);
    RsvNotEmpty(s);
  }

  lemma RsvNotEmpty(s: seq<byte>)
    requires Sound(s)
    ensures RsvLen(s) >= 16
  {
    hide U32, Streams, StreamLen, RsvCount, Region, Strings;
  }

  /** The blob at the start of a buffer after packing there and setting the total size. */
  lemma PackedInPlace(s: seq<byte>, n: seq<byte>, total: nat)
    requires Sound(s) && |n| == |s| && Head(n) == Head(s) && Head(s).version == LAST_VERSION
    requires Total(BlocksOf(s)) <= |n| && total == Total(BlocksOf(s))
    ensures Total(BlocksOf(s)) < W32
    ensures var s' := Put(PackAll(n, 0, BlocksOf(s)), 4 * 1, Be32(total));
      Relocated(s, s') && Ordered(s') && Head(s').totalSize == total && PackedText(s, s', total)
  {
    hide U32, BlocksOf, Be32, Put, PackAll, Sound, Relocated, Ordered, Head, RsvLen, StructLen, Region, Strings, PackedText;
    BlockWords(s);
    SoundHead(s);
    var b := BlocksOf(s);
    var m := PackAll(n, 0, b);
    PackAllReads(n, 0, b);
    PackedWords(n, m, b);
    HeadPut(m, 1, total);
    hide PackedAt;
    PutReads(m, 4, Be32(total), 40, 40 + |b.rsv|);
    PutReads(m, 4, Be32(total), 40 + |b.rsv|, 40 + |b.rsv| + |b.str|);
    PutReads(m, 4, Be32(total), 40 + |b.rsv| + |b.str|, Total(b));
    PackedRelocates(s, Put(m, 4 * 1, Be32(total)), total);
  }

  lemma SoundHead(s: seq<byte>)
    requires Sound(s)
    ensures |s| >= HEADER_SIZE && Head(s).magic == MAGIC && Head(s).lastComp <= LAST_VERSION && Head(s).version >= FIRST_VERSION
  {
    hide U32, Streams, StreamLen, RsvCount, Region, Strings;
  }

  /** The header of a packed blob at the start of a buffer: five fields written, five as they were. */
  lemma PackedWords(n: seq<byte>, m: seq<byte>, b: Blocks)
    requires PackedAt(n, m, 0, b) && Total(b) < W32
    ensures |m| >= HEADER_SIZE && |n| >= HEADER_SIZE
    ensures Head(m) == Head(n).(offRsv := 40, offStruct := 40 + |b.rsv|, sizeStruct := |b.str|,
                                offStrings := 40 + |b.rsv| + |b.str|, sizeStrings := |b.strs|)
  {
    SubSlice(m, 0, 8, 0, 4); SubSlice(n, 0, 8, 0, 4); SubSlice(m, 0, 8, 4, 8); SubSlice(n, 0, 8, 4, 8);
    SubSlice(m, 20, 32, 0, 4); SubSlice(n, 20, 32, 0, 4); SubSlice(m, 20, 32, 4, 8); SubSlice(n, 20, 32, 4, 8);
    SubSlice(m, 20, 32, 8, 12); SubSlice(n, 20, 32, 8, 12);
    SameWord(m, n, 0, 0); SameWord(m, n, 4, 4);
    SameWord(m, n, 20, 20); SameWord(m, n, 24, 24); SameWord(m, n, 28, 28);
    hide U32;
  }

  // ----- fdt_pack

  /** fdt_pack: the same tree and reservations, in the least room. */
  ghost predicate PackResult(s: seq<byte>, s': seq<byte>, t: Tree, err: int)
  {
    && Sound(s) && err == RwError(Head(s))
    && Becomes(s, s', t)
    && if err == 0 then Ordered(s') && PackedText(s, s', PackedEnd(s)) else s' == s
  }

  method Pack(fdt: array<byte>, ghost t: Tree) returns (err: int)
    requires Denotes(fdt[..], t)
    modifies fdt
    ensures PackResult(old(fdt[..]), fdt[..], t, err)
  {
    hide U32, Be32, Put, Denotes, Becomes, Head, PackAll, RsvCount, RsvLen, StructLen, BlocksOf, Total, Ordered, SameText, Sound, SafeTarget,
         PackedText;
    ghost var s := fdt[..];
    DenotesText(s, t);
    HeaderThere(s);
    BecomesRefl(s, t);
    err := RwCheckHeader(fdt, t);
    ghost var s0 := fdt[..];
    if err != 0 {
      return;
    }
    SameBlocks(s, s0, t);
    var n := NumMemRsv(fdt);
    assert fdt[..] == s0;
    PackInOrder(s0, n);
    var h := Head(fdt[..]);
    PackBlocks(fdt, fdt, 0, 16 * (n + 1), h.sizeStruct);
    var h' := Head(fdt[..]);
    PackedInPlace(s0, s0, Total(BlocksOf(s0)));
    PackedTotal(s0);
    SetWord(fdt, 1, h'.offStrings + h'.sizeStrings);
    ghost var s' := fdt[..];
    RelocatedDenotes(s0, s', t);
    TotalIs(s0);
    PackedSame(s, s0, s', t, PackedEnd(s0));
    PackedBecomes(s, s0, s', t);
  }

  /** The header check leaves the blocks. */
  lemma SameBlocks(s: seq<byte>, s0: seq<byte>, t: Tree)
    requires Denotes(s, t) && Becomes(s, s0, t) && SameText(s, s0) && Ordered(s0) && Head(s).version >= 17
    ensures Sound(s) && Sound(s0) && Denotes(s0, t) && Reserved(s0) == Reserved(s) && |s0| == |s|
    ensures Total(BlocksOf(s0)) == Total(BlocksOf(s))
  {
    hide U32, Streams, StreamLen, RsvCount, Region, Strings, Entries;
    EntryCount(s); EntryCount(s0);
  }

  lemma PackedSame(s: seq<byte>, s0: seq<byte>, s': seq<byte>, t: Tree, total: nat)
    requires Denotes(s, t) && Becomes(s, s0, t) && SameText(s, s0) && Ordered(s0) && Head(s).version >= 17
    requires Sound(s0) && PackedText(s0, s', total) && total == PackedEnd(s0)
    ensures Sound(s) && PackedText(s, s', PackedEnd(s))
  {
    hide U32, Streams, StreamLen, RsvCount, Region, Strings, Entries;
  }

  lemma EntryCount(s: seq<byte>)
    requires Sound(s)
    ensures RsvLen(s) == 16 * |Reserved(s)| + 16
  {
    hide U32, Streams, StreamLen, RsvCount, Region, Strings;
  }

  lemma PackInOrder(s: seq<byte>, n: nat)
    requires Sound(s) && Ordered(s) && n == RsvCount(s[Head(s).offRsv..Head(s).totalSize])
    ensures SafeTarget(s, 0) && RsvLen(s) == 16 * (n + 1) && StructLen(s) == Head(s).sizeStruct && Total(BlocksOf(s)) <= |s| < LIMIT
    ensures Head(s).version == LAST_VERSION
  {
    hide U32, Streams, StreamLen, RsvCount;
    RsvBeforeStruct(s);
  }

  /** After packing, the end of the strings is the size of the blob. */
  lemma PackedTotal(s: seq<byte>)
    requires Sound(s) && Total(BlocksOf(s)) <= |s| < LIMIT
    ensures |s| >= HEADER_SIZE && var h' := Head(PackAll(s, 0, BlocksOf(s))); h'.offStrings + h'.sizeStrings == Total(BlocksOf(s))
  {
    hide U32, PackAll, BlocksOf, Sound;
    PackAllReads(s, 0, BlocksOf(s));
    PackedWords(s, PackAll(s, 0, BlocksOf(s)), BlocksOf(s));
  }

  lemma PackedBecomes(s: seq<byte>, s0: seq<byte>, s': seq<byte>, t: Tree)
    requires Sound(s) && Sound(s0) && Reserved(s0) == Reserved(s) && Denotes(s', t) && Sound(s') && Reserved(s') == Reserved(s0) && |s'| == |s|
    ensures Becomes(s, s', t)
  {
  }

  // ----- fdt_open_into

  /** The blocks are in order and inside the blob, with all reservations before the structure. */
  ghost predicate InOrder(s: seq<byte>)
    requires Sound(s)
  {
    !Misordered(Head(s), RsvLen(s), StructLen(s))
  }

  /** How large a buffer fdt_open_into needs: the blob as it is, or the blob packed, behind the old one when both share memory. */
  ghost function OpenNeeds(s: seq<byte>, same: bool): int
    requires Sound(s)
  {
    if InOrder(s) then Head(s).totalSize else PackedEnd(s) + if same then Head(s).totalSize else 0
  }

  /** Where the strings end in the opened blob. */
  ghost function UsedEnd(s: seq<byte>): nat
    requires Sound(s)
  {
    if InOrder(s) then Head(s).offStrings + Head(s).sizeStrings else PackedEnd(s)
  }

  /** The same tree and reservations in a blob ready for editing that fills the buffer, or no space and nothing written. */
  ghost predicate OpenResult(s: seq<byte>, same: bool, b: seq<byte>, b': seq<byte>, t: Tree, size: int, err: int)
  {
    && Sound(s)
    && if OpenNeeds(s, same) > size then err == -NOSPACE && b' == b
       else && err == 0 && Sound(b') && Denotes(b', t) && Reserved(b') == Reserved(s) && Ordered(b') && |b'| == |b| && Opened(s, b', size)
  }

  /** The blocks where they were or, if they were out of order, one after the other; the room from the end of the strings up to
      size is left. */
  ghost predicate Opened(s: seq<byte>, b': seq<byte>, size: int)
    requires Sound(s)
  {
    && SameContents(s, b') && |b'| >= HEADER_SIZE
    && (if InOrder(s) then Head(b') == Head(s).(version := LAST_VERSION, sizeStruct := StructLen(s), totalSize := Head(b').totalSize)
        else PackedText(s, b', size))
    && Head(b').totalSize == size && Head(b').offStrings + Head(b').sizeStrings == UsedEnd(s)
    && forall n: int :: Room(b', n) <==> UsedEnd(s) + n <= size
  }

  /** The blob copied as it is. */
  method OpenAsIs(fdt: array<byte>, buf: array<byte>, size: nat, structSize: nat, ghost t: Tree) returns (err: int)
    requires Denotes(fdt[..], t) && CheckHeader(fdt[..]) == 0 && size <= buf.Length < LIMIT
    requires Sound(fdt[..]) && InOrder(fdt[..]) && structSize == StructLen(fdt[..])
    modifies buf
    ensures OpenResult(old(fdt[..]), fdt == buf, old(buf[..]), buf[..], t, size, err)
  {
    hide U32, Be32, Put, Denotes, Head, RsvCount, RsvLen, StructLen, BlocksOf, Ordered, Sound, CheckHeader, InOrder, Relocated, Opened;
    ghost var s, n0 := fdt[..], buf[..];
    HeaderThere(s);
    BlockWords(s);
    err := Move(fdt, buf, size);
    if err != 0 {
      return;
    }
    MovedBlob(s, n0, size);
    SetWord(buf, 5, LAST_VERSION);
    SetWord(buf, 9, structSize);
    SetWord(buf, 1, size);
    RelocatedDenotes(s, buf[..], t);
    return 0;
  }

  /** The header fields fdt_open_into writes last. */
  method CompleteHeader(fdt: array<byte>, buf: array<byte>, size: nat) returns (cpu: Word)
    requires fdt.Length >= HEADER_SIZE && HEADER_SIZE <= size <= buf.Length < LIMIT
    modifies buf
    ensures buf[..] == ReorderPuts(old(buf[..]), size, cpu)
  {
    hide U32, Be32, Put;
    SetWord(buf, 0, MAGIC);
    SetWord(buf, 1, size);
    SetWord(buf, 5, LAST_VERSION);
    SetWord(buf, 6, FIRST_VERSION);
    cpu := U32(fdt[..], 28);
    SetWord(buf, 7, cpu);
  }

  /** The blocks put in order, in the buffer or, if that is the blob's own memory, behind it and then moved. */
  method OpenReordered(fdt: array<byte>, buf: array<byte>, size: nat, rsvSize: nat, structSize: nat, ghost t: Tree) returns (err: int)
    requires Denotes(fdt[..], t) && size <= buf.Length < LIMIT
    requires Sound(fdt[..]) && !InOrder(fdt[..]) && rsvSize == RsvLen(fdt[..]) && structSize == StructLen(fdt[..])
    modifies buf
    ensures OpenResult(old(fdt[..]), fdt == buf, old(buf[..]), buf[..], t, size, err)
  {
    hide U32, Be32, Put, Denotes, RsvCount, RsvLen, StructLen, BlocksOf, Ordered, Sound, SafeTarget, InOrder, Relocated, PackAll, Head,
         ReorderPuts, Opened, PackedEnd;
    ghost var s, n0 := fdt[..], buf[..];
    HeaderThere(s);
    BlockWords(s);
    TotalIs(s);
    var h := Head(fdt[..]);
    var newSize := HEADER_SIZE + rsvSize + structSize + h.sizeStrings;
    if size < newSize {
      return -NOSPACE;
    }
    var tmp := 0;
    if fdt == buf {
      tmp := h.totalSize;
      if tmp + newSize > size {
        return -NOSPACE;
      }
      BehindIsSafe(s);
    }
    PackBlocks(fdt, buf, tmp, rsvSize, structSize);
    ghost var m := buf[..];
    MoveBytes(buf, 0, tmp, newSize);
    var cpu := CompleteHeader(fdt, buf, size);
    ReorderedBlob(s, n0, tmp, size, cpu);
    RelocatedDenotes(s, buf[..], t);
    return 0;
  }

  /** fdt_open_into, the buffer being the blob's own memory or none of it. */
  method OpenInto(fdt: array<byte>, buf: array<byte>, size: nat, ghost t: Tree) returns (err: int)
    requires Denotes(fdt[..], t) && size <= buf.Length < LIMIT
    modifies buf
    ensures OpenResult(old(fdt[..]), fdt == buf, old(buf[..]), buf[..], t, size, err)
  {
    hide U32, Denotes, RsvCount, RsvLen, StructLen, Sound, CheckHeader, Misordered, OpenResult;
    ghost var s, n0 := fdt[..], buf[..];
    DenotesText(s, t);
    HeaderThere(s);
    err := CheckHeader(fdt[..]);
    if err != 0 {
      return;
    }
    var n := NumMemRsv(fdt);
    assert fdt[..] == s;
    var rsvSize := (n + 1) * 16;
    var structSize := StructSize(fdt);
    assert fdt[..] == s && buf[..] == n0;
    CountedRsv(s, n);
    if !Misordered(Head(fdt[..]), rsvSize, structSize) {
      err := OpenAsIs(fdt, buf, size, structSize, t);
    } else {
      err := OpenReordered(fdt, buf, size, rsvSize, structSize, t);
    }
  }

  /** fdt_move */
  method Move(fdt: array<byte>, buf: array<byte>, size: nat) returns (err: int)
    requires Sound(fdt[..]) && size <= buf.Length && CheckHeader(fdt[..]) == 0
    modifies buf
    ensures var s, h := old(fdt[..]), Head(old(fdt[..]));
      if h.totalSize > size then err == -NOSPACE && buf[..] == old(buf[..])
      else err == 0 && h.totalSize <= |s| && buf[..] == Put(old(buf[..]), 0, s[..h.totalSize])
  {
    hide U32, Put, Sound, CheckHeader;
    HeaderThere(fdt[..]);
    BlockWords(fdt[..]);
    err := CheckHeader(fdt[..]);
    if err != 0 {
      return;
    }
    var total := Head(fdt[..]).totalSize;
    if total > size {
      return -NOSPACE;
    }
    PutBytes(buf, 0, fdt[..total]);
    return 0;
  }

  lemma CountedRsv(s: seq<byte>, n: nat)
    requires Sound(s) && n == RsvCount(s[Head(s).offRsv..Head(s).totalSize])
    ensures RsvLen(s) == (n + 1) * 16
  {
    hide U32, Streams, StreamLen, RsvCount, Region, Strings;
  }

  lemma BehindIsSafe(s: seq<byte>)
    requires Sound(s)
    ensures SafeTarget(s, Head(s).totalSize)
  {
    BlockWords(s);
    hide U32, Sound;
  }

  /** The header puts of fdt_open_into, in place and after reordering. */
  function OpenPuts(m: seq<byte>, structSize: Word, size: Word): seq<byte>
    requires |m| >= HEADER_SIZE
  {
    Put(Put(Put(m, 4 * 5, Be32(LAST_VERSION)), 4 * 9, Be32(structSize)), 4 * 1, Be32(size))
  }

  function ReorderPuts(m: seq<byte>, size: Word, cpu: Word): seq<byte>
    requires |m| >= HEADER_SIZE
  {
    Put(Put(Put(Put(Put(m, 4 * 0, Be32(MAGIC)), 4 * 1, Be32(size)), 4 * 5, Be32(LAST_VERSION)), 4 * 6, Be32(FIRST_VERSION)), 4 * 7, Be32(cpu))
  }

  lemma OpenPutsHead(m: seq<byte>, structSize: Word, size: Word)
    requires |m| >= HEADER_SIZE
    ensures var s' := OpenPuts(m, structSize, size);
      |s'| == |m| && Head(s') == Head(m).(version := LAST_VERSION, sizeStruct := structSize, totalSize := size) && s'[HEADER_SIZE..] == m[HEADER_SIZE..]
  {
    hide U32, Be32, Put, Head;
    var m1 := Put(m, 4 * 5, Be32(LAST_VERSION));
    var m2 := Put(m1, 4 * 9, Be32(structSize));
    HeadPut(m, 5, LAST_VERSION); HeadPut(m1, 9, structSize); HeadPut(m2, 1, size);
    TailOfPut(m, 20, Be32(LAST_VERSION)); TailOfPut(m1, 36, Be32(structSize)); TailOfPut(m2, 4, Be32(size));
  }

  lemma ReorderPutsHead(m: seq<byte>, size: Word, cpu: Word)
    requires |m| >= HEADER_SIZE
    ensures var s' := ReorderPuts(m, size, cpu);
      |s'| == |m| && s'[HEADER_SIZE..] == m[HEADER_SIZE..]
      && Head(s') == Head(m).(magic := MAGIC, totalSize := size, version := LAST_VERSION, lastComp := FIRST_VERSION, bootCpu := cpu)
  {
    hide U32, Be32, Put, Head;
    var m1 := Put(m, 4 * 0, Be32(MAGIC));
    var m2 := Put(m1, 4 * 1, Be32(size));
    var m3 := Put(m2, 4 * 5, Be32(LAST_VERSION));
    var m4 := Put(m3, 4 * 6, Be32(FIRST_VERSION));
    HeadPut(m, 0, MAGIC); HeadPut(m1, 1, size); HeadPut(m2, 5, LAST_VERSION); HeadPut(m3, 6, FIRST_VERSION); HeadPut(m4, 7, cpu);
    TailOfPut(m, 0, Be32(MAGIC)); TailOfPut(m1, 4, Be32(size)); TailOfPut(m2, 20, Be32(LAST_VERSION));
    TailOfPut(m3, 24, Be32(FIRST_VERSION)); TailOfPut(m4, 28, Be32(cpu));
  }

  /** A blob in order, copied as it is, with the size of its structure filled in. */
  lemma MovedBlob(s: seq<byte>, n: seq<byte>, size: nat)
    requires Sound(s) && InOrder(s) && Head(s).totalSize <= size <= |n| < LIMIT
    ensures Head(s).totalSize <= |s| && HEADER_SIZE <= |n|
    ensures var s' := OpenPuts(Put(n, 0, s[..Head(s).totalSize]), StructLen(s), size);
      Relocated(s, s') && Ordered(s') && Head(s').totalSize == size && Opened(s, s', size)
  {
    hide U32, OpenPuts, Put, Sound, Streams, StreamLen, RsvCount, Entries, BlocksOf, Region, Strings, RsvLen, StructLen;
    BlockWords(s);
    RsvNotEmpty(s);
    SoundHead(s);
    var h, b := Head(s), BlocksOf(s);
    var v := s[..h.totalSize];
    var m := Put(n, 0, v);
    var s' := OpenPuts(m, |b.str|, size);
    PutReads(n, 0, v, 0, 0);
    assert m[0..|v|] == v;
    assert m[..HEADER_SIZE] == m[0..|v|][..HEADER_SIZE] == s[..HEADER_SIZE];
    HeadOfPrefix(m, s);
    OpenPutsHead(m, |b.str|, size);
    CopiedSlice(s, m, s', h.totalSize, h.offRsv, h.offRsv + |b.rsv|);
    CopiedSlice(s, m, s', h.totalSize, h.offStruct, h.offStruct + |b.str|);
    CopiedSlice(s, m, s', h.totalSize, h.offStrings, h.offStrings + |b.strs|);
    OrderedCopy(s, s', size);
  }

  lemma CopiedSlice(s: seq<byte>, m: seq<byte>, s': seq<byte>, total: nat, i: nat, j: nat)
    requires HEADER_SIZE <= i <= j <= total <= |s| && total <= |m| == |s'| && m[0..total] == s[..total] && s'[HEADER_SIZE..] == m[HEADER_SIZE..]
    ensures s'[i..j] == s[i..j]
  {
    SameTail(s', m, HEADER_SIZE, i, j);
    assert s[..total] == s[0..total];
    SubSlice(m, 0, total, i, j);
    SubSlice(s, 0, total, i, j);
  }

  /** The same header, with the version, structure size and total size of the copy, and the same blocks. */
  lemma OrderedCopy(s: seq<byte>, s': seq<byte>, size: nat)
    requires Sound(s) && InOrder(s) && Head(s).totalSize <= size <= |s'| < LIMIT
    requires Head(s') == Head(s).(version := LAST_VERSION, sizeStruct := StructLen(s), totalSize := size)
    requires var h, b := Head(s), BlocksOf(s);
      && h.totalSize <= |s| && h.offRsv + |b.rsv| <= |s'| && h.offStruct + |b.str| <= |s'| && h.offStrings + |b.strs| <= |s'|
      && s'[h.offRsv..h.offRsv + |b.rsv|] == b.rsv && s'[h.offStruct..h.offStruct + |b.str|] == b.str
      && s'[h.offStrings..h.offStrings + |b.strs|] == b.strs
    ensures Relocated(s, s') && Ordered(s') && Head(s').totalSize == size && Opened(s, s', size)
  {
    hide U32, Sound, Streams, StreamLen, RsvCount, Entries, BlocksOf, RsvLen, StructLen;
    BlockWords(s);
    RsvNotEmpty(s);
    SoundHead(s);
    OrderedRegion(s');
  }

  /** A blob built at tmp, moved to the start of the buffer and completed. */
  lemma ReorderedBlob(s: seq<byte>, n: seq<byte>, tmp: nat, size: nat, cpu: Word)
    requires Sound(s) && !InOrder(s) && tmp + Total(BlocksOf(s)) <= |n| < LIMIT && Total(BlocksOf(s)) <= size <= |n|
    ensures var b := BlocksOf(s); var m := PackAll(n, tmp, b);
      && Total(b) <= |m| && tmp + Total(b) <= |m|
      && var s' := ReorderPuts(Put(m, 0, m[tmp..tmp + Total(b)]), size, cpu);
        Relocated(s, s') && Ordered(s') && Head(s').totalSize == size && Opened(s, s', size)
  {
    hide U32, ReorderPuts, Put, Sound, Streams, StreamLen, RsvCount, Entries, BlocksOf, Region, Strings, RsvLen, StructLen, PackAll, Relocated, Ordered,
         InOrder;
    var b := BlocksOf(s);
    var m := PackAll(n, tmp, b);
    PackAllReads(n, tmp, b);
    var v := m[tmp..tmp + Total(b)];
    var m1 := Put(m, 0, v);
    PutReads(m, 0, v, 0, 0);
    var s' := ReorderPuts(m1, size, cpu);
    ReorderPutsHead(m1, size, cpu);
    BuiltBlob(n, m, m1, tmp, b);
    SameTail(s', m1, HEADER_SIZE, 40, 40 + |b.rsv|);
    SameTail(s', m1, HEADER_SIZE, 40 + |b.rsv|, 40 + |b.rsv| + |b.str|);
    SameTail(s', m1, HEADER_SIZE, 40 + |b.rsv| + |b.str|, Total(b));
    PackedRelocates(s, s', size);
  }

  /** The blocks and the five offset fields after the move to the start. */
  lemma BuiltBlob(n: seq<byte>, m: seq<byte>, m1: seq<byte>, tmp: nat, b: Blocks)
    requires PackedAt(n, m, tmp, b) && |m1| == |m| && m1[0..Total(b)] == m[tmp..tmp + Total(b)]
    ensures m1[40..40 + |b.rsv|] == b.rsv && m1[40 + |b.rsv|..40 + |b.rsv| + |b.str|] == b.str
    ensures m1[40 + |b.rsv| + |b.str|..Total(b)] == b.strs
    ensures var h := Head(m1);
      && h.offRsv == 40 && h.offStruct == 40 + |b.rsv| && h.sizeStruct == |b.str|
      && h.offStrings == 40 + |b.rsv| + |b.str| && h.sizeStrings == |b.strs|
  {
    hide U32;
    var k := Total(b);
    MovedSlice(m, m1, tmp, k, 40, 40 + |b.rsv|);
    MovedSlice(m, m1, tmp, k, 40 + |b.rsv|, 40 + |b.rsv| + |b.str|);
    MovedSlice(m, m1, tmp, k, 40 + |b.rsv| + |b.str|, k);
    MovedSlice(m, m1, tmp, k, 16, 20); SameWord(m1, m, 16, tmp + 16);
    MovedSlice(m, m1, tmp, k, 8, 12); SameWord(m1, m, 8, tmp + 8);
    MovedSlice(m, m1, tmp, k, 36, 40); SameWord(m1, m, 36, tmp + 36);
    MovedSlice(m, m1, tmp, k, 12, 16); SameWord(m1, m, 12, tmp + 12);
    MovedSlice(m, m1, tmp, k, 32, 36); SameWord(m1, m, 32, tmp + 32);
  }

  lemma MovedSlice(m: seq<byte>, m1: seq<byte>, tmp: nat, k: nat, i: nat, j: nat)
    requires tmp + k <= |m| && k <= |m1| && m1[0..k] == m[tmp..tmp + k] && i <= j <= k
    ensures m1[i..j] == m[tmp + i..tmp + j]
  {
    SubSlice(m1, 0, k, i, j);
    SubSlice(m, tmp, tmp + k, i, j);
  }

  /** What fdt_open_into leaves is accepted by every read-write function. */
  lemma OpenedIsEditable(s: seq<byte>)
    requires Sound(s) && Ordered(s)
    ensures RwError(Head(s)) == 0
  {
    hide U32, Streams, StreamLen, RsvCount, Region, Strings;
  }
}
