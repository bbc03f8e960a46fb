/** fdt.c: bounded access to the structure block and the tag scanner every other part is built on. */
module Fdt {

  import opened Bytes
  import opened Tokens
  import opened Blob
  import opened Cursor
  import opened Walk

  const NOTFOUND := 1
  const EXISTS := 2
  const NOSPACE := 3
  const BADOFFSET := 4
  const BADSTATE := 7
  const TRUNCATED := 8
  const BADMAGIC := 9
  const BADVERSION := 10
  const BADSTRUCTURE := 11
  const BADLAYOUT := 12
  const INTERNAL := 13

  /** fdt_check_header */
  function CheckHeader(s: seq<byte>): (err: int)
    requires |s| >= HEADER_SIZE
    ensures err == 0 || err == -BADVERSION || err == -BADSTATE || err == -BADMAGIC
  {
    var h := Head(s);
    if h.magic == MAGIC then
      if h.version < FIRST_VERSION || h.lastComp > LAST_VERSION then -BADVERSION else 0
    else if h.magic == SW_MAGIC then
      if h.sizeStruct == 0 then -BADSTATE else 0
    else -BADMAGIC
  }

  /** Which header gets which answer: finished blobs readable as version 17, and unfinished ones that hold something, pass. */
  lemma HeaderVerdict(s: seq<byte>)
    requires |s| >= HEADER_SIZE
    ensures var h, err := Head(s), CheckHeader(s); var readable := h.version >= FIRST_VERSION && h.lastComp <= LAST_VERSION;
      && (err == 0 <==> (h.magic == MAGIC && readable) || (h.magic == SW_MAGIC && h.sizeStruct != 0))
      && (err == -BADVERSION <==> h.magic == MAGIC && !readable)
      && (err == -BADSTATE <==> h.magic == SW_MAGIC && h.sizeStruct == 0)
      && (err == -BADMAGIC <==> h.magic != MAGIC && h.magic != SW_MAGIC)
  {
    hide Head;
  }

  // ----- fdt_offset_ptr

  /** offset + base and offset + base + len, in 32-bit arithmetic, neither wrap nor pass size. */
  predicate InRange(offset: nat, base: nat, len: nat, size: nat)
  {
    var abs := (offset + base) % W32;
    abs >= offset % W32 && (abs + len) % W32 >= abs && (abs + len) % W32 <= size
  }

  /** Comparing wrapped sums rejects every range that wraps. */
  lemma RangeTest(offset: nat, base: nat, len: Word, size: Word)
    requires offset < LIMIT && base < LIMIT
    ensures InRange(offset, base, len, size) <==> offset + base + len <= size
  {
  }

  /** The tests of fdt_offset_ptr. */
  predicate OffsetOk(s: seq<byte>, offset: nat, len: nat)
    requires |s| >= HEADER_SIZE
  {
    var h := Head(s);
    InRange(offset, h.offStruct, len, h.totalSize) && (h.version >= 17 ==> InRange(offset, 0, len, h.sizeStruct))
  }

  /** fdt_offset_ptr accepts exactly the ranges inside the region, whatever the length wraps to. */
  lemma OffsetOkExact(s: seq<byte>, offset: nat, len: Word)
    requires Readable(s) && offset < LIMIT
    ensures OffsetOk(s, offset, len) <==> offset + len <= |Region(s)|
  {
    hide InRange, U32;
    var h := Head(s);
    RangeTest(offset, h.offStruct, len, h.totalSize);
    RangeTest(offset, 0, len, h.sizeStruct);
  }

  // ----- fdt_next_tag

  datatype Tag = Tag(tag: Word, next: int)

  /** The tag at o and where the next one starts, or END and an error. */
  function TagAt(b: seq<byte>, o: nat): Tag
  {
    if o + 4 > |b| then Tag(END, -TRUNCATED)
    else if U32(b, o) == BEGIN_NODE then
      var k := Nul(b, o + 4);
      if k == |b| then Tag(END, -BADSTRUCTURE) else Tag(BEGIN_NODE, Align4(k + 1))
    else if U32(b, o) == PROP then
      if o + 8 > |b| || o + (12 + U32(b, o + 4)) % W32 > |b| then Tag(END, -BADSTRUCTURE)
      else Tag(PROP, Align4(o + (12 + U32(b, o + 4)) % W32))
    else if U32(b, o) == END || U32(b, o) == END_NODE || U32(b, o) == NOP then Tag(U32(b, o), Align4(o + 4))
    else Tag(END, -BADSTRUCTURE)
  }

  /** At a token boundary the scanner reads the token that starts there. */
  lemma TagIsFirst(b: seq<byte>, o: nat)
    requires |b| < LIMIT && o <= |b| && o % 4 == 0 && First(b[o..]).Some?
    ensures TagAt(b, o) == Tag(TagOf(First(b[o..]).value.tok), o + First(b[o..]).value.len)
  {
    hide U32, Align4;
    var r := b[o..];
    assert r == b[o..|b|];
    WordOfSlice(b, o, |b|, 0);
    if U32(r, 0) == BEGIN_NODE {
      NulUnique(b, o + 4, o + Nul(r, 4));
      AlignSum(o, Nul(r, 4) + 1);
    } else if U32(r, 0) == PROP {
      WordOfSlice(b, o, |b|, 4);
      AlignSum(o, 12 + U32(r, 4));
    }
  }

  /** The scan fails or moves forward, except exactly on a property whose length wraps to its own header. */
  lemma TagMovesOn(b: seq<byte>, o: nat)
    requires |b| < LIMIT && o % 4 == 0
    ensures TagAt(b, o).next < 0 || TagAt(b, o).next >= o
    ensures TagAt(b, o).next == o <==> o + 8 <= |b| && U32(b, o) == PROP && U32(b, o + 4) == 0xFFFF_FFF4
  {
    hide U32, Align4;
    if o + 8 <= |b| && U32(b, o) == PROP {
      var len := U32(b, o + 4);
      Wrapped(len);
      AlignSum(o, (12 + len) % W32);
      assert Align4((12 + len) % W32) == 0 <==> (12 + len) % W32 == 0;
    } else if o + 4 <= |b| {
      AlignSum(o, 4);
      TagCases(b, o);
    }
  }

  /** A property header of that length: the scan stays where it is. */
  lemma TagStays()
    ensures TagAt([0, 0, 0, 3, 255, 255, 255, 244, 0, 0, 0, 0], 0) == Tag(PROP, 0)
  {
    var b := [0, 0, 0, 3, 255, 255, 255, 244, 0, 0, 0, 0];
    assert U32(b, 0) == PROP && U32(b, 4) == 0xFFFF_FFF4;
  }

  lemma Wrapped(len: Word)
    ensures (12 + len) % W32 == if len < W32 - 12 then 12 + len else len - (W32 - 12)
  {
  }

  lemma RegionParts(s: seq<byte>)
    requires Readable(s)
    ensures |s| >= HEADER_SIZE
    ensures var base := U32(s, 8); base + |Region(s)| <= |s| < LIMIT && Region(s) == s[base..base + |Region(s)|]
  {
  }

  lemma RegionWord(s: seq<byte>, o: nat)
    requires Readable(s) && o + 4 <= |Region(s)|
    ensures U32(s, 8) + o + 4 <= |s| && U32(Region(s), o) == U32(s, U32(s, 8) + o)
  {
    RegionParts(s);
    WordOfSlice(s, U32(s, 8), U32(s, 8) + |Region(s)|, o);
  }

  /** The loop over a node name: just past its terminator, or -1. */
  method SkipName(fdt: array<byte>, start: nat) returns (offset: int)
    requires Readable(fdt[..]) && start <= |Region(fdt[..])|
    ensures var b := Region(fdt[..]); var k := Nul(b, start); offset == if k == |b| then -1 else k + 1
  {
    hide Head, Readable, Region;
    ghost var b := Region(fdt[..]);
    RegionParts(fdt[..]);
    var base := U32(fdt[..], 8);
    offset := start;
    OffsetOkExact(fdt[..], offset, 1);
    var ok := OffsetOk(fdt[..], offset, 1);
    offset := offset + 1;
    while ok && fdt[base + offset - 1] != 0
      invariant start < offset <= |b| + 1 && (ok <==> offset <= |b|)
      invariant Nul(b, start) == Nul(b, offset - 1)
      decreases |b| - offset
    {
      assert b[offset - 1] == fdt[base + offset - 1];
      OffsetOkExact(fdt[..], offset, 1);
      ok := OffsetOk(fdt[..], offset, 1);
      offset := offset + 1;
    }
    if !ok {
      return -1;
    }
    assert b[offset - 1] == fdt[base + offset - 1];
  }

  /** The end of a property, as a 32-bit sum and as a distance from its tag. */
  lemma PropertyEnd(start: nat, len: Word)
    requires start < LIMIT
    ensures var end := (start + 4 + (8 + len)) % W32;
      && (end - start) % W32 == (12 + len) % W32
      && (start + (12 + len) % W32 < W32 ==> end == start + (12 + len) % W32)
  {
    Wrapped(len);
    var d := (12 + len) % W32;
    assert (start + 12 + len) % W32 == if start + d < W32 then start + d else start + d - W32;
  }

  /** The answer for a tag of the given width, if it lies in the region. */
  function Cut(b: seq<byte>, o: nat, tag: Word, width: Word): Tag
  {
    if o + width <= |b| then Tag(tag, Align4(o + width)) else Tag(END, -BADSTRUCTURE)
  }

  /** TagAt, tag by tag. */
  lemma TagCases(b: seq<byte>, o: nat)
    requires o + 4 <= |b|
    ensures var t := U32(b, o); var k := Nul(b, o + 4);
      && (t == BEGIN_NODE ==> TagAt(b, o) == if k == |b| then Tag(END, -BADSTRUCTURE) else Tag(t, Align4(k + 1)))
      && (t == PROP ==> TagAt(b, o) == if o + 8 > |b| then Tag(END, -BADSTRUCTURE) else Cut(b, o, t, (12 + U32(b, o + 4)) % W32))
      && (t == END || t == END_NODE || t == NOP ==> TagAt(b, o) == Cut(b, o, t, 4))
      && (t != BEGIN_NODE && t != PROP && t != END && t != END_NODE && t != NOP ==> TagAt(b, o) == Tag(END, -BADSTRUCTURE))
  {
    hide U32;
  }

  method NextTag(fdt: array<byte>, start: nat) returns (tag: Word, next: int)
    requires Readable(fdt[..]) && start < LIMIT - 4
    ensures Tag(tag, next) == TagAt(Region(fdt[..]), start)
  {
    hide Head, Readable, Region, InRange, OffsetOk, U32, Nul, Align4;
    ghost var b := Region(fdt[..]);
    RegionParts(fdt[..]);
    var base := U32(fdt[..], 8);
    OffsetOkExact(fdt[..], start, 4);
    if !OffsetOk(fdt[..], start, 4) {
      return END, -TRUNCATED;
    }
    hide TagAt;
    TagCases(b, start);
    tag := U32(fdt[..], base + start);
    RegionWord(fdt[..], start);
    var offset := start + 4;
    next := -BADSTRUCTURE;
    ghost var width: Word := 4;
    if tag == BEGIN_NODE {
      offset := SkipName(fdt, offset);
      if offset < 0 {
        return END, next;
      }
      width := offset - start;
    } else if tag == PROP {
      OffsetOkExact(fdt[..], offset, 4);
      if !OffsetOk(fdt[..], offset, 4) {
        return END, next;
      }
      RegionWord(fdt[..], offset);
      var len := U32(fdt[..], base + offset);
      PropertyEnd(start, len);
      offset := (offset + (8 + len)) % W32;
      width := (12 + len) % W32;
    } else if tag != END && tag != END_NODE && tag != NOP {
      return END, next;
    }
    Distance(offset, start, width);
    OffsetOkExact(fdt[..], start, width);
    if !OffsetOk(fdt[..], start, (offset - start) % W32) {
      return END, next;
    }
    next := Align4(offset);
  }

  lemma Distance(offset: int, start: nat, width: Word)
    requires offset == start + width || (offset - start) % W32 == width
    ensures (offset - start) % W32 == width
  {
  }

  // ----- reading the item stream

  /** A blob whose structure region is a stream of tokens with resolvable names. */
  ghost predicate Legible(s: seq<byte>)
  {
    && Readable(s) && Head(s).offStrings + Head(s).sizeStrings <= |s|
    && HasAllItems(Region(s), Strings(s))
  }

  ghost function Content(s: seq<byte>): seq<Item>
  {
    if HasAllItems(Region(s), Strings(s)) then AllItems(Region(s), Strings(s)) else []
  }

  /** Offset o of the structure block is a token boundary, before item j. */
  ghost predicate OnItem(s: seq<byte>, o: int, j: int)
  {
    At(Region(s), Strings(s), o, j)
  }

  /** Offset o is that of the tag of item j. */
  ghost predicate ItemAt(s: seq<byte>, o: int, j: int)
  {
    Starts(Region(s), Strings(s), o, j)
  }

  /** Offset o is just past item j. */
  ghost predicate ItemEnds(s: seq<byte>, o: int, j: int)
  {
    Past(Region(s), Strings(s), o, j)
  }

  function ItemTag(i: Item): Word
  {
    match i
    case Open(_) => BEGIN_NODE
    case Close => END_NODE
    case Property(_, _) => PROP
  }

  /** What fdt_next_tag tells at a boundary before item j. */
  ghost predicate Told(s: seq<byte>, o: int, j: int, t: Tag)
  {
    t.next > o &&
    if t.tag == NOP then OnItem(s, t.next, j)
    else if t.tag == END then j == |Content(s)|
    else
      && 0 <= j < |Content(s)| && t.tag == ItemTag(Content(s)[j])
      && ItemAt(s, o, j) && ItemEnds(s, t.next, j) && OnItem(s, t.next, j + 1)
  }

  lemma TagTells(s: seq<byte>, o: int, j: int)
    requires Legible(s) && OnItem(s, o, j)
    ensures 0 <= o && o % 4 == 0 && o < LIMIT - 4 && o < |Region(s)| && 0 <= j <= |Content(s)|
    ensures Told(s, o, j, TagAt(Region(s), o))
  {
    var b, strs := Region(s), Strings(s);
    assert |b| < LIMIT;
    hide HasAllItems, AllItems, At, Past, First, Readable, Region, Strings, Starts, TagOf, ItemTag, TagAt, Told;
    AtSplits(b, strs, o, j);
    FirstNeedsTag(b[o..]);
    if Steps(b[o..]) { StepTells(s, o, j); } else { EndTells(s, o, j); }
  }

  lemma EndTells(s: seq<byte>, o: int, j: int)
    requires Legible(s) && OnItem(s, o, j) && 0 <= j && 0 <= o <= |Region(s)| < LIMIT && o % 4 == 0 && Ends(Region(s)[o..])
    ensures Told(s, o, j, TagAt(Region(s), o))
  {
    var b, strs := Region(s), Strings(s);
    hide HasAllItems, AllItems, At, Past, First, Readable, Region, Strings, Starts, TagAt;
    StepAt(b, strs, o, j);
    TagIsFirst(b, o);
  }

  lemma StepTells(s: seq<byte>, o: int, j: int)
    requires Legible(s) && OnItem(s, o, j) && 0 <= j && 0 <= o <= |Region(s)| < LIMIT && o % 4 == 0 && Steps(Region(s)[o..])
    ensures Told(s, o, j, TagAt(Region(s), o))
  {
    var b, strs := Region(s), Strings(s);
    hide HasAllItems, AllItems, At, Past, First, Readable, Region, Strings, Starts, TagOf, ItemTag, ItemOf, Named, TagAt;
    StepAt(b, strs, o, j);
    TagIsFirst(b, o);
    var t := First(b[o..]).value.tok;
    TagsApart(t);
    if t != Nop {
      ItemTagOf(t, strs);
      assert ItemOf(t, strs)[0] == Content(s)[j];
    }
  }

  lemma TagsApart(t: Token)
    ensures TagOf(t) == NOP <==> t == Nop
    ensures TagOf(t) == END <==> t == End
  {
  }

  lemma LegibleParts(s: seq<byte>)
    requires Legible(s)
    ensures Readable(s) && HEADER_SIZE <= |s| < LIMIT && OnItem(s, 0, 0)
  {
    AtStart(Region(s), Strings(s));
  }

  lemma FirstNeedsTag(b: seq<byte>)
    requires First(b).Some?
    ensures |b| >= 4
  {
  }

  /** A token block starts with a token; END is the last. */
  lemma StreamStarts(b: seq<byte>)
    requires Streams(b)
    ensures |b| >= 4 && First(b).Some? && (Ends(b) <==> First(b).value.tok == End) && (Ends(b) <==> !Steps(b))
    ensures if First(b).value.tok == End then StreamLen(b) == 4 == First(b).value.len else First(b).value.len <= |b|
  {
    hide First;
    if Ends(b) { EndIsBare(b); } else { FirstNeedsTag(b); }
  }

  lemma ItemTagOf(t: Token, strs: seq<byte>)
    requires Named(t, strs) && t != Nop
    ensures |ItemOf(t, strs)| == 1 && ItemTag(ItemOf(t, strs)[0]) == TagOf(t) && TagOf(t) != NOP && TagOf(t) != END
  {
  }

  /** _fdt_check_node_offset */
  method CheckNodeOffset(fdt: array<byte>, offset: int) returns (r: int)
    requires Readable(fdt[..]) && offset < LIMIT - 4
    ensures r == if offset >= 0 && offset % 4 == 0 && TagAt(Region(fdt[..]), offset).tag == BEGIN_NODE
                 then TagAt(Region(fdt[..]), offset).next else -BADOFFSET
  {
    if offset < 0 || offset % 4 != 0 {
      return -BADOFFSET;
    }
    var tag, next := NextTag(fdt, offset);
    if tag != BEGIN_NODE {
      return -BADOFFSET;
    }
    return next;
  }

  /** _fdt_check_prop_offset */
  method CheckPropOffset(fdt: array<byte>, offset: int) returns (r: int)
    requires Readable(fdt[..]) && offset < LIMIT - 4
    ensures r == if offset >= 0 && offset % 4 == 0 && TagAt(Region(fdt[..]), offset).tag == PROP
                 then TagAt(Region(fdt[..]), offset).next else -BADOFFSET
  {
    if offset < 0 || offset % 4 != 0 {
      return -BADOFFSET;
    }
    var tag, next := NextTag(fdt, offset);
    if tag != PROP {
      return -BADOFFSET;
    }
    return next;
  }

  // ----- fdt_next_node

  /** The answer of fdt_next_node for a scan. */
  ghost predicate Answers(s: seq<byte>, scan: Scan, r: int, d: int)
  {
    d == scan.depth &&
    match scan
    case Found(i, _) => ItemAt(s, r, i) && r >= 0
    case Closed(i, _) => ItemEnds(s, r, i - 1) && OnItem(s, r, i) && r >= 0
    case Finished(_) => r == -NOTFOUND
  }

  ghost predicate NextAnswer(s: seq<byte>, start: int, depth: int, j: nat, offset: int, d: int)
  {
    if start >= 0 && TagAt(Region(s), start).tag != BEGIN_NODE then offset == -BADOFFSET && d == depth
    else
      var from := if start >= 0 then j + 1 else 0;
      from <= |Content(s)| && Answers(s, NextOpen(Content(s), from, depth), offset, d)
  }

  /** One tag of the scan: what it answers, or how it goes on. */
  ghost predicate Scanned(s: seq<byte>, o: int, i: int, d: int, t: Tag)
  {
    && t.next > o && 0 <= i <= |Content(s)|
    && var scan := NextOpen(Content(s), i, d);
      if t.tag == BEGIN_NODE then Answers(s, scan, o, d + 1)
      else if t.tag == END then Answers(s, scan, -NOTFOUND, d)
      else if t.tag == END_NODE && d - 1 < 0 then Answers(s, scan, t.next, d - 1)
      else
        var i' := if t.tag == NOP then i else i + 1;
        && (t.tag == NOP || t.tag == PROP || t.tag == END_NODE) && OnItem(s, t.next, i') && i' <= |Content(s)|
        && scan == NextOpen(Content(s), i', if t.tag == END_NODE then d - 1 else d)
  }

  lemma ScanStep(s: seq<byte>, o: int, i: int, d: int)
    requires Legible(s) && OnItem(s, o, i)
    ensures 0 <= o < LIMIT - 4 && o < |Region(s)| && Scanned(s, o, i, d, TagAt(Region(s), o))
  {
    hide Legible, Content, OnItem, ItemAt, ItemEnds, Region, TagAt;
    TagTells(s, o, i);
  }

  /** The loop of fdt_next_node. */
  method ScanOn(fdt: array<byte>, start: int, depth: int, ghost j: nat) returns (offset: int, d: int)
    requires Legible(fdt[..]) && OnItem(fdt[..], start, j)
    ensures j <= |Content(fdt[..])| && Answers(fdt[..], NextOpen(Content(fdt[..]), j, depth), offset, d)
  {
    hide Legible, Content, OnItem, ItemAt, ItemEnds, Region, TagAt, Readable, Answers, NextOpen;
    ghost var s := fdt[..];
    LegibleParts(s);
    var next := start;
    d := depth;
    ghost var i := j;
    ScanStep(s, start, j, d);
    ghost var scan := NextOpen(Content(s), j, depth);
    while true
      invariant OnItem(s, next, i) && 0 <= i <= |Content(s)| && scan == NextOpen(Content(s), i, d)
      decreases |Region(s)| - next
    {
      offset := next;
      ScanStep(s, offset, i, d);
      var tag;
      tag, next := NextTag(fdt, offset);
      if tag == PROP {
        i := i + 1;
      } else if tag == BEGIN_NODE {
        d := d + 1;
        return;
      } else if tag == END_NODE {
        d := d - 1;
        i := i + 1;
        if d < 0 {
          return next, d;
        }
      } else if tag == END {
        if next >= 0 {
          return -NOTFOUND, d;
        }
        return next, d;
      }
    }
  }

  /** fdt_next_node, with a depth counter: the scan NextOpen describes, from just after the node at offset. */
  method NextNode(fdt: array<byte>, start: int, depth: int, ghost j: nat) returns (offset: int, d: int)
    requires Legible(fdt[..]) && start < LIMIT - 4
    requires start < 0 ==> j == 0
    requires start >= 0 ==> OnItem(fdt[..], start, j)
    ensures NextAnswer(fdt[..], start, depth, j, offset, d)
  {
    hide Legible, Content, OnItem, ItemAt, ItemEnds, Region, TagAt, Readable, Answers, NextOpen;
    ghost var s := fdt[..];
    LegibleParts(s);
    var next := 0;
    if start >= 0 {
      TagTells(s, start, j);
      next := CheckNodeOffset(fdt, start);
      if next < 0 {
        return next, depth;
      }
    }
    offset, d := ScanOn(fdt, next, depth, if start >= 0 then j + 1 else 0);
  }

  // ----- the bytes of an item

  /** Item j is the token at its offset. */
  lemma ItemToken(s: seq<byte>, o: int, j: int)
    requires Legible(s) && ItemAt(s, o, j)
    ensures 0 <= o <= |Region(s)| && 0 <= j < |Content(s)| && First(Region(s)[o..]).Some?
    ensures var x := First(Region(s)[o..]).value;
      && Named(x.tok, Strings(s)) && ItemOf(x.tok, Strings(s)) == [Content(s)[j]]
      && TagAt(Region(s), o) == Tag(TagOf(x.tok), o + x.len)
  {
    var b, strs := Region(s), Strings(s);
    assert |b| < LIMIT;
    hide HasAllItems, AllItems, At, Past, Region, Readable, Strings, First, Named, ItemOf, U32, TagAt, TagOf, Ends;
    StepAt(b, strs, o, j);
    AtSplits(b, strs, o, j);
    TagIsFirst(b, o);
  }

  /** The name of a node follows its tag. */
  lemma OpenBytes(s: seq<byte>, o: int, j: int)
    requires Legible(s) && ItemAt(s, o, j) && 0 <= j < |Content(s)| && Content(s)[j].Open?
    ensures 0 <= o && var b := Region(s); var name := Content(s)[j].name;
      && CString(name) && o + 4 + |name| < |b| && b[o + 4..o + 4 + |name|] == name && b[o + 4 + |name|] == 0
      && TagAt(b, o) == Tag(BEGIN_NODE, o + 4 + Align4(|name| + 1))
  {
    hide Legible, ItemAt, Content, Region, Strings, First, Named, ItemOf, TagAt;
    ItemToken(s, o, j);
    OpenItem(Region(s)[o..], Strings(s));
    SliceOfTail(Region(s), o, 4, |Content(s)[j].name|);
  }

  lemma SliceOfTail(b: seq<byte>, o: nat, i: nat, n: nat)
    requires o + i + n <= |b|
    ensures b[o..][i..i + n] == b[o + i..o + i + n]
  {
  }

  lemma OpenItem(r: seq<byte>, strs: seq<byte>)
    requires First(r).Some? && Named(First(r).value.tok, strs)
    requires |ItemOf(First(r).value.tok, strs)| == 1 && ItemOf(First(r).value.tok, strs)[0].Open?
    ensures var name := ItemOf(First(r).value.tok, strs)[0].name;
      && CString(name) && 4 + |name| < |r| && r[4..4 + |name|] == name && r[4 + |name|] == 0
      && First(r).value.tok == Begin(name) && First(r).value.len == 4 + Align4(|name| + 1)
  {
    AlignSum(4, Nul(r, 4) - 4 + 1);
  }

  /** The length, the name's offset and the value of a property follow its tag. */
  lemma PropertyBytes(s: seq<byte>, o: int, j: int)
    requires Legible(s) && ItemAt(s, o, j) && 0 <= j < |Content(s)| && Content(s)[j].Property?
    ensures 0 <= o && var b := Region(s); var Property(key, val) := Content(s)[j];
      && o + 12 + |val| <= |b| && U32(b, o + 4) == |val| && StringAt(Strings(s), U32(b, o + 8)) == Some(key)
      && b[o + 12..o + 12 + |val|] == val && TagAt(b, o) == Tag(PROP, o + 12 + Align4(|val|))
  {
    hide Legible, ItemAt, Content, Region, Strings, First, Named, ItemOf, TagAt, U32;
    ItemToken(s, o, j);
    PropertyItem(Region(s)[o..], Strings(s));
    SliceOfTail(Region(s), o, 12, |Content(s)[j].val|);
    TailWord(Region(s), o, 4);
    TailWord(Region(s), o, 8);
  }

  lemma TailWord(b: seq<byte>, o: nat, i: nat)
    requires o + i + 4 <= |b|
    ensures U32(b[o..], i) == U32(b, o + i)
  {
  }

  lemma PropertyItem(r: seq<byte>, strs: seq<byte>)
    requires First(r).Some? && Named(First(r).value.tok, strs)
    requires |ItemOf(First(r).value.tok, strs)| == 1 && ItemOf(First(r).value.tok, strs)[0].Property?
    ensures var Property(key, val) := ItemOf(First(r).value.tok, strs)[0];
      && 12 + |val| <= |r| && U32(r, 4) == |val| && StringAt(strs, U32(r, 8)) == Some(key) && r[12..12 + |val|] == val
      && First(r).value.tok == Prop(U32(r, 8), val) && First(r).value.len == 12 + Align4(|val|)
  {
    AlignSum(12, U32(r, 4));
  }

  // ----- _fdt_find_string

  /** The terminated string key is in the table at p, possibly as the tail of a longer one. */
  predicate MatchesAt(strs: seq<byte>, p: nat, key: seq<byte>)
  {
    p + |key| + 1 <= |strs| && strs[p..p + |key| + 1] == key + [0]
  }

  lemma MatchInside(strs: seq<byte>, p: nat, key: seq<byte>)
    requires MatchesAt(strs, p, key)
    ensures p < |strs|
  {
  }

  /** The matches are exactly the places where the string key starts. */
  lemma MatchIsString(strs: seq<byte>, p: nat, key: seq<byte>)
    requires CString(key)
    ensures MatchesAt(strs, p, key) <==> StringAt(strs, p) == Some(key)
  {
    var n := |key|;
    if MatchesAt(strs, p, key) {
      var m := strs[p..p + n + 1];
      assert strs[p + n] == m[n];
      forall j | p <= j < p + n ensures strs[j] != 0 { assert strs[j] == m[j - p] == key[j - p]; }
      NulUnique(strs, p, p + n);
      assert strs[p..p + n] == m[..n] == key;
    }
  }

  /** p is where key is first found in the table, or -1. */
  ghost predicate FirstMatch(strs: seq<byte>, key: seq<byte>, p: int)
  {
    if p < 0 then p == -1 && forall q: nat :: !MatchesAt(strs, q, key)
    else MatchesAt(strs, p, key) && forall q: nat :: q < p ==> !MatchesAt(strs, q, key)
  }

  method FindString(a: array<byte>, base: nat, size: nat, key: seq<byte>) returns (p: int)
    requires base + size <= a.Length
    ensures FirstMatch(a[..][base..base + size], key, p)
  {
    var len := |key| + 1;
    ghost var strs := a[..][base..base + size];
    p := 0;
    while p <= size - len
      invariant 0 <= p
      invariant forall q: nat :: q < p ==> !MatchesAt(strs, q, key)
    {
      SubSlice(a[..], base, base + size, p, p + len);
      assert a[base + p..base + p + len] == a[..][base + p..base + p + len];
      if a[base + p..base + p + len] == key + [0] {
        return;
      }
      p := p + 1;
    }
    return -1;
  }
}
