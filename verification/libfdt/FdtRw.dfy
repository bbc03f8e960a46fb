/** fdt_rw.c: editing a blob in place by moving everything behind the edit. */
module FdtRw {

  import opened Bytes
  import opened Tokens
  import opened Trees
  import opened TreeEdits
  import opened Blob
  import opened Copy
  import opened Cursor
  import opened Fdt
  import opened FdtRo
  import opened FdtWip
  import opened Edits
  import opened Walk
  import opened Lookup
  import opened Nodes

  // ----- header checks

  /** _fdt_blocks_misordered, in 32-bit arithmetic. */
  predicate Misordered(h: Header, rsvSize: nat, structSize: nat)
  {
    || h.offRsv < HEADER_SIZE
    || h.offStruct < (h.offRsv + rsvSize) % W32
    || h.offStrings < (h.offStruct + structSize) % W32
    || h.totalSize < (h.offStrings + h.sizeStrings) % W32
  }

  /** What the read-write functions refuse, on a sound blob. */
  function RwError(h: Header): (err: int)
    ensures err <= 0
  {
    if h.version < 17 then -BADVERSION
    else if Misordered(h, 16, h.sizeStruct) then -BADLAYOUT
    else 0
  }

  /** s' stands for the tree t and has the reservations of s. */
  ghost predicate Becomes(s: seq<byte>, s': seq<byte>, t: Tree)
  {
    Sound(s) && Denotes(s', t) && Reserved(s') == Reserved(s) && |s'| == |s|
  }

  lemma BecomesRefl(s: seq<byte>, t: Tree)
    requires Denotes(s, t)
    ensures Becomes(s, s, t)
  {
  }

  lemma BecomesTrans(s: seq<byte>, s': seq<byte>, s'': seq<byte>, t: Tree, t': Tree)
    requires Becomes(s, s', t) && Becomes(s', s'', t')
    ensures Becomes(s, s'', t')
  {
  }

  /** The version field beyond 16 does not matter to the tree. */
  lemma VersionForgotten(s: seq<byte>, t: Tree)
    requires Denotes(s, t) && Head(s).version >= 17 && !Misordered(Head(s), 16, Head(s).sizeStruct)
    ensures |s| >= HEADER_SIZE && var s' := Put(s, 4 * 5, Be32(LAST_VERSION));
      Becomes(s, s', t) && Ordered(s') && Head(s') == Head(s).(version := LAST_VERSION) && Region(s') == Region(s) && Strings(s') == Strings(s)
  {
    hide Put, Streams, StreamLen, RsvCount, Entries, U32, AllItems, HasAllItems, Region, Strings, Head;
    var s' := Put(s, 4 * 5, Be32(LAST_VERSION));
    VersionBlocks(s);
    PutReads(s, 4 * 5, Be32(LAST_VERSION), Head(s).offRsv, Head(s).offRsv + RsvLen(s));
    RelocatedDenotes(s, s', t);
  }

  lemma VersionBlocks(s: seq<byte>)
    requires Sound(s) && Head(s).version >= 17 && !Misordered(Head(s), 16, Head(s).sizeStruct)
    ensures var s' := Put(s, 4 * 5, Be32(LAST_VERSION));
      && Ordered(s') && Head(s') == Head(s).(version := LAST_VERSION) && Region(s') == Region(s) && Strings(s') == Strings(s)
      && StructLen(s) == |Region(s)| && Head(s).offRsv + RsvLen(s) <= Head(s).offStruct
  {
    hide Put, Be32, U32, Sound, RsvLen;
    BlocksInOrder(s);
    var h, v := Head(s), Be32(LAST_VERSION);
    HeadPut(s, 5, LAST_VERSION);
    PutReads(s, 4 * 5, v, h.offStruct, h.offStruct + h.sizeStruct);
    PutReads(s, 4 * 5, v, h.offStrings, h.offStrings + h.sizeStrings);
  }

  /** In a sound blob that is not misordered, the blocks with all the reservations. */
  lemma BlocksInOrder(s: seq<byte>)
    requires Sound(s) && Head(s).version >= 17 && !Misordered(Head(s), 16, Head(s).sizeStruct)
    ensures Readable(s) && |Region(s)| == Head(s).sizeStruct && Streams(Region(s)) && StructLen(s) == |Region(s)|
    ensures var h := Head(s);
      && HEADER_SIZE <= h.offRsv <= h.totalSize && h.offRsv + RsvLen(s) <= h.offStruct && h.offStruct + h.sizeStruct <= h.offStrings
      && h.offStrings + h.sizeStrings <= h.totalSize && h.offRsv + 16 <= h.offStruct
  {
    hide Streams, StreamLen, RsvCount, Entries, U32;
  }

  /** FDT_RW_CHECK_HEADER */
  method RwCheckHeader(fdt: array<byte>, ghost t: Tree) returns (err: int)
    requires Denotes(fdt[..], t)
    modifies fdt
    ensures |old(fdt[..])| >= HEADER_SIZE && err == RwError(Head(old(fdt[..])))
    ensures err == 0 ==> Ordered(fdt[..]) && SameText(old(fdt[..]), fdt[..]) && Becomes(old(fdt[..]), fdt[..], t)
    ensures err != 0 ==> fdt[..] == old(fdt[..])
  {
    hide Denotes, Becomes, Misordered, Ordered, SameText;
    ghost var s := fdt[..];
    DenotesText(s, t);
    assert |s| >= HEADER_SIZE && fdt.Length == |s|;
    err := CheckHeader(fdt[..]);
    if err != 0 {
      return;
    }
    var h := Head(fdt[..]);
    if h.version < 17 {
      return -BADVERSION;
    }
    if Misordered(h, 16, h.sizeStruct) {
      return -BADLAYOUT;
    }
    if h.version > 17 {
      VersionChanged(s, t);
      SetWord(fdt, 5, LAST_VERSION);
    } else {
      VersionStays(s, t);
    }
  }

  /** Only the version in the header may differ. */
  ghost predicate SameText(s: seq<byte>, s': seq<byte>)
  {
    && HEADER_SIZE <= |s| == |s'| && Head(s') == Head(s).(version := LAST_VERSION)
    && Region(s') == Region(s) && Strings(s') == Strings(s)
  }

  lemma VersionChanged(s: seq<byte>, t: Tree)
    requires Denotes(s, t) && Head(s).version >= 17 && !Misordered(Head(s), 16, Head(s).sizeStruct)
    ensures |s| >= HEADER_SIZE && var s' := Put(s, 4 * 5, Be32(LAST_VERSION)); Ordered(s') && SameText(s, s') && Becomes(s, s', t)
  {
    hide Denotes, Becomes, Misordered, Ordered, Put;
    VersionForgotten(s, t);
  }

  lemma VersionStays(s: seq<byte>, t: Tree)
    requires Denotes(s, t) && Head(s).version == 17 && !Misordered(Head(s), 16, Head(s).sizeStruct)
    ensures Ordered(s) && SameText(s, s) && Becomes(s, s, t)
  {
    hide U32, RsvCount, Region, Strings, Streams, StreamLen;
  }

  // ----- splicing

  /** n more bytes fit behind the strings. */
  ghost predicate Room(s: seq<byte>, n: int)
  {
    HEADER_SIZE <= |s| && Head(s).offStrings + Head(s).sizeStrings + n <= Head(s).totalSize
  }

  /** _fdt_splice */
  method Splice(fdt: array<byte>, p: nat, oldlen: nat, newlen: nat) returns (err: int)
    requires Ordered(fdt[..])
    modifies fdt
    ensures var s := old(fdt[..]); var end := Head(s).offStrings + Head(s).sizeStrings;
      if p + oldlen > end then err == -BADOFFSET && fdt[..] == s
      else if !Room(s, newlen - oldlen) then err == -NOSPACE && fdt[..] == s
      else err == 0 && end - oldlen + newlen <= |s| && fdt[..] == Spliced(s, p, oldlen, newlen, end)
  {
    hide U32;
    var h := Head(fdt[..]);
    var end := h.offStrings + h.sizeStrings;
    if p + oldlen < p || p + oldlen > end {
      return -BADOFFSET;
    }
    if end - oldlen + newlen < 0 {
      return -BADOFFSET;
    }
    if end - oldlen + newlen > h.totalSize {
      return -NOSPACE;
    }
    MoveBytes(fdt, p + newlen, p + oldlen, end - p - oldlen);
    return 0;
  }

  /** _fdt_splice_struct, o being an offset into the structure block. */
  method SpliceStruct(fdt: array<byte>, o: nat, oldlen: nat, newlen: nat) returns (err: int)
    requires Ordered(fdt[..]) && o + oldlen <= Head(fdt[..]).sizeStruct && newlen < LIMIT
    modifies fdt
    ensures err == if Room(old(fdt[..]), newlen - oldlen) then 0 else -NOSPACE
    ensures err == 0 ==> o + newlen <= |Region(fdt[..])| && Edited(old(fdt[..]), fdt[..], o, oldlen, Region(fdt[..])[o..o + newlen])
    ensures err != 0 ==> fdt[..] == old(fdt[..])
  {
    hide U32, Spliced, Edited, Region, Put;
    ghost var s := fdt[..];
    var h := Head(fdt[..]);
    err := Splice(fdt, h.offStruct + o, oldlen, newlen);
    if err != 0 {
      return;
    }
    ghost var t := fdt[..];
    SplicedHead(s, h.offStruct + o, oldlen, newlen, h.offStrings + h.sizeStrings);
    SetWord(fdt, 9, h.sizeStruct - oldlen + newlen);
    ghost var t1 := fdt[..];
    HeadPut(t, 9, h.sizeStruct - oldlen + newlen);
    SetWord(fdt, 3, h.offStrings - oldlen + newlen);
    HeadPut(t1, 3, h.offStrings - oldlen + newlen);
    TailOfPut(t, 36, Be32(h.sizeStruct - oldlen + newlen));
    TailOfPut(t1, 12, Be32(h.offStrings - oldlen + newlen));
    SpliceEdits(s, fdt[..], o, oldlen, newlen);
  }

  lemma SplicedHead(s: seq<byte>, p: nat, oldlen: nat, newlen: nat, end: nat)
    requires HEADER_SIZE <= p && p + oldlen <= end <= |s| && end - oldlen + newlen <= |s|
    ensures Head(Spliced(s, p, oldlen, newlen, end)) == Head(s)
  {
    hide Head;
    var t := Spliced(s, p, oldlen, newlen, end);
    assert t[..HEADER_SIZE] == s[..HEADER_SIZE];
    HeadOfPrefix(s, t);
  }

  // ----- the strings block

  /** key and its terminator were appended to the strings block. */
  ghost predicate Grown(s: seq<byte>, s': seq<byte>, key: seq<byte>)
  {
    && Ordered(s) && Ordered(s') && |s'| == |s| && Head(s).sizeStrings + |key| + 1 < W32
    && Head(s') == Head(s).(sizeStrings := Head(s).sizeStrings + |key| + 1)
    && s'[HEADER_SIZE..Head(s).offStrings] == s[HEADER_SIZE..Head(s).offStrings]
    && Region(s') == Region(s) && Strings(s') == Strings(s) + (key + [0])
  }

  /** Growing the strings block changes neither the tree nor any node's place. */
  lemma GrownKeeps(s: seq<byte>, s': seq<byte>, key: seq<byte>, t: Tree)
    requires Denotes(s, t) && Grown(s, s', key)
    ensures Becomes(s, s', t)
  {
    hide U32, RsvCount, Entries, Region, Strings, Streams, StreamLen, Stream;
    OrderedRegion(s); OrderedRegion(s');
    ResolveGrown(Stream(Region(s)), Strings(s), key + [0]);
    var h := Head(s);
    RsvBeforeStruct(s);
    SubSlice(s, HEADER_SIZE, h.offStrings, 0, h.offStruct - HEADER_SIZE);
    SubSlice(s', HEADER_SIZE, h.offStrings, 0, h.offStruct - HEADER_SIZE);
    ReservedKept(s, s');
  }

  lemma GrownItems(s: seq<byte>, s': seq<byte>, key: seq<byte>, o: int, j: int)
    requires Grown(s, s', key)
    ensures OnItem(s, o, j) ==> OnItem(s', o, j)
    ensures ItemAt(s, o, j) ==> ItemAt(s', o, j)
  {
    hide U32, Region, Strings, Parses, Parse, First, Steps;
    if OnItem(s, o, j) { ResolveGrown(Parse(Region(s)[..o]), Strings(s), key + [0]); }
  }

  /** _fdt_find_add_string */
  method FindAddString(fdt: array<byte>, key: seq<byte>) returns (at: int)
    requires Ordered(fdt[..]) && CString(key)
    modifies fdt
    ensures at < 0 ==> at == -NOSPACE && fdt[..] == old(fdt[..]) && !Room(old(fdt[..]), |key| + 1)
    ensures at >= 0 ==> at < W32 && StringAt(Strings(fdt[..]), at) == Some(key)
    ensures at >= 0 ==> fdt[..] == old(fdt[..]) || Grown(old(fdt[..]), fdt[..], key)
    ensures var strs := Strings(old(fdt[..])); (exists q: nat :: StringAt(strs, q) == Some(key)) ==> at >= 0 && fdt[..] == old(fdt[..])
  {
    hide U32, StringAt, Grown, Region, Strings, Put, Spliced;
    ghost var s := fdt[..];
    var h := Head(fdt[..]);
    OrderedRegion(s);
    at := FindString(fdt, h.offStrings, h.sizeStrings, key);
    if at >= 0 {
      MatchIsString(Strings(s), at, key);
      MatchInside(Strings(s), at, key);
      return;
    }
    assert fdt[..] == s && Strings(s) == s[h.offStrings..h.offStrings + h.sizeStrings];
    forall q: nat ensures StringAt(Strings(s), q) != Some(key) { MatchIsString(Strings(s), q, key); }
    var end := h.offStrings + h.sizeStrings;
    var err := Splice(fdt, end, 0, |key| + 1);
    if err != 0 {
      return err;
    }
    SplicedNothing(s, end, |key| + 1);
    SetWord(fdt, 8, h.sizeStrings + |key| + 1);
    ghost var s1 := fdt[..];
    PutBytes(fdt, end, key + [0]);
    GrownByPuts(s, s1, key);
    MatchIsString(Strings(fdt[..]), h.sizeStrings, key);
    return h.sizeStrings;
  }

  lemma SplicedNothing(s: seq<byte>, end: nat, newlen: nat)
    requires end + newlen <= |s|
    ensures Spliced(s, end, 0, newlen, end) == s
  {
  }

  lemma GrownByPuts(s: seq<byte>, s1: seq<byte>, key: seq<byte>)
    requires Ordered(s) && Room(s, |key| + 1) && s1 == Put(s, 4 * 8, Be32(Head(s).sizeStrings + |key| + 1))
    ensures var s' := Put(s1, Head(s).offStrings + Head(s).sizeStrings, key + [0]);
      Grown(s, s', key) && MatchesAt(Strings(s'), Head(s).sizeStrings, key)
  {
    hide U32, Put, Region, Strings, Be32;
    var h, v := Head(s), Be32(Head(s).sizeStrings + |key| + 1);
    var end := h.offStrings + h.sizeStrings;
    HeadPut(s, 8, h.sizeStrings + |key| + 1);
    var s' := Put(s1, end, key + [0]);
    PutReads(s1, end, key + [0], 0, HEADER_SIZE);
    assert s'[..HEADER_SIZE] == s'[0..HEADER_SIZE] && s1[..HEADER_SIZE] == s1[0..HEADER_SIZE];
    HeadOfPrefix(s1, s');
    hide Head;
    PutReads(s, 32, v, HEADER_SIZE, end);
    PutReads(s1, end, key + [0], HEADER_SIZE, end);
    PutReads(s1, end, key + [0], end, end);
    GrownFromParts(s, s', key);
  }

  lemma GrownFromParts(s: seq<byte>, s': seq<byte>, key: seq<byte>)
    requires Ordered(s) && Room(s, |key| + 1) && |s'| == |s| && Head(s).sizeStrings + |key| + 1 < W32
    requires Head(s') == Head(s).(sizeStrings := Head(s).sizeStrings + |key| + 1)
    requires var h := Head(s); var end := h.offStrings + h.sizeStrings;
      && s'[HEADER_SIZE..end] == s[HEADER_SIZE..end] && s'[end..end + |key| + 1] == key + [0]
    ensures Grown(s, s', key) && MatchesAt(Strings(s'), Head(s).sizeStrings, key)
  {
    hide U32;
    var h := Head(s);
    var end := h.offStrings + h.sizeStrings;
    OrderedRegion(s); OrderedRegion(s');
    hide Region, Strings, Head;
    SamePart(s, s', HEADER_SIZE, end, h.offStruct, h.offStruct + h.sizeStruct);
    SamePart(s, s', HEADER_SIZE, end, h.offStrings, end);
    SamePart(s, s', HEADER_SIZE, end, HEADER_SIZE, h.offStrings);
    assert s'[h.offStrings..end + |key| + 1] == s'[h.offStrings..end] + s'[end..end + |key| + 1];
  }

  lemma SamePart(s: seq<byte>, s': seq<byte>, i: nat, j: nat, a: nat, b: nat)
    requires i <= a <= b <= j <= |s| && j <= |s'| && s[i..j] == s'[i..j]
    ensures s[a..b] == s'[a..b]
  {
    SubSlice(s, i, j, a - i, b - i);
    SubSlice(s', i, j, a - i, b - i);
  }

  // ----- what an edit leaves of the blob

  /** newlen bytes stand in the structure block where oldlen bytes stood at o, and more was appended to the strings; the rest of
      the structure block is as it was, and the header but for the version, the two sizes and the offset of the strings. */
  ghost predicate RelaidAt(s: seq<byte>, s': seq<byte>, o: nat, oldlen: nat, newlen: nat, more: seq<byte>)
  {
    && HEADER_SIZE <= |s| == |s'| && Ordered(s')
    && var h, h' := Head(s), Head(s');
    && h'.sizeStruct == h.sizeStruct + newlen - oldlen && h'.offStrings == h.offStrings + newlen - oldlen
    && h'.sizeStrings == h.sizeStrings + |more|
    && h' == h.(version := LAST_VERSION, sizeStruct := h'.sizeStruct, offStrings := h'.offStrings, sizeStrings := h'.sizeStrings)
    && o + oldlen <= |Region(s)| && o + newlen <= |Region(s')|
    && Region(s')[..o] == Region(s)[..o] && Region(s')[o + newlen..] == Region(s)[o + oldlen..]
    && Strings(s') == Strings(s) + more
  }

  /** So at some place at or after from. */
  ghost predicate Relaid(s: seq<byte>, s': seq<byte>, from: int, oldlen: nat, newlen: nat, more: seq<byte>)
  {
    exists o: nat :: o >= from && RelaidAt(s, s', o, oldlen, newlen, more)
  }

  /** The total size stays, so the room that is left is what was left less what was used: another n bytes fit after the edit
      exactly if they fit before it together with those. */
  lemma RoomLeft(s: seq<byte>, s': seq<byte>, from: int, oldlen: nat, newlen: nat, more: seq<byte>)
    requires Relaid(s, s', from, oldlen, newlen, more)
    ensures forall n: int :: Room(s', n) <==> Room(s, newlen - oldlen + |more| + n)
    ensures Head(s').totalSize == Head(s).totalSize && RwError(Head(s')) == 0
  {
    hide U32, Region, Strings;
  }

  lemma RelaidByEdit(s: seq<byte>, s0: seq<byte>, s1: seq<byte>, s': seq<byte>, o: nat, oldlen: nat, now: seq<byte>, more: seq<byte>)
    requires SameText(s, s0) && Ordered(s0) && NameIn(s0, s1, more) && Edited(s1, s', o, oldlen, now)
    ensures RelaidAt(s, s', o, oldlen, |now|, more)
  {
    hide U32, Strings;
    OrderedSize(s1); OrderedSize(s');
    hide Region;
    var b, b' := Region(s1), Region(s');
    assert b'[..o] == b[..o] && b'[o + |now|..] == b[o + oldlen..];
  }

  lemma RelaidByName(s: seq<byte>, s0: seq<byte>, s1: seq<byte>, more: seq<byte>)
    requires SameText(s, s0) && Ordered(s0) && NameIn(s0, s1, more)
    ensures RelaidAt(s, s1, 0, 0, 0, more)
  {
    hide U32, Strings, Region;
  }

  /** s' is s with the name more, if it is not empty, appended to the strings. */
  ghost predicate NameIn(s: seq<byte>, s': seq<byte>, more: seq<byte>)
  {
    if more == [] then s' == s else 0 < |more| && Grown(s, s', more[..|more| - 1]) && more[|more| - 1] == 0
  }

  lemma NothingNamed(s: seq<byte>)
    ensures NameIn(s, s, [])
  {
  }

  // ----- what an edit of a node's items means

  /** Replacing the items [a..b) of the node at p by x, in the bytes and in the tree. */
  lemma NodeEdited(s: seq<byte>, s': seq<byte>, t: Tree, p: Path, u: Tree, a: nat, b: nat, o: nat, o': nat, now: seq<byte>)
    requires Denotes(s, t) && HasNode(t, p) && a <= b <= Size(NodeOf(t, p))
    requires OnItem(s, o, IndexOf(t, p) + a) && OnItem(s, o', IndexOf(t, p) + b) && o <= o'
    requires Edited(s, s', o, o' - o, now) && HasItems(now, Strings(s))
    requires Flatten(u) == Flatten(NodeOf(t, p))[..a] + Items(now, Strings(s)) + Flatten(NodeOf(t, p))[b..]
    ensures Becomes(s, s', Replaced(t, p, u))
  {
    hide Denotes, Legible, Content, Sound, OnItem, Edited, HasItems, Items, Strings, Flatten, Reserved, Region, Streams;
    DenotesText(s, t);
    EditInTree(t, p, u, a, b, Items(now, Strings(s)));
    EditMeans(s, s', o, IndexOf(t, p) + a, o', IndexOf(t, p) + b, now);
    LegibleStreams(s');
    EditSound(s, s', o, o' - o, now);
    EditedLength(s, s', o, o' - o, now);
    TextDenotes(s', Replaced(t, p, u));
  }

  lemma LegibleStreams(s: seq<byte>)
    requires Legible(s)
    ensures Streams(Region(s))
  {
  }

  lemma EditedLength(s: seq<byte>, s': seq<byte>, o: int, oldlen: int, now: seq<byte>)
    requires Edited(s, s', o, oldlen, now)
    ensures |s'| == |s|
  {
  }

  // ----- properties

  /** A property of that name and length was put in place of oldlen bytes at o; its value is still to be written. */
  ghost predicate PropHole(s: seq<byte>, s': seq<byte>, o: nat, oldlen: nat, key: seq<byte>, len: nat)
  {
    var n := 12 + Align4(len);
    && o + n <= |Region(s')| && Edited(s, s', o, oldlen, Region(s')[o..o + n])
    && PropChunk(Region(s')[o..o + n], Strings(s), key, len)
  }

  /** The room a property takes. */
  function PropRoom(len: nat): nat
  {
    12 + Align4(len)
  }

  /** _fdt_resize_property at a node. */
  method ResizeProperty(fdt: array<byte>, node: nat, key: seq<byte>, len: nat, ghost j: nat) returns (err: int, prop: int)
    requires Legible(fdt[..]) && Ordered(fdt[..]) && OnItem(fdt[..], node, j) && node < LIMIT - 4 && len < LIMIT - 16
    requires TagAt(Region(fdt[..]), node).tag == BEGIN_NODE && j < |Content(fdt[..])|
    modifies fdt
    ensures var s := old(fdt[..]);
      ResizeResult(s, fdt[..], FindKey(Content(s), j + 1, key), key, len, err, prop)
  {
    hide Legible, Content, OnItem, ItemAt, ItemEnds, Region, TagAt, FindKey, U32, Put, Strings, Edited, PropChunk, Ordered, Room, StringAt;
    ghost var s := fdt[..];
    var oldlen;
    prop, oldlen := GetProperty(fdt, node, key, j);
    if prop < 0 {
      err := oldlen;
      return;
    }
    ghost var i := FindKey(Content(s), j + 1, key).at;
    PropertyIn(s, prop, i);
    err := SpliceStruct(fdt, prop + 12, Align4(oldlen), Align4(len));
    if err != 0 {
      return;
    }
    ghost var s1 := fdt[..];
    ResizedHole(s, s1, prop, i, key, oldlen, len);
    PutBytes(fdt, U32(fdt[..], 8) + prop + 4, Be32(len));
  }

  ghost predicate ResizeResult(s: seq<byte>, s': seq<byte>, hit: Hit, key: seq<byte>, len: nat, err: int, prop: int)
  {
    match hit
    case Miss => err == -NOTFOUND && s' == s
    case Cut => err == -BADSTRUCTURE && s' == s
    case Hit(i) =>
      && i < |Content(s)| && Content(s)[i].Property? && ItemAt(s, prop, i) && prop >= 0
      && var oldlen := |Content(s)[i].val|;
      && err == (if Room(s, Align4(len) - Align4(oldlen)) then 0 else -NOSPACE)
      && (err == 0 ==> PropHole(s, s', prop, PropRoom(oldlen), key, len))
      && (err != 0 ==> s' == s)
  }

  /** A property lies inside the structure block of an ordered blob, up to its padding. */
  lemma PropertyIn(s: seq<byte>, o: int, i: int)
    requires Legible(s) && Ordered(s) && ItemAt(s, o, i) && 0 <= i < |Content(s)| && Content(s)[i].Property?
    ensures 0 <= o && |s| >= HEADER_SIZE && |Region(s)| == Head(s).sizeStruct && o + PropRoom(|Content(s)[i].val|) <= |Region(s)| < LIMIT
    ensures OnItem(s, o, i) && OnItem(s, o + PropRoom(|Content(s)[i].val|), i + 1)
  {
    hide Legible, Content, OnItem, ItemAt, ItemEnds, Region, TagAt, U32, Strings, Ordered;
    OrderedSize(s);
    ItemOnBoundary(s, o, i);
    PropertyBytes(s, o, i);
    TagTells(s, o, i);
    TagTells(s, o + PropRoom(|Content(s)[i].val|), i + 1);
  }

  lemma OrderedSize(s: seq<byte>)
    requires Ordered(s)
    ensures |s| >= HEADER_SIZE && |Region(s)| == Head(s).sizeStruct < LIMIT
    ensures Head(s).offStruct == U32(s, 8) && U32(s, 8) + |Region(s)| <= |s|
  {
  }

  /** The replaced bytes, read back from the new structure block. */
  lemma EditedPiece(s: seq<byte>, s': seq<byte>, o: nat, oldlen: nat, now: seq<byte>)
    requires Edited(s, s', o, oldlen, now)
    ensures o + |now| <= |Region(s')| && Region(s')[o..o + |now|] == now
  {
    hide Region, Strings, U32;
    OrderedSize(s);
  }

  lemma ResizedHole(s: seq<byte>, s1: seq<byte>, o: nat, i: int, key: seq<byte>, oldlen: nat, len: nat)
    requires Legible(s) && Ordered(s) && ItemAt(s, o, i) && 0 <= i < |Content(s)| && Content(s)[i].Property? && Content(s)[i].key == key
    requires |Content(s)[i].val| == oldlen && len < LIMIT - 16 && o + PropRoom(len) <= |Region(s1)|
    requires Edited(s, s1, o + 12, Align4(oldlen), Region(s1)[o + 12..o + PropRoom(len)])
    ensures |s1| >= HEADER_SIZE && U32(s1, 8) + o + 8 <= |s1|
    ensures PropHole(s, Put(s1, U32(s1, 8) + o + 4, Be32(len)), o, PropRoom(oldlen), key, len)
  {
    hide Legible, Content, ItemAt, Region, TagAt, U32, Strings, Ordered, Edited, Put, StringAt;
    var hole := Region(s1)[o + 12..o + PropRoom(len)];
    PropertyIn(s, o, i);
    PropertyBytes(s, o, i);
    PropertyTag(s, o, i);
    EditedBase(s, s1, o + 12, Align4(oldlen), hole);
    EditedWiden(s, s1, o + 12, Align4(oldlen), hole, 12);
    var now := Region(s)[o..o + 12] + hole;
    EditedPut(s, s1, o, PropRoom(oldlen), now, 4, Be32(len));
    var s2 := Put(s1, U32(s1, 8) + o + 4, Be32(len));
    EditedPiece(s, s2, o, PropRoom(oldlen), Put(now, 4, Be32(len)));
    HeaderOfHole(Region(s), o, hole, len);
  }

  lemma EditedBase(s: seq<byte>, s': seq<byte>, o: nat, oldlen: nat, now: seq<byte>)
    requires Edited(s, s', o, oldlen, now)
    ensures Ordered(s) && Ordered(s') && |s| == |s'| >= HEADER_SIZE && U32(s', 8) == U32(s, 8) == Head(s).offStruct && o + oldlen <= |Region(s)|
    ensures U32(s, 8) + o + |now| <= |s'|
  {
    OrderedSize(s); OrderedSize(s');
    EditedPiece(s, s', o, oldlen, now);
    hide Region, Strings, U32;
  }

  lemma PropertyTag(s: seq<byte>, o: nat, i: int)
    requires Legible(s) && ItemAt(s, o, i) && 0 <= i < |Content(s)| && Content(s)[i].Property?
    ensures o + 4 <= |Region(s)| && U32(Region(s), o) == PROP
  {
    hide Legible, Content, ItemAt, Region, U32, Strings;
    PropertyBytes(s, o, i);
    TagCases(Region(s), o);
  }

  /** The three words of a property after its length is rewritten. */
  lemma HeaderOfHole(b: seq<byte>, o: nat, hole: seq<byte>, len: Word)
    requires o + 12 <= |b|
    ensures var now := Put(b[o..o + 12] + hole, 4, Be32(len));
      |now| == 12 + |hole| && U32(now, 0) == U32(b, o) && U32(now, 4) == len && U32(now, 8) == U32(b, o + 8)
  {
    var m := b[o..o + 12] + hole;
    WordReadBack(len);
    PutWord(m, 4, Be32(len), 0); PutWord(m, 4, Be32(len), 4); PutWord(m, 4, Be32(len), 8);
    assert m[..12] == b[o..o + 12];
    hide U32, Put, Be32;
    assert m[0..4] == b[o..o + 4] && m[8..12] == b[o + 8..o + 12];
    SameWord(m, b, 0, o);
    SameWord(m, b, 8, o + 8);
  }

  /** The string a new property adds to these, if they do not have its name yet. */
  ghost function NewName(strs: seq<byte>, key: seq<byte>): seq<byte>
  {
    if exists q: nat :: StringAt(strs, q) == Some(key) then [] else key + [0]
  }

  /** A name is added only once, and then found. */
  lemma NameAddedOnce(strs: seq<byte>, key: seq<byte>)
    requires CString(key)
    ensures var s := strs + NewName(strs, key); (exists q: nat :: StringAt(s, q) == Some(key)) && NewName(s, key) == []
    ensures (exists q: nat :: StringAt(strs, q) == Some(key)) ==> NewName(strs, key) == []
  {
    hide StringAt;
    if NewName(strs, key) != [] {
      var s := strs + NewName(strs, key);
      assert s[|strs|..|strs| + |key| + 1] == key + [0];
      MatchIsString(s, |strs|, key);
      assert StringAt(s, |strs|) == Some(key);
    } else {
      assert strs + [] == strs;
    }
  }

  /** The room a new property takes, with its name. */
  ghost function NewPropRoom(s: seq<byte>, key: seq<byte>, len: nat): nat
  {
    PropRoom(len) + |NewName(Strings(s), key)|
  }

  ghost predicate AddResult(s: seq<byte>, s1: seq<byte>, s': seq<byte>, t: Tree, node: nat, j: nat, key: seq<byte>, len: nat, err: int, prop: int)
  {
    && err == (if Room(s, NewPropRoom(s, key, len)) then 0 else -NOSPACE)
    && Becomes(s, s1, t) && Ordered(s1)
    && NameIn(s, s1, if Room(s, |NewName(Strings(s), key)|) then NewName(Strings(s), key) else [])
    && (err == 0 ==> prop == TagAt(Region(s), node).next)
    && (err == 0 ==> prop >= 0 && OnItem(s1, prop, j + 1) && PropHole(s1, s', prop, 0, key, len))
    && (err != 0 ==> s' == s1)
  }

  /** _fdt_add_property at a node: the new property comes right after the node's name. */
  method AddProperty(fdt: array<byte>, node: nat, key: seq<byte>, len: nat, ghost j: nat, ghost t: Tree)
    returns (err: int, prop: int, ghost s1: seq<byte>)
    requires Denotes(fdt[..], t) && Ordered(fdt[..]) && OnItem(fdt[..], node, j) && node < LIMIT - 4 && len < LIMIT - 16 && CString(key)
    requires TagAt(Region(fdt[..]), node).tag == BEGIN_NODE
    modifies fdt
    ensures AddResult(old(fdt[..]), s1, fdt[..], t, node, j, key, len, err, prop)
  {
    hide Denotes, Legible, Content, OnItem, ItemAt, ItemEnds, Region, TagAt, U32, Put, Strings, Edited, PropChunk, Ordered, Room, StringAt,
         Becomes, Grown, Readable, PropHole, NewPropRoom, NewName, NameIn;
    ghost var s := fdt[..];
    DenotesText(s, t);
    LegibleParts(s);
    TagTells(s, node, j);
    NothingNamed(s);
    prop := CheckNodeOffset(fdt, node);
    assert fdt[..] == s;
    var at := FindAddString(fdt, key);
    s1 := fdt[..];
    BecomesRefl(s, t);
    if at < 0 {
      NoRoomForName(s, key, len);
      return at, prop, s1;
    }
    NameAdded(s, s1, key, len, t, prop, j + 1);
    OnItemInside(s1, t, prop, j + 1);
    err := SpliceStruct(fdt, prop, 0, PropRoom(len));
    if err != 0 {
      return;
    }
    ghost var s2 := fdt[..];
    AddedHole(s1, s2, prop, key, len, at);
    PutBytes(fdt, U32(fdt[..], 8) + prop, Be32(PROP));
    PutBytes(fdt, U32(fdt[..], 8) + prop + 8, Be32(at));
    PutBytes(fdt, U32(fdt[..], 8) + prop + 4, Be32(len));
  }

  lemma NoRoomForName(s: seq<byte>, key: seq<byte>, len: nat)
    requires !Room(s, |key| + 1) && !(exists q: nat :: StringAt(Strings(s), q) == Some(key))
    ensures !Room(s, NewPropRoom(s, key, len)) && !Room(s, |NewName(Strings(s), key)|)
  {
    hide U32, Strings, StringAt;
  }

  lemma NameAdded(s: seq<byte>, s1: seq<byte>, key: seq<byte>, len: nat, t: Tree, prop: int, k: int)
    requires Denotes(s, t) && Ordered(s) && OnItem(s, prop, k)
    requires s1 == s || Grown(s, s1, key)
    requires exists q: nat :: StringAt(Strings(s1), q) == Some(key)
    requires (exists q: nat :: StringAt(Strings(s), q) == Some(key)) ==> s1 == s
    ensures Becomes(s, s1, t) && Denotes(s1, t) && Ordered(s1) && OnItem(s1, prop, k)
    ensures Room(s, NewPropRoom(s, key, len)) <==> Room(s1, PropRoom(len))
    ensures Room(s, |NewName(Strings(s), key)|) && NameIn(s, s1, NewName(Strings(s), key))
  {
    hide Denotes, OnItem, U32, Strings, StringAt, Region, Reserved, Sound, ItemAt;
    BecomesRefl(s, t);
    assert (key + [0])[..|key|] == key;
    if s1 != s {
      GrownKeeps(s, s1, key, t);
      GrownItems(s, s1, key, prop, k);
    }
  }

  lemma OnItemInside(s: seq<byte>, t: Tree, o: int, j: int)
    requires Denotes(s, t) && Ordered(s) && OnItem(s, o, j)
    ensures 0 <= o && |s| >= HEADER_SIZE && o <= Head(s).sizeStruct
  {
    hide Denotes, Legible, Content, OnItem, Region, U32, TagAt;
    DenotesText(s, t);
    OrderedSize(s);
    TagTells(s, o, j);
  }

  /** The three words of a new property, written at o of the structure block, complete its hole. */
  ghost predicate HoleWrites(s: seq<byte>, s2: seq<byte>, o: nat, key: seq<byte>, len: Word, at: Word)
    requires |s2| >= HEADER_SIZE && U32(s2, 8) + o + 12 <= |s2|
  {
    var p := U32(s2, 8) + o;
    var s3 := Put(s2, p, Be32(PROP));
    var s4 := Put(s3, p + 8, Be32(at));
    U32(s3, 8) == U32(s4, 8) == U32(s2, 8) && PropHole(s, Put(s4, p + 4, Be32(len)), o, 0, key, len)
  }

  /** The three words of a new property, written one by one. */
  lemma AddedHole(s: seq<byte>, s2: seq<byte>, o: nat, key: seq<byte>, len: nat, at: Word)
    requires len < LIMIT - 16 && o + PropRoom(len) <= |Region(s2)| && StringAt(Strings(s), at) == Some(key)
    requires Edited(s, s2, o, 0, Region(s2)[o..o + PropRoom(len)])
    ensures |s2| >= HEADER_SIZE && U32(s2, 8) + o + PropRoom(len) <= |s2|
    ensures HoleWrites(s, s2, o, key, len, at)
  {
    hide Region, U32, Strings, Ordered, Edited, Put, StringAt;
    var hole := Region(s2)[o..o + PropRoom(len)];
    EditedBase(s, s2, o, 0, hole);
    var p := U32(s2, 8) + o;
    var s3 := Put(s2, p, Be32(PROP));
    EditedPut(s, s2, o, 0, hole, 0, Be32(PROP));
    var h3 := Put(hole, 0, Be32(PROP));
    EditedBase(s, s3, o, 0, h3);
    var s4 := Put(s3, p + 8, Be32(at));
    EditedPut(s, s3, o, 0, h3, 8, Be32(at));
    var h4 := Put(h3, 8, Be32(at));
    EditedBase(s, s4, o, 0, h4);
    EditedPut(s, s4, o, 0, h4, 4, Be32(len));
    EditedPiece(s, Put(s4, p + 4, Be32(len)), o, 0, Put(h4, 4, Be32(len)));
    ThreeWords(hole, PROP, at, len);
  }

  lemma ThreeWords(c: seq<byte>, a: Word, b: Word, d: Word)
    requires |c| >= 12
    ensures var c' := Put(Put(Put(c, 0, Be32(a)), 8, Be32(b)), 4, Be32(d)); U32(c', 0) == a && U32(c', 8) == b && U32(c', 4) == d
  {
    hide U32, Put, Be32;
    var c1 := Put(c, 0, Be32(a));
    var c2 := Put(c1, 8, Be32(b));
    WordReadBack(a); WordReadBack(b); WordReadBack(d);
    PutWord(c, 0, Be32(a), 0);
    PutWord(c1, 8, Be32(b), 0); PutWord(c1, 8, Be32(b), 8);
    PutWord(c2, 4, Be32(d), 0); PutWord(c2, 4, Be32(d), 8); PutWord(c2, 4, Be32(d), 4);
  }

  /** Writing the value completes the property. */
  lemma HoleFilled(s: seq<byte>, s': seq<byte>, o: nat, oldlen: nat, key: seq<byte>, val: seq<byte>) returns (now: seq<byte>)
    requires PropHole(s, s', o, oldlen, key, |val|)
    ensures |s'| >= HEADER_SIZE && U32(s', 8) + o + 12 + |val| <= |s'|
    ensures Edited(s, Put(s', U32(s', 8) + o + 12, val), o, oldlen, now)
    ensures |now| == PropRoom(|val|) && HasItems(now, Strings(s)) && Items(now, Strings(s)) == [Property(key, val)]
  {
    hide Region, U32, Strings, Ordered, Edited, Put, StringAt, HasItems, Items;
    var hole := Region(s')[o..o + PropRoom(|val|)];
    EditedBase(s, s', o, oldlen, hole);
    EditedPut(s, s', o, oldlen, hole, 12, val);
    now := Put(hole, 12, val);
    PutWord(hole, 12, val, 0); PutWord(hole, 12, val, 4); PutWord(hole, 12, val, 8);
    PutReads(hole, 12, val, 12, 12);
    PropChunkItems(now, Strings(s), key, |val|);
  }

  /** Tree and node before an edit, and the property the search found. */
  lemma SetExisting(s: seq<byte>, s': seq<byte>, t: Tree, p: Path, key: seq<byte>, val: seq<byte>, o: nat, now: seq<byte>)
    requires Denotes(s, t) && Ordered(s) && HasNode(t, p) && FirstKey(NodeOf(t, p).props, key) < |NodeOf(t, p).props|
    requires var u := NodeOf(t, p); var k := FirstKey(u.props, key);
      && IndexOf(t, p) + 1 + k < |Content(s)| && Content(s)[IndexOf(t, p) + 1 + k] == Property(key, u.props[k].val)
      && ItemAt(s, o, IndexOf(t, p) + 1 + k) && Edited(s, s', o, PropRoom(|u.props[k].val|), now)
    requires HasItems(now, Strings(s)) && Items(now, Strings(s)) == [Property(key, val)]
    ensures Becomes(s, s', Replaced(t, p, WithProp(NodeOf(t, p), key, val)))
  {
    hide Denotes, Legible, Content, OnItem, ItemAt, Edited, HasItems, Items, Strings, Flatten, Ordered, FirstKey, Region, Becomes, IndexOf;
    var u := NodeOf(t, p);
    var k := FirstKey(u.props, key);
    DenotesText(s, t);
    PropertyIn(s, o, IndexOf(t, p) + 1 + k);
    FlattenProps(u, k, k + 1, [Field(key, val)]);
    assert u.props[..k] + [Field(key, val)] + u.props[k + 1..] == u.props[k := Field(key, val)];
    assert PropItems([Field(key, val)]) == [Property(key, val)];
    NodeEdited(s, s', t, p, WithProp(u, key, val), 1 + k, 2 + k, o, o + PropRoom(|u.props[k].val|), now);
  }

  lemma SetNew(s: seq<byte>, s': seq<byte>, t: Tree, p: Path, key: seq<byte>, val: seq<byte>, o: nat, now: seq<byte>)
    requires Denotes(s, t) && HasNode(t, p) && FirstKey(NodeOf(t, p).props, key) == |NodeOf(t, p).props|
    requires OnItem(s, o, IndexOf(t, p) + 1) && Edited(s, s', o, 0, now)
    requires HasItems(now, Strings(s)) && Items(now, Strings(s)) == [Property(key, val)]
    ensures Becomes(s, s', Replaced(t, p, WithProp(NodeOf(t, p), key, val)))
  {
    hide Denotes, Legible, Content, OnItem, ItemAt, Edited, HasItems, Items, Strings, Flatten, Ordered, FirstKey, Region, Becomes, IndexOf;
    var u := NodeOf(t, p);
    FlattenProps(u, 0, 0, [Field(key, val)]);
    assert u.props[..0] + [Field(key, val)] + u.props[0..] == [Field(key, val)] + u.props;
    assert PropItems([Field(key, val)]) == [Property(key, val)];
    NodeEdited(s, s', t, p, WithProp(u, key, val), 1, 1, o, o, now);
  }

  /** The bytes of the property fdt_setprop replaces. */
  function OldPropRoom(u: Tree, key: seq<byte>): nat
  {
    var k := FirstKey(u.props, key);
    if k < |u.props| then PropRoom(|u.props[k].val|) else 0
  }

  /** The string fdt_setprop adds. */
  ghost function SetPropName(strs: seq<byte>, u: Tree, key: seq<byte>): seq<byte>
  {
    if FirstKey(u.props, key) < |u.props| then [] else NewName(strs, key)
  }

  /** An edit that can fail for lack of room only: newlen bytes in place of oldlen ones at or after from, and a string more. After
      a failure at most the string is there. */
  ghost predicate EditResult(s: seq<byte>, s': seq<byte>, t: Tree, t': Tree, from: int, oldlen: nat, newlen: nat, more: seq<byte>, err: int)
  {
    && |s| >= HEADER_SIZE
    && err == (if RwError(Head(s)) != 0 then RwError(Head(s)) else if Room(s, newlen - oldlen + |more|) then 0 else -NOSPACE)
    && Becomes(s, s', if err == 0 then t' else t)
    && if err == 0 then Relaid(s, s', from, oldlen, newlen, more)
       else if RwError(Head(s)) == 0 then Relaid(s, s', 0, 0, 0, if Room(s, |more|) then more else [])
       else s' == s
  }

  /** The header check moves nothing. */
  lemma Reheaded(s: seq<byte>, s0: seq<byte>, t: Tree, p: Path, node: int)
    requires Denotes(s, t) && NodeAt(s, t, p, node) && SameText(s, s0) && Becomes(s, s0, t)
    ensures Denotes(s0, t) && Legible(s0) && Content(s0) == Flatten(t) && NodeAt(s0, t, p, node)
    ensures var i, u := IndexOf(t, p), NodeOf(t, p);
      && i + Size(u) <= |Content(s0)| && Here(Content(s0), i, Flatten(u)) && Content(s0)[i] == Open(u.name)
      && 0 <= node < LIMIT - 4 && OnItem(s0, node, i)
      && TagAt(Region(s0), node) == Tag(BEGIN_NODE, node + 4 + Align4(|u.name| + 1))
      && OnItem(s0, node + 4 + Align4(|u.name| + 1), i + 1)
    ensures forall n: int :: Room(s, n) <==> Room(s0, n)
  {
    hide Denotes, Legible, Content, Region, TagAt, U32, Strings, Flatten, Here, IndexOf, Reserved, Sound, First, Steps, HasItems, Items;
    NodeText(s0, t, p, node);
  }

  lemma RoomForLess(s: seq<byte>, m: int, n: int)
    requires m <= n
    ensures Room(s, n) ==> Room(s, m)
  {
  }

  lemma SameStrings(s: seq<byte>, s0: seq<byte>)
    requires SameText(s, s0)
    ensures Strings(s) == Strings(s0)
  {
    hide U32, Strings, Head, Region;
  }

  lemma NodeItem(s: seq<byte>, t: Tree, p: Path, node: int)
    requires NodeAt(s, t, p, node)
    ensures HasNode(t, p) && ItemAt(s, node, IndexOf(t, p))
  {
  }

  /** fdt_setprop */
  method SetProp(fdt: array<byte>, node: nat, key: seq<byte>, val: seq<byte>, ghost t: Tree, ghost p: Path) returns (err: int)
    requires Denotes(fdt[..], t) && NodeAt(fdt[..], t, p, node) && CString(key) && |val| < LIMIT - 16
    modifies fdt
    ensures var s := old(fdt[..]); var u := NodeOf(t, p);
      EditResult(s, fdt[..], t, Replaced(t, p, WithProp(u, key, val)), node + 4, OldPropRoom(u, key), PropRoom(|val|),
                 SetPropName(Strings(s), u, key), err)
  {
    hide Denotes, Legible, Content, OnItem, ItemAt, Region, TagAt, U32, Put, Strings, Edited, Ordered, Room, StringAt, SameText,
         Becomes, Grown, PropHole, FirstKey, FindKey, IndexOf, Flatten, Here, RwError, HasItems, Items, RelaidAt, NameIn, NewName;
    ghost var s := fdt[..];
    ghost var u := NodeOf(t, p);
    err := RwCheckHeader(fdt, t);
    ghost var s0 := fdt[..];
    if err != 0 {
      BecomesRefl(s, t);
      return;
    }
    Reheaded(s, s0, t, p, node);
    SameStrings(s, s0);
    ghost var i := IndexOf(t, p);
    FindInNode(Content(s0), i, u, key);
    ghost var k := FirstKey(u.props, key);
    if k < |u.props| { NodeProp(Content(s0), i, u, k); }
    BecomesRefl(s0, t);
    NothingNamed(s0);
    var prop;
    err, prop := ResizeProperty(fdt, node, key, |val|, i);
    ghost var s1 := s0;
    if err == -NOTFOUND {
      assert fdt[..] == s0;
      err, prop, s1 := AddProperty(fdt, node, key, |val|, i, t);
    }
    BecomesTrans(s, s0, s1, t, t);
    if err != 0 {
      RelaidByName(s, s0, s1, if Room(s, |SetPropName(Strings(s), u, key)|) then SetPropName(Strings(s), u, key) else []);
      return;
    }
    ghost var s2 := fdt[..];
    RoomForLess(s0, |NewName(Strings(s0), key)|, NewPropRoom(s0, key, |val|));
    ghost var now := HoleFilled(s1, s2, prop, OldPropRoom(u, key), key, val);
    PutBytes(fdt, U32(fdt[..], 8) + prop + 12, val);
    if k < |u.props| {
      NodeItem(s0, t, p, node);
      PropBehind(s0, node, i, prop, i + 1 + k);
      SetExisting(s1, fdt[..], t, p, key, val, prop, now);
    } else {
      SetNew(s1, fdt[..], t, p, key, val, prop, now);
    }
    RelaidByEdit(s, s0, s1, fdt[..], prop, OldPropRoom(u, key), now, SetPropName(Strings(s), u, key));
    BecomesTrans(s, s1, fdt[..], t, Replaced(t, p, WithProp(u, key, val)));
  }

  // ----- deleting a property

  lemma RoomToShrink(s: seq<byte>, n: int)
    requires Ordered(s) && n <= 0
    ensures Room(s, n)
  {
  }

  lemma PropDeleted(s: seq<byte>, s': seq<byte>, t: Tree, p: Path, key: seq<byte>, o: nat)
    requires Denotes(s, t) && Ordered(s) && HasNode(t, p) && FirstKey(NodeOf(t, p).props, key) < |NodeOf(t, p).props|
    requires var u := NodeOf(t, p); var k := FirstKey(u.props, key);
      && IndexOf(t, p) + 1 + k < |Content(s)| && Content(s)[IndexOf(t, p) + 1 + k] == Property(key, u.props[k].val)
      && ItemAt(s, o, IndexOf(t, p) + 1 + k) && Edited(s, s', o, PropRoom(|u.props[k].val|), [])
    ensures Becomes(s, s', Replaced(t, p, WithoutProp(NodeOf(t, p), key)))
  {
    hide Denotes, Legible, Content, OnItem, ItemAt, Edited, HasItems, Items, Strings, Flatten, Ordered, FirstKey, Region, Becomes, IndexOf;
    var u := NodeOf(t, p);
    var k := FirstKey(u.props, key);
    DenotesText(s, t);
    PropertyIn(s, o, IndexOf(t, p) + 1 + k);
    FlattenProps(u, k, k + 1, []);
    assert u.props[..k] + [] + u.props[k + 1..] == u.props[..k] + u.props[k + 1..];
    assert PropItems([]) == [];
    NothingHasNoItems(Strings(s));
    NodeEdited(s, s', t, p, WithoutProp(u, key), 1 + k, 2 + k, o, o + PropRoom(|u.props[k].val|), []);
  }

  lemma NothingHasNoItems(strs: seq<byte>)
    ensures HasItems([], strs) && Items([], strs) == []
  {
  }

  /** An edit of something that may be missing; it needs no room. */
  ghost predicate DeleteResult(s: seq<byte>, s': seq<byte>, t: Tree, found: bool, t': Tree, from: int, oldlen: nat, err: int)
  {
    && |s| >= HEADER_SIZE
    && err == (if RwError(Head(s)) != 0 then RwError(Head(s)) else if found then 0 else -NOTFOUND)
    && Becomes(s, s', if err == 0 then t' else t)
    && if err == 0 then Relaid(s, s', from, oldlen, 0, []) else if RwError(Head(s)) == 0 then Relaid(s, s', 0, 0, 0, []) else s' == s
  }

  /** fdt_delprop */
  method DelProp(fdt: array<byte>, node: nat, key: seq<byte>, ghost t: Tree, ghost p: Path) returns (err: int)
    requires Denotes(fdt[..], t) && NodeAt(fdt[..], t, p, node)
    modifies fdt
    ensures var s := old(fdt[..]); var u := NodeOf(t, p); var found := FirstKey(u.props, key) < |u.props|;
      DeleteResult(s, fdt[..], t, found, if found then Replaced(t, p, WithoutProp(u, key)) else t, node + 4, OldPropRoom(u, key), err)
  {
    hide Denotes, Legible, Content, OnItem, ItemAt, Region, TagAt, U32, Put, Strings, Edited, Ordered, Room, StringAt, SameText,
         Becomes, FirstKey, FindKey, IndexOf, Flatten, Here, RwError, HasItems, Items, RelaidAt, NameIn;
    ghost var s := fdt[..];
    ghost var u := NodeOf(t, p);
    err := RwCheckHeader(fdt, t);
    ghost var s0 := fdt[..];
    if err != 0 {
      BecomesRefl(s, t);
      return;
    }
    Reheaded(s, s0, t, p, node);
    ghost var i := IndexOf(t, p);
    FindInNode(Content(s0), i, u, key);
    ghost var k := FirstKey(u.props, key);
    if k < |u.props| { NodeProp(Content(s0), i, u, k); }
    var prop, len := GetProperty(fdt, node, key, i);
    assert fdt[..] == s0;
    NothingNamed(s0);
    if prop < 0 {
      RelaidByName(s, s0, s0, []);
      return len;
    }
    NodeItem(s0, t, p, node);
    PropBehind(s0, node, i, prop, i + 1 + k);
    PropertyIn(s0, prop, i + 1 + k);
    RoomToShrink(s0, 0 - PropRoom(len));
    err := SpliceStruct(fdt, prop, PropRoom(len), 0);
    ghost var s1 := fdt[..];
    assert Region(s1)[prop..prop] == [];
    PropDeleted(s0, s1, t, p, key, prop);
    RelaidByEdit(s, s0, s0, s1, prop, PropRoom(len), [], []);
    BecomesTrans(s, s0, s1, t, Replaced(t, p, WithoutProp(u, key)));
  }

  // ----- renaming a node

  /** The hole of a new name, once the name is written. */
  lemma NameWritten(s: seq<byte>, s1: seq<byte>, o: nat, oldlen: nat, name: seq<byte>) returns (now: seq<byte>)
    requires o >= 4 && o + Align4(|name| + 1) <= |Region(s1)| && CString(name)
    requires Edited(s, s1, o, oldlen, Region(s1)[o..o + Align4(|name| + 1)])
    requires o <= |Region(s)| && U32(Region(s), o - 4) == BEGIN_NODE
    ensures |s1| >= HEADER_SIZE && U32(s1, 8) + o + |name| + 1 <= |s1|
    ensures Edited(s, Put(s1, U32(s1, 8) + o, name + [0]), o - 4, 4 + oldlen, now)
    ensures OpenChunk(now, name) && |now| == 4 + Align4(|name| + 1)
    ensures Edited(s, Put(s1, U32(s1, 8) + o, name + [0]), o, oldlen, now[4..])
  {
    hide Region, U32, Strings, Ordered, Edited, Put;
    var hole := Region(s1)[o..o + Align4(|name| + 1)];
    EditedBase(s, s1, o, oldlen, hole);
    EditedPut(s, s1, o, oldlen, hole, 0, name + [0]);
    var h1 := Put(hole, 0, name + [0]);
    var s2 := Put(s1, U32(s1, 8) + o, name + [0]);
    EditedWiden(s, s2, o, oldlen, h1, 4);
    now := Region(s)[o - 4..o] + h1;
    assert now[4..] == h1;
    PutReads(hole, 0, name + [0], 0, 0);
    assert h1[0..|name| + 1] == name + [0];
    assert now[4..4 + |name|] == h1[0..|name| + 1][..|name|];
    assert now[4 + |name|] == h1[0..|name| + 1][|name|];
    assert now[0..4] == Region(s)[o - 4..o];
    SameWord(now, Region(s), 0, o - 4);
  }

  lemma NodeTag(s: seq<byte>, o: nat, j: nat)
    requires Legible(s) && ItemAt(s, o, j) && j < |Content(s)| && Content(s)[j].Open?
    ensures o + 4 <= |Region(s)| && U32(Region(s), o) == BEGIN_NODE
  {
    hide Legible, Content, ItemAt, Region, U32, Strings;
    OpenBytes(s, o, j);
    TagCases(Region(s), o);
  }

  /** fdt_set_name */
  method SetName(fdt: array<byte>, node: nat, name: seq<byte>, ghost t: Tree, ghost p: Path) returns (err: int)
    requires Denotes(fdt[..], t) && NodeAt(fdt[..], t, p, node) && CString(name) && |name| < LIMIT - 16
    modifies fdt
    ensures var s := old(fdt[..]); var u := NodeOf(t, p);
      EditResult(s, fdt[..], t, Replaced(t, p, u.(name := name)), node + 4, Align4(|u.name| + 1), Align4(|name| + 1), [], err)
  {
    hide Denotes, Legible, Content, OnItem, ItemAt, Region, TagAt, U32, Put, Strings, Edited, Ordered, Room, SameText,
         Becomes, IndexOf, Flatten, Here, RwError, HasItems, Items, OpenChunk, CheckHeader, Readable, RelaidAt, NameIn;
    ghost var s := fdt[..];
    ghost var u := NodeOf(t, p);
    err := RwCheckHeader(fdt, t);
    ghost var s0 := fdt[..];
    if err != 0 {
      BecomesRefl(s, t);
      return;
    }
    Reheaded(s, s0, t, p, node);
    DenotesText(s0, t);
    ghost var i := IndexOf(t, p);
    var at, oldlen := GetName(fdt, node, i);
    assert fdt[..] == s0;
    if at < 0 {
      return oldlen;
    }
    NodeTag(s0, node, i);
    OnItemInside(s0, t, node + 4 + Align4(|u.name| + 1), i + 1);
    err := SpliceStruct(fdt, at, Align4(oldlen + 1), Align4(|name| + 1));
    NothingNamed(s0);
    if err != 0 {
      RelaidByName(s, s0, s0, []);
      return;
    }
    ghost var s1 := fdt[..];
    ghost var now := NameWritten(s0, s1, at, Align4(oldlen + 1), name);
    PutBytes(fdt, U32(fdt[..], 8) + at, name + [0]);
    OpenChunkItems(now, Strings(s0), name);
    FlattenName(u, name);
    NodeEdited(s0, fdt[..], t, p, u.(name := name), 0, 1, node, node + 4 + Align4(|u.name| + 1), now);
    RelaidByEdit(s, s0, s0, fdt[..], at, Align4(oldlen + 1), now[4..], []);
    BecomesTrans(s, s0, fdt[..], t, Replaced(t, p, u.(name := name)));
  }

  // ----- adding a node

  /** The room a node without content takes. */
  function NodeRoom(name: seq<byte>): nat
  {
    8 + Align4(|name| + 1)
  }

  /** Whether the scan for the place of a new node goes on after this tag. */
  predicate SkipsTag(tag: Word)
  {
    tag == PROP || tag == NOP
  }

  /** The loop of fdt_add_subnode: the first boundary at or after start whose tag is not a property or NOP. */
  method AfterProperties(fdt: array<byte>, start: nat, ghost j: nat, ghost k: nat) returns (offset: nat)
    requires Legible(fdt[..]) && OnItem(fdt[..], start, j) && j <= k < |Content(fdt[..])|
    requires (forall i :: j <= i < k ==> Content(fdt[..])[i].Property?) && !Content(fdt[..])[k].Property?
    ensures OnItem(fdt[..], offset, k)
  {
    hide Legible, Content, OnItem, ItemAt, ItemEnds, Region, TagAt, Readable;
    ghost var s := fdt[..];
    LegibleParts(s);
    ghost var i := j;
    TagTells(s, start, j);
    offset := start;
    var tag, next := NextTag(fdt, offset);
    while SkipsTag(tag)
      invariant j <= i <= k && 0 <= offset && OnItem(s, offset, i) && Tag(tag, next) == TagAt(Region(s), offset)
      decreases |Region(s)| - offset
    {
      TagTells(s, offset, i);
      if tag == PROP { i := i + 1; }
      offset := next;
      TagTells(s, offset, i);
      tag, next := NextTag(fdt, offset);
    }
    TagTells(s, offset, i);
  }

  /** fdt_add_subnode_namelen: the new node becomes the first child, and its offset is the result. */
  method AddSubnode(fdt: array<byte>, parent: nat, name: seq<byte>, ghost t: Tree, ghost p: Path) returns (offset: int)
    requires Denotes(fdt[..], t) && NodeAt(fdt[..], t, p, parent) && CString(name) && |name| < LIMIT - 16
    modifies fdt
    ensures AddNodeResult(old(fdt[..]), fdt[..], t, p, parent, name, offset)
  {
    hide Denotes, Legible, Content, OnItem, ItemAt, Region, TagAt, U32, Put, Strings, Edited, Ordered, Room, SameText,
         Becomes, IndexOf, Flatten, Here, RwError, CheckHeader, Readable, FirstKid, Visits, FirstChild, PropItems, RelaidAt, NameIn;
    ghost var s := fdt[..];
    ghost var u := NodeOf(t, p);
    var err := RwCheckHeader(fdt, t);
    ghost var s0 := fdt[..];
    if err != 0 {
      BecomesRefl(s, t);
      return err;
    }
    Reheaded(s, s0, t, p, parent);
    DenotesText(s0, t);
    ghost var i := IndexOf(t, p);
    offset := SubnodeOffset(fdt, parent, name, i);
    assert fdt[..] == s0;
    ChildOfNode(Content(s0), i, u, name);
    NothingNamed(s0);
    RelaidByName(s, s0, s0, []);
    if offset >= 0 {
      return -EXISTS;
    } else if offset != -NOTFOUND {
      return offset;
    }
    LegibleParts(s0);
    var tag, next := NextTag(fdt, parent);
    PropsThenOther(Content(s0), i, u);
    offset := AfterProperties(fdt, next, i + 1, i + 1 + |u.props|);
    assert fdt[..] == s0;
    OnItemInside(s0, t, offset, i + 1 + |u.props|);
    err := SpliceStruct(fdt, offset, 0, NodeRoom(name));
    if err != 0 {
      return err;
    }
    ghost var s1 := fdt[..];
    NodeWritten(s0, s1, offset, name);
    var at := U32(fdt[..], 8) + offset;
    ghost var s2 := NodePuts(s1, at, name);
    PutBytes(fdt, at, Be32(BEGIN_NODE));
    PutBytes(fdt, at + 4, Zeros(Align4(|name| + 1)));
    PutBytes(fdt, at + 4, name);
    PutBytes(fdt, at + NodeRoom(name) - 4, Be32(END_NODE));
    assert fdt[..] == s2;
    KidAdded(s0, s2, t, p, name, offset);
    NodeItem(s0, t, p, parent);
    KidItem(s0, s2, name, parent, i, offset, i + 1 + |u.props|);
    RelaidByEdit(s, s0, s0, s2, offset, 0, Region(s2)[offset..offset + NodeRoom(name)], []);
    BecomesTrans(s, s0, s2, t, Replaced(t, p, WithKid(u, name)));
  }

  function Zeros(n: nat): (z: seq<byte>)
    ensures |z| == n && forall i :: 0 <= i < n ==> z[i] == 0
  {
    seq(n, i => 0)
  }

  /** A child of that name, up to its unit address, must not exist; the offset returned is the new node's. */
  ghost predicate AddNodeResult(s: seq<byte>, s': seq<byte>, t: Tree, p: Path, parent: nat, name: seq<byte>, r: int)
  {
    && HasNode(t, p) && |s| >= HEADER_SIZE
    && var u := NodeOf(t, p); var t' := Replaced(t, p, WithKid(u, name));
    && (if RwError(Head(s)) != 0 then r == RwError(Head(s))
        else if FirstKid(u.kids, name) < |u.kids| then r == -EXISTS
        else if !Room(s, NodeRoom(name)) then r == -NOSPACE
        else r >= 0 && HasNode(t', p + [0]) && NodeAt(s', t', p + [0], r))
    && Becomes(s, s', if r >= 0 then t' else t)
    && if r >= 0 then Relaid(s, s', parent + 4, 0, NodeRoom(name), []) else if RwError(Head(s)) == 0 then Relaid(s, s', 0, 0, 0, []) else s' == s
  }

  /** The new node stands behind the tag of its parent. */
  lemma KidItem(s: seq<byte>, s': seq<byte>, name: seq<byte>, parent: nat, i: nat, o: nat, j: int)
    requires Legible(s) && ItemAt(s, parent, i) && OnItem(s, o, j) && i < j && KidHole(s, s', o, name)
    ensures o >= parent + 4 && o + NodeRoom(name) <= |Region(s')|
    ensures Edited(s, s', o, 0, Region(s')[o..o + NodeRoom(name)]) && |Region(s')[o..o + NodeRoom(name)]| == NodeRoom(name)
  {
    hide Region, Strings, AllItems, Items, First, Edited;
    AtSplits(Region(s), Strings(s), parent, i);
    AtSplits(Region(s), Strings(s), o, j);
    if o < parent { ItemsBetween(Region(s), Strings(s), o, j, parent, i); }
  }

  lemma PropsThenOther(n: seq<Item>, j: nat, t: Tree)
    requires Here(n, j, Flatten(t))
    ensures var k := j + 1 + |t.props|; k < |n| && (forall i :: j + 1 <= i < k ==> n[i].Property?) && !n[k].Property?
  {
    hide Here, Flatten, PropItems;
    HereNode(n, j, t);
    PropsHere(n, j + 1, t.props);
    AfterProps(n, j, t);
  }

  /** The bytes of an empty node. */
  ghost predicate NodeChunk(c: seq<byte>, name: seq<byte>)
  {
    |c| == NodeRoom(name) && OpenChunk(c[..4 + Align4(|name| + 1)], name) && U32(c, 4 + Align4(|name| + 1)) == END_NODE
  }

  lemma NodeChunkItems(c: seq<byte>, strs: seq<byte>, name: seq<byte>)
    requires NodeChunk(c, name)
    ensures HasItems(c, strs) && Items(c, strs) == [Open(name), Close]
  {
    hide U32, OpenChunk, HasItems, Items;
    var n := 4 + Align4(|name| + 1);
    var a, b := c[..n], c[n..];
    OpenChunkItems(a, strs, name);
    assert c[n..n + 4] == b[0..4];
    SameWord(b, c, 0, n);
    CloseChunkItems(b, strs);
    ItemsConcat(a, b, strs);
    assert c == a + b;
  }

  /** The writes of fdt_add_subnode put an empty node into the hole. */
  lemma NodeWritten(s: seq<byte>, s1: seq<byte>, o: nat, name: seq<byte>)
    requires CString(name) && o + NodeRoom(name) <= |Region(s1)| && Edited(s, s1, o, 0, Region(s1)[o..o + NodeRoom(name)])
    ensures |s1| >= HEADER_SIZE && U32(s1, 8) + o + NodeRoom(name) <= |s1|
    ensures KidHole(s, NodePuts(s1, U32(s1, 8) + o, name), o, name)
  {
    hide Region, U32, Strings, Ordered, Edited, Put, OpenChunk;
    var n := Align4(|name| + 1);
    var h0 := Region(s1)[o..o + NodeRoom(name)];
    EditedBase(s, s1, o, 0, h0);
    var at := U32(s1, 8) + o;
    var t1 := Put(s1, at, Be32(BEGIN_NODE));
    var h1 := Put(h0, 0, Be32(BEGIN_NODE));
    EditedPut(s, s1, o, 0, h0, 0, Be32(BEGIN_NODE));
    var t2 := Put(t1, at + 4, Zeros(n));
    var h2 := Put(h1, 4, Zeros(n));
    EditedPut(s, t1, o, 0, h1, 4, Zeros(n));
    var t3 := Put(t2, at + 4, name);
    var h3 := Put(h2, 4, name);
    EditedPut(s, t2, o, 0, h2, 4, name);
    EditedPut(s, t3, o, 0, h3, NodeRoom(name) - 4, Be32(END_NODE));
    EditedPiece(s, NodePuts(s1, at, name), o, 0, NodePuts(h0, 0, name));
    NodeChunkWritten(h0, name);
  }

  /** The four writes of a new node at address at. */
  function NodePuts(s: seq<byte>, at: nat, name: seq<byte>): (t: seq<byte>)
    requires at + NodeRoom(name) <= |s|
    ensures |t| == |s|
  {
    var s1 := Put(s, at, Be32(BEGIN_NODE));
    var s2 := Put(s1, at + 4, Zeros(Align4(|name| + 1)));
    var s3 := Put(s2, at + 4, name);
    Put(s3, at + NodeRoom(name) - 4, Be32(END_NODE))
  }

  /** An empty node was put in at o. */
  ghost predicate KidHole(s: seq<byte>, s': seq<byte>, o: nat, name: seq<byte>)
  {
    && o + NodeRoom(name) <= |Region(s')| && Edited(s, s', o, 0, Region(s')[o..o + NodeRoom(name)])
    && NodeChunk(Region(s')[o..o + NodeRoom(name)], name)
  }

  lemma NodeChunkWritten(h0: seq<byte>, name: seq<byte>)
    requires |h0| == NodeRoom(name) && CString(name)
    ensures NodeChunk(NodePuts(h0, 0, name), name)
  {
    hide U32, Be32, Put;
    var n := Align4(|name| + 1);
    WordReadBack(BEGIN_NODE); WordReadBack(END_NODE);
    var b, e := Be32(BEGIN_NODE), Be32(END_NODE);
    var h1 := Put(h0, 0, b);
    var h2 := Put(h1, 4, Zeros(n));
    var h3 := Put(h2, 4, name);
    var c := Put(h3, 4 + n, e);
    PutWord(h0, 0, b, 0); PutWord(h1, 4, Zeros(n), 0); PutWord(h2, 4, name, 0); PutWord(h3, 4 + n, e, 0);
    PutWord(h3, 4 + n, e, 4 + n);
    PutReads(h3, 4 + n, e, 0, 4 + n);
    PutReads(h3, 4 + n, e, 4, 4 + |name|);
    PutReads(h3, 4 + n, e, 4 + |name|, 4 + |name| + 1);
    PutReads(h2, 4, name, 4, 4);
    PutReads(h2, 4, name, 4 + |name|, 4 + |name| + 1);
    PutReads(h1, 4, Zeros(n), 4, 4);
    assert c[4 + |name|..4 + |name| + 1] == h3[4 + |name|..4 + |name| + 1] == h2[4 + |name|..4 + |name| + 1];
    assert h2[4 + |name|] == h2[4..4 + n][|name|];
    assert c[4 + |name|] == c[4 + |name|..4 + |name| + 1][0];
    assert c[4..4 + |name|] == h3[4..4 + |name|];
    hide NodeChunk, Zeros;
    NodeChunkParts(c, name);
  }

  lemma NodeChunkParts(c: seq<byte>, name: seq<byte>)
    requires |c| == NodeRoom(name) && CString(name) && U32(c, 0) == BEGIN_NODE && U32(c, 4 + Align4(|name| + 1)) == END_NODE
    requires c[4..4 + |name|] == name && c[4 + |name|] == 0
    ensures NodeChunk(c, name)
  {
    hide U32;
    var n := 4 + Align4(|name| + 1);
    var a := c[..n];
    assert a[0..4] == c[0..4];
    SameWord(a, c, 0, 0);
    assert c[..n] == c[0..n];
    SubSlice(c, 0, n, 4, 4 + |name|);
  }

  /** The items before a node do not depend on it, and its first kid starts right after its properties. */
  lemma {:induction false} FirstKidIndex(t: Tree, p: Path, u: Tree)
    requires HasNode(t, p) && u.kids != []
    ensures HasNode(Replaced(t, p, u), p + [0])
    ensures IndexOf(Replaced(t, p, u), p + [0]) == IndexOf(t, p) + 1 + |u.props|
  {
    var t' := Replaced(t, p, u);
    if p == [] {
      assert p + [0] == [0] && [0][1..] == [] && u.kids[..0] == [];
      assert ItemsBefore(u.kids[0], []) == [] && FlattenAll([]) == [];
      assert ItemsBefore(u, [0]) == [Open(u.name)] + PropItems(u.props) + [] + [];
    } else {
      FirstKidIndex(t.kids[p[0]], p[1..], u);
      assert (p + [0])[1..] == p[1..] + [0] && (p + [0])[0] == p[0];
      assert t'.kids[..p[0]] == t.kids[..p[0]];
      IndexBelow(t, p, 0);
      IndexBelow(t', p + [0], 0);
    }
  }

  /** A boundary up to an edit stays one. */
  lemma EditedBoundary(s: seq<byte>, s': seq<byte>, o: nat, oldlen: nat, now: seq<byte>, j: int)
    requires Edited(s, s', o, oldlen, now) && OnItem(s, o, j)
    ensures OnItem(s', o, j)
  {
    hide U32, HasItems, Items;
    OrderedRegion(s);
    assert Region(s')[..o] == Region(s)[..o];
    hide Region, Strings;
  }

  lemma KidAdded(s: seq<byte>, s': seq<byte>, t: Tree, p: Path, name: seq<byte>, o: nat)
    requires Denotes(s, t) && HasNode(t, p) && OnItem(s, o, IndexOf(t, p) + 1 + |NodeOf(t, p).props|)
    requires KidHole(s, s', o, name)
    ensures var t' := Replaced(t, p, WithKid(NodeOf(t, p), name));
      Becomes(s, s', t') && HasNode(t', p + [0]) && NodeAt(s', t', p + [0], o)
  {
    hide Denotes, Legible, Content, OnItem, ItemAt, Edited, HasItems, Items, Strings, Flatten, Ordered, Region, Becomes, IndexOf, U32, Replaced;
    var u := NodeOf(t, p);
    var now := Region(s')[o..o + NodeRoom(name)];
    var k := Node(name, [], []);
    NodeChunkItems(now, Strings(s), name);
    FlattenKid(u, k);
    EmptyNodeItems(name);
    NodeEdited(s, s', t, p, WithKid(u, name), 1 + |u.props|, 1 + |u.props|, o, o, now);
    FirstKidIndex(t, p, WithKid(u, name));
    EditedBoundary(s, s', o, 0, now, IndexOf(t, p) + 1 + |u.props|);
    KidTag(now, name);
    BecomesDenotes(s, s', Replaced(t, p, WithKid(u, name)));
    PieceTag(s', Replaced(t, p, WithKid(u, name)), o, NodeRoom(name), IndexOf(t, p) + 1 + |u.props|);
  }

  lemma EmptyNodeItems(name: seq<byte>)
    ensures Flatten(Node(name, [], [])) == [Open(name), Close]
  {
    assert PropItems([]) == [] && FlattenAll([]) == [];
  }

  lemma BecomesDenotes(s: seq<byte>, s': seq<byte>, t: Tree)
    requires Becomes(s, s', t)
    ensures Denotes(s', t)
  {
  }

  lemma KidTag(c: seq<byte>, name: seq<byte>)
    requires NodeChunk(c, name)
    ensures |c| >= 4 && U32(c, 0) == BEGIN_NODE
  {
    hide U32;
    var a := c[..4 + Align4(|name| + 1)];
    assert a[0..4] == c[0..4];
    SameWord(a, c, 0, 0);
  }

  /** A boundary where the word is BEGIN_NODE is that of a node. */
  lemma PieceTag(s: seq<byte>, t: Tree, o: nat, n: nat, j: int)
    requires Denotes(s, t) && OnItem(s, o, j) && 4 <= n && o + n <= |Region(s)| && U32(Region(s)[o..o + n], 0) == BEGIN_NODE
    ensures ItemAt(s, o, j)
  {
    hide Denotes, Legible, Content, OnItem, ItemAt, Region, U32, TagAt;
    DenotesText(s, t);
    TagTells(s, o, j);
    WordOfSlice(Region(s), o, o + n, 0);
    TagCases(Region(s), o);
    TagIsBegin(Region(s), o);
  }

  lemma TagIsBegin(b: seq<byte>, o: nat)
    requires o + 4 <= |b| && U32(b, o) == BEGIN_NODE
    ensures TagAt(b, o).tag == BEGIN_NODE || TagAt(b, o).next < 0
  {
    hide U32;
  }

  // ----- deleting a node

  /** The bytes from o to end, just before item j, were taken out. */
  ghost predicate CutOut(s: seq<byte>, s': seq<byte>, o: nat, j: nat, end: nat)
  {
    o < end && OnItem(s, end, j) && ItemEnds(s, end, j - 1) && RelaidAt(s, s', o, end - o, 0, [])
  }

  ghost predicate Cut(s: seq<byte>, s': seq<byte>, o: nat, j: nat)
  {
    exists end: nat :: CutOut(s, s', o, j, end)
  }

  /** fdt_del_node removes the node with everything below it; deleting the root leaves no items at all. */
  ghost predicate DelNodeResult(s: seq<byte>, s': seq<byte>, t: Tree, p: Path, node: nat, err: int)
  {
    && HasNode(t, p) && |s| >= HEADER_SIZE && err == RwError(Head(s))
    && (if err == 0 then Cut(s, s', node, IndexOf(t, p) + Size(NodeOf(t, p))) else s' == s)
    && (err != 0 || p != [] ==> Becomes(s, s', if err == 0 then Removed(t, p) else t))
    && (err == 0 && p == [] ==> Legible(s') && Content(s') == [])
  }

  method DelNode(fdt: array<byte>, node: nat, ghost t: Tree, ghost p: Path) returns (err: int)
    requires Denotes(fdt[..], t) && NodeAt(fdt[..], t, p, node)
    modifies fdt
    ensures DelNodeResult(old(fdt[..]), fdt[..], t, p, node, err)
  {
    hide Denotes, Legible, Content, OnItem, ItemAt, ItemEnds, Region, TagAt, U32, Strings, Edited, Ordered, Room, SameText,
         Becomes, IndexOf, Flatten, Here, RwError, EndIs, LastScan, Removed, RelaidAt, NameIn;
    ghost var s := fdt[..];
    err := RwCheckHeader(fdt, t);
    ghost var s0 := fdt[..];
    if err != 0 {
      BecomesRefl(s, t);
      return;
    }
    Reheaded(s, s0, t, p, node);
    ghost var i := IndexOf(t, p);
    var end := NodeEndOffset(fdt, node, i);
    assert fdt[..] == s0;
    EndOfNode(s0, t, p, node, end);
    if end < 0 {
      return end;
    }
    ghost var j := i + Size(NodeOf(t, p));
    BoundariesOrdered(s0, node, i, end, j);
    OnItemInside(s0, t, end, j);
    RoomToShrink(s0, node - end);
    err := SpliceStruct(fdt, node, end - node, 0);
    ghost var s1 := fdt[..];
    assert Region(s1)[node..node] == [];
    NodeDeleted(s0, s1, t, p, node, end);
    NothingNamed(s0);
    RelaidByEdit(s, s0, s0, s1, node, end - node, [], []);
    NodeItem(s0, t, p, node);
    EndBehind(s0, node, i, end, j);
    SameEnds(s, s0, end, j);
    assert CutOut(s, s1, node, j, end);
    if p != [] { BecomesTrans(s, s0, s1, t, Removed(t, p)); }
  }

  lemma EndBehind(s: seq<byte>, node: nat, i: nat, end: nat, j: nat)
    requires Legible(s) && ItemAt(s, node, i) && OnItem(s, end, j) && i < j
    ensures node < end
  {
    hide Region, Strings, AllItems, Items, First;
    if end <= node { ItemsBetween(Region(s), Strings(s), end, j, node, i); }
  }

  lemma SameEnds(s: seq<byte>, s0: seq<byte>, end: nat, j: nat)
    requires SameText(s, s0) && OnItem(s0, end, j) && ItemEnds(s0, end, j - 1)
    ensures OnItem(s, end, j) && ItemEnds(s, end, j - 1)
  {
    hide Region, Strings, Head;
  }

  lemma NodeDeleted(s: seq<byte>, s': seq<byte>, t: Tree, p: Path, o: nat, o': nat)
    requires Denotes(s, t) && HasNode(t, p) && o <= o'
    requires OnItem(s, o, IndexOf(t, p)) && OnItem(s, o', IndexOf(t, p) + Size(NodeOf(t, p)))
    requires Edited(s, s', o, o' - o, [])
    ensures p != [] ==> Becomes(s, s', Removed(t, p))
    ensures p == [] ==> Legible(s') && Content(s') == []
  {
    hide Denotes, Legible, Content, Sound, OnItem, Edited, HasItems, Items, Strings, Flatten, Reserved, Region, Streams, Removed;
    DenotesText(s, t);
    NothingHasNoItems(Strings(s));
    EditMeans(s, s', o, IndexOf(t, p), o', IndexOf(t, p) + Size(NodeOf(t, p)), []);
    LegibleStreams(s');
    EditSound(s, s', o, o' - o, []);
    EditedLength(s, s', o, o' - o, []);
    if p != [] {
      RemoveInTree(t, p);
      TextDenotes(s', Removed(t, p));
    }
  }
}
