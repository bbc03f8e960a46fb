/** What changing the bytes of a blob does to its blocks, its items and its tree. */
module Edits {

  import opened Bytes
  import opened Tokens
  import opened Trees
  import opened Blob
  import opened Cursor
  import opened Fdt
  import opened Walk

  /** Blocks in the order header, reservations, structure, strings, and a version with a structure size. */
  ghost predicate Ordered(s: seq<byte>)
  {
    && HEADER_SIZE <= |s| < LIMIT
    && var h := Head(s);
    && h.version == LAST_VERSION && HEADER_SIZE <= h.offRsv && h.offRsv + 16 <= h.offStruct
    && h.offStruct + h.sizeStruct <= h.offStrings && h.offStrings + h.sizeStrings <= h.totalSize <= |s|
  }

  /** s' is s with oldlen bytes of the structure block at o replaced by now, all else in place or moved along. */
  ghost predicate Edited(s: seq<byte>, s': seq<byte>, o: int, oldlen: int, now: seq<byte>)
  {
    && Ordered(s) && Ordered(s') && |s'| == |s|
    && var h := Head(s);
    && 0 <= o && 0 <= oldlen && o + oldlen <= h.sizeStruct && h.sizeStruct - oldlen + |now| < LIMIT
    && h.offStrings - oldlen + |now| < LIMIT
    && Head(s') == h.(sizeStruct := h.sizeStruct - oldlen + |now|, offStrings := h.offStrings - oldlen + |now|)
    && s'[HEADER_SIZE..h.offStruct] == s[HEADER_SIZE..h.offStruct]
    && Region(s') == Region(s)[..o] + now + Region(s)[o + oldlen..]
    && Strings(s') == Strings(s)
  }

  lemma OrderedRegion(s: seq<byte>)
    requires Ordered(s)
    ensures Readable(s)
    ensures Region(s) == s[Head(s).offStruct..Head(s).offStruct + Head(s).sizeStruct]
    ensures Strings(s) == s[Head(s).offStrings..Head(s).offStrings + Head(s).sizeStrings]
  {
  }

  lemma EditedRefl(s: seq<byte>, o: nat, n: nat)
    requires Ordered(s) && o + n <= Head(s).sizeStruct
    ensures |Region(s)| == Head(s).sizeStruct && Edited(s, s, o, n, Region(s)[o..o + n])
  {
    hide U32;
    OrderedRegion(s);
    var b := Region(s);
    assert b == b[..o] + b[o..o + n] + b[o + n..];
  }

  /** Writing inside the replaced bytes changes only them. */
  lemma EditedPut(s: seq<byte>, s': seq<byte>, o: nat, oldlen: nat, now: seq<byte>, k: nat, v: seq<byte>)
    requires Edited(s, s', o, oldlen, now) && k + |v| <= |now|
    ensures Head(s).offStruct + o + k + |v| <= |s'|
    ensures Edited(s, Put(s', Head(s).offStruct + o + k, v), o, oldlen, Put(now, k, v))
  {
    hide U32, Put, Region, Strings;
    OrderedRegion(s'); OrderedRegion(s);
    PutInStruct(s', o + k, v);
    PutInMiddle(Region(s)[..o], now, Region(s)[o + oldlen..], k, v);
  }

  /** Writing inside the structure block leaves the other blocks alone. */
  lemma PutInStruct(s: seq<byte>, o: nat, v: seq<byte>)
    requires Ordered(s) && o + |v| <= Head(s).sizeStruct
    ensures |Region(s)| == Head(s).sizeStruct && Head(s).offStruct + o + |v| <= |s|
    ensures var t := Put(s, Head(s).offStruct + o, v);
      && Ordered(t) && Head(t) == Head(s)
      && Region(t) == Put(Region(s), o, v) && Strings(t) == Strings(s)
      && t[HEADER_SIZE..Head(s).offStruct] == s[HEADER_SIZE..Head(s).offStruct]
  {
    hide U32, Put;
    var h, p := Head(s), Head(s).offStruct + o;
    var t := Put(s, p, v);
    OrderedRegion(s);
    PutReads(s, p, v, 0, HEADER_SIZE);
    assert t[..HEADER_SIZE] == t[0..HEADER_SIZE] && s[..HEADER_SIZE] == s[0..HEADER_SIZE];
    HeadOfPrefix(s, t);
    OrderedRegion(t);
    hide Region, Strings;
    PutInSlice(s, p, v, h.offStruct, h.offStruct + h.sizeStruct);
    PutReads(s, p, v, h.offStrings, h.offStrings + h.sizeStrings);
    PutReads(s, p, v, HEADER_SIZE, h.offStruct);
  }

  lemma PutInSlice(s: seq<byte>, p: nat, v: seq<byte>, i: nat, j: nat)
    requires i <= p && p + |v| <= j <= |s|
    ensures Put(s, p, v)[i..j] == Put(s[i..j], p - i, v)
  {
  }

  lemma PutInMiddle(a: seq<byte>, x: seq<byte>, b: seq<byte>, k: nat, v: seq<byte>)
    requires k + |v| <= |x|
    ensures Put(a + x + b, |a| + k, v) == a + Put(x, k, v) + b
  {
  }

  /** Taking k bytes before the replaced ones along as they are. */
  lemma EditedWiden(s: seq<byte>, s': seq<byte>, o: nat, oldlen: nat, now: seq<byte>, k: nat)
    requires Edited(s, s', o, oldlen, now) && k <= o
    ensures |Region(s)| == Head(s).sizeStruct
    ensures Edited(s, s', o - k, k + oldlen, Region(s)[o - k..o] + now)
  {
    hide U32;
    OrderedRegion(s);
    var b := Region(s);
    assert b[..o] == b[..o - k] + b[o - k..o];
    assert b[..o] + now + b[o + oldlen..] == b[..o - k] + (b[o - k..o] + now) + b[o + oldlen..];
  }

  // ----- moving the rest of the blob

  /** What _fdt_splice leaves: the bytes from p + oldlen to end now start at p + newlen. */
  function Spliced(s: seq<byte>, p: nat, oldlen: nat, newlen: nat, end: nat): (t: seq<byte>)
    requires p + oldlen <= end <= |s| && end - oldlen + newlen <= |s|
    ensures |t| == |s|
  {
    Put(s, p + newlen, s[p + oldlen..end])
  }

  lemma SplicedReads(s: seq<byte>, p: nat, oldlen: nat, newlen: nat, end: nat, i: nat, j: nat)
    requires p + oldlen <= end <= |s| && end - oldlen + newlen <= |s| && i <= j
    ensures j <= p + newlen ==> Spliced(s, p, oldlen, newlen, end)[i..j] == s[i..j]
    ensures p + oldlen <= i && j <= end ==> Spliced(s, p, oldlen, newlen, end)[i - oldlen + newlen..j - oldlen + newlen] == s[i..j]
  {
    var t := Spliced(s, p, oldlen, newlen, end);
    var m := s[p + oldlen..end];
    if p + oldlen <= i && j <= end {
      var a, c := i - oldlen + newlen, j - oldlen + newlen;
      assert t[p + newlen..p + newlen + |m|] == m;
      forall x | 0 <= x < j - i ensures t[a..c][x] == s[i..j][x] {
        assert t[a + x] == m[a + x - (p + newlen)];
      }
    }
  }

  /** A structure splice moves everything behind it and leaves the replaced room with whatever bytes are there. */
  lemma SpliceEdits(s: seq<byte>, s': seq<byte>, o: nat, oldlen: nat, newlen: nat)
    requires Ordered(s) && o + oldlen <= Head(s).sizeStruct && newlen < LIMIT
    requires Head(s).offStrings + Head(s).sizeStrings - oldlen + newlen <= Head(s).totalSize
    requires var h := Head(s); var t := Spliced(s, h.offStruct + o, oldlen, newlen, h.offStrings + h.sizeStrings);
      && |s'| == |t| && s'[HEADER_SIZE..] == t[HEADER_SIZE..]
      && Head(s') == h.(sizeStruct := h.sizeStruct - oldlen + newlen, offStrings := h.offStrings - oldlen + newlen)
    ensures |Region(s')| == Head(s).sizeStruct - oldlen + newlen
    ensures Edited(s, s', o, oldlen, Region(s')[o..o + newlen])
  {
    hide U32, Spliced;
    var h := Head(s);
    var p, end := h.offStruct + o, h.offStrings + h.sizeStrings;
    var t := Spliced(s, p, oldlen, newlen, end);
    OrderedRegion(s); OrderedRegion(s');
    hide Region, Strings, Head;
    var n' := h.sizeStruct - oldlen + newlen;
    assert |s'| == |s| == |t|;
    SameTail(s', t, HEADER_SIZE, h.offStruct, h.offStruct + n');
    SameTail(s', t, HEADER_SIZE, HEADER_SIZE, h.offStruct);
    SameTail(s', t, HEADER_SIZE, h.offStrings - oldlen + newlen, end - oldlen + newlen);
    SplicedReads(s, p, oldlen, newlen, end, HEADER_SIZE, h.offStruct);
    SplicedReads(s, p, oldlen, newlen, end, h.offStrings, end);
    SplicedBlock(s, h.offStruct, h.sizeStruct, o, oldlen, newlen, end);
  }

  /** The structure block after a splice inside it. */
  lemma SplicedBlock(s: seq<byte>, i: nat, n: nat, o: nat, oldlen: nat, newlen: nat, end: nat)
    requires o + oldlen <= n && i + n <= end <= |s| && end - oldlen + newlen <= |s|
    ensures var t := Spliced(s, i + o, oldlen, newlen, end); var b, b' := s[i..i + n], t[i..i + n - oldlen + newlen];
      b' == b[..o] + b'[o..o + newlen] + b[o + oldlen..]
  {
    hide Spliced;
    var t := Spliced(s, i + o, oldlen, newlen, end);
    var b, b' := s[i..i + n], t[i..i + n - oldlen + newlen];
    SplicedReads(s, i + o, oldlen, newlen, end, i, i + o);
    SplicedReads(s, i + o, oldlen, newlen, end, i + o + oldlen, i + n);
    hide Put;
    SubSlice(s, i, i + n, 0, o);
    SubSlice(s, i, i + n, o + oldlen, n);
    SubSlice(t, i, i + n - oldlen + newlen, 0, o);
    SubSlice(t, i, i + n - oldlen + newlen, o + newlen, n - oldlen + newlen);
    ThreeParts(b, b', o, o + oldlen, o + newlen);
  }

  /** Equal at both ends. */
  lemma ThreeParts(b: seq<byte>, b': seq<byte>, o: nat, j: nat, j': nat)
    requires o <= j <= |b| && o <= j' <= |b'| && b[0..o] == b'[0..o] && b[j..|b|] == b'[j'..|b'|]
    ensures b' == b[..o] + b'[o..j'] + b[j..]
  {
    assert b' == b'[0..o] + b'[o..j'] + b'[j'..|b'|];
    assert b[..o] == b[0..o] && b[j..] == b[j..|b|];
  }

  lemma SameTail(s: seq<byte>, t: seq<byte>, k: nat, i: nat, j: nat)
    requires |s| == |t| && k <= i <= j <= |s| && s[k..] == t[k..]
    ensures s[i..j] == t[i..j]
  {
    assert s[k..] == s[k..|s|] && t[k..] == t[k..|t|];
    SubSlice(s, k, |s|, i - k, j - k);
    SubSlice(t, k, |t|, i - k, j - k);
  }

  // ----- what the items become

  /** A structure edit between two token boundaries that puts whole tokens there. */
  lemma EditMeans(s: seq<byte>, s': seq<byte>, o: nat, j: nat, o': nat, j': nat, now: seq<byte>)
    requires Legible(s) && OnItem(s, o, j) && OnItem(s, o', j') && o <= o'
    requires Edited(s, s', o, o' - o, now) && HasItems(now, Strings(s))
    ensures j <= j' <= |Content(s)| && Legible(s')
    ensures Content(s') == Content(s)[..j] + Items(now, Strings(s)) + Content(s)[j'..]
  {
    hide U32, Items, HasItems, HasAllItems, AllItems, Parses, Streams;
    var b, strs := Region(s), Strings(s);
    OrderedRegion(s'); OrderedRegion(s);
    EditedItems(b, strs, o, j, o', j', now);
  }

  lemma EditedItems(b: seq<byte>, strs: seq<byte>, o: nat, j: nat, o': nat, j': nat, now: seq<byte>)
    requires HasAllItems(b, strs) && At(b, strs, o, j) && At(b, strs, o', j') && o <= o' && HasItems(now, strs)
    ensures j <= j' <= |AllItems(b, strs)|
    ensures var b' := b[..o] + now + b[o'..];
      && HasAllItems(b', strs) && AllItems(b', strs) == AllItems(b, strs)[..j] + Items(now, strs) + AllItems(b, strs)[j'..]
  {
    hide Parses, Streams, AllItems, HasAllItems, Items, HasItems;
    ItemsBetween(b, strs, o, j, o', j');
    AtSplits(b, strs, o, j);
    AtSplits(b, strs, o', j');
    assert b == b[..o] + b[o..o'] + b[o'..];
    SpliceItems(b[..o], b[o..o'], now, b[o'..], strs);
  }

  // ----- reservations and soundness

  /** The reservation table of an ordered blob lies before its structure block. */
  lemma RsvBeforeStruct(s: seq<byte>)
    requires Sound(s) && Ordered(s)
    ensures Head(s).offRsv + RsvLen(s) <= Head(s).offStruct
  {
    hide U32, Streams, StreamLen;
  }

  /** Blobs with the same bytes before the structure block have the same reservations. */
  lemma ReservedKept(s: seq<byte>, s': seq<byte>)
    requires Sound(s) && Ordered(s) && Ordered(s') && Head(s').offRsv == Head(s).offRsv && Head(s').offStruct == Head(s).offStruct
    requires Head(s').totalSize == Head(s).totalSize
    requires s'[HEADER_SIZE..Head(s).offStruct] == s[HEADER_SIZE..Head(s).offStruct]
    ensures var r, r' := s[Head(s).offRsv..Head(s).totalSize], s'[Head(s).offRsv..Head(s).totalSize];
      Terminated(r') && RsvCount(r') == RsvCount(r) && Entries(r', RsvCount(r')) == Entries(r, RsvCount(r))
  {
    hide U32, RsvCount, Entries, Streams, StreamLen, Region;
    RsvBeforeStruct(s);
    var h := Head(s);
    var r, r' := s[h.offRsv..h.totalSize], s'[h.offRsv..h.totalSize];
    var m := 16 * RsvCount(r) + 16;
    SubSlice(s, h.offRsv, h.totalSize, 0, m);
    SubSlice(s', h.offRsv, h.totalSize, 0, m);
    SubSlice(s, HEADER_SIZE, h.offStruct, h.offRsv - HEADER_SIZE, h.offRsv - HEADER_SIZE + m);
    SubSlice(s', HEADER_SIZE, h.offStruct, h.offRsv - HEADER_SIZE, h.offRsv - HEADER_SIZE + m);
    assert r[..m] == r[0..m] && r'[..m] == r'[0..m];
    RsvLocal(r, r');
  }

  /** A structure edit that leaves a token stream leaves a sound blob with the same reservations. */
  lemma EditSound(s: seq<byte>, s': seq<byte>, o: int, oldlen: int, now: seq<byte>)
    requires Sound(s) && Edited(s, s', o, oldlen, now) && Streams(Region(s'))
    ensures Sound(s') && Reserved(s') == Reserved(s)
  {
    hide U32, RsvCount, Entries, Streams, StreamLen, Region, Strings;
    OrderedRegion(s');
    ReservedKept(s, s');
    RsvBeforeStruct(s);
  }

  // ----- whole blocks moved

  /** s' holds the reservation table, the structure block and the strings block of s, in this order. */
  ghost predicate Relocated(s: seq<byte>, s': seq<byte>)
  {
    && Sound(s) && Ordered(s')
    && var h, h' := Head(s), Head(s');
    && h'.magic == MAGIC && h'.lastComp <= LAST_VERSION
    && h'.offRsv + RsvLen(s) <= h'.offStruct && h'.sizeStruct == StructLen(s)
    && s'[h'.offRsv..h'.offRsv + RsvLen(s)] == s[h.offRsv..h.offRsv + RsvLen(s)]
    && Region(s') == Region(s)[..StructLen(s)] && Strings(s') == Strings(s)
  }

  lemma RelocatedSound(s: seq<byte>, s': seq<byte>)
    requires Relocated(s, s')
    ensures Sound(s') && Reserved(s') == Reserved(s) && Stream(Region(s')) == Stream(Region(s))
  {
    hide U32, RsvCount, Entries, Region, Strings, Streams, StreamLen, Stream;
    StreamInBlock(s);
    StreamPrefix(Region(s), StructLen(s));
    RelocatedRsv(s, s');
    OrderedRegion(s');
  }

  lemma StreamInBlock(s: seq<byte>)
    requires Readable(s) && Streams(Region(s))
    ensures StreamLen(Region(s)) <= StructLen(s)
  {
  }

  lemma RelocatedRsv(s: seq<byte>, s': seq<byte>)
    requires Relocated(s, s')
    ensures var r, r' := s[Head(s).offRsv..Head(s).totalSize], s'[Head(s').offRsv..Head(s').totalSize];
      Terminated(r') && RsvCount(r') == RsvCount(r) && Entries(r', RsvCount(r')) == Entries(r, RsvCount(r))
  {
    hide U32, RsvCount, Entries, Streams, StreamLen, Region, Strings;
    var h, h' := Head(s), Head(s');
    var r, r' := s[h.offRsv..h.totalSize], s'[h'.offRsv..h'.totalSize];
    var m := RsvLen(s);
    SubSlice(s, h.offRsv, h.totalSize, 0, m);
    SubSlice(s', h'.offRsv, h'.totalSize, 0, m);
    assert r[..m] == r[0..m] && r'[..m] == r'[0..m];
    RsvLocal(r, r');
  }

  lemma RelocatedDenotes(s: seq<byte>, s': seq<byte>, t: Tree)
    requires Relocated(s, s') && Denotes(s, t)
    ensures Sound(s') && Denotes(s', t) && Reserved(s') == Reserved(s)
  {
    hide U32, RsvCount, Entries, Region, Strings, Streams, StreamLen, Stream;
    RelocatedSound(s, s');
  }

  // ----- changing bytes of the structure block in place, whatever the order of the blocks

  /** Overwriting whole tokens by whole tokens of the same size keeps the blob sound and replaces their items. */
  lemma PatchMeans(s: seq<byte>, o: nat, j: nat, o': nat, j': nat, now: seq<byte>)
    requires Sound(s) && Legible(s) && OnItem(s, o, j) && OnItem(s, o', j') && o <= o'
    requires |now| == o' - o && HasItems(now, Strings(s))
    ensures Head(s).offStruct + o' <= |s| && j <= j' <= |Content(s)|
    ensures var s' := Put(s, Head(s).offStruct + o, now);
      && Sound(s') && Reserved(s') == Reserved(s) && Legible(s')
      && Content(s') == Content(s)[..j] + Items(now, Strings(s)) + Content(s)[j'..]
  {
    hide U32, Items, HasAllItems, AllItems, Parses, Streams, StreamLen, Region, Strings, Sound, Put, Reserved, At, StructLen;
    var b, strs := Region(s), Strings(s);
    BoundaryInStruct(s, o', j');
    PatchRegion(s, o, now);
    PatchSound(s, o, j, o', j', now);
    EditedItems(b, strs, o, j, o', j', now);
    PutIsSplice(b, o, now);
  }

  lemma PutIsSplice(b: seq<byte>, o: nat, v: seq<byte>)
    requires o + |v| <= |b|
    ensures Put(b, o, v) == b[..o] + v + b[o + |v|..]
  {
  }

  /** A boundary lies before the END of the block. */
  lemma BoundaryInStruct(s: seq<byte>, o: nat, j: int)
    requires Sound(s) && OnItem(s, o, j)
    ensures o + 4 <= StructLen(s) && Head(s).offStruct + StructLen(s) <= Head(s).totalSize <= |s|
  {
    hide U32, Strings, Streams, StreamLen, RsvCount;
    StreamFrom(Region(s), o);
    StreamInBlock(s);
  }

  /** Bytes written inside the structure block reach no other block. */
  lemma PatchRegion(s: seq<byte>, o: nat, now: seq<byte>)
    requires Sound(s) && o + |now| <= StructLen(s)
    ensures Head(s).offStruct + StructLen(s) <= |s| && StructLen(s) <= |Region(s)|
    ensures var s' := Put(s, Head(s).offStruct + o, now); var h := Head(s);
      && Head(s') == h && Readable(s') && Region(s') == Put(Region(s), o, now) && Strings(s') == Strings(s)
      && s'[h.offRsv..h.offRsv + RsvLen(s)] == s[h.offRsv..h.offRsv + RsvLen(s)]
  {
    hide U32, Streams, StreamLen, RsvCount, Put;
    var h := Head(s);
    var p := h.offStruct + o;
    var s' := Put(s, p, now);
    PutReads(s, p, now, 0, HEADER_SIZE);
    assert s'[..HEADER_SIZE] == s'[0..HEADER_SIZE] && s[..HEADER_SIZE] == s[0..HEADER_SIZE];
    HeadOfPrefix(s, s');
    hide Head;
    PutInSlice(s, p, now, h.offStruct, h.offStruct + |Region(s)|);
    PutReads(s, p, now, h.offStrings, h.offStrings + h.sizeStrings);
    PutReads(s, p, now, h.offRsv, h.offRsv + RsvLen(s));
  }

  lemma PatchSound(s: seq<byte>, o: nat, j: nat, o': nat, j': nat, now: seq<byte>)
    requires Sound(s) && Legible(s) && OnItem(s, o, j) && OnItem(s, o', j') && o <= o'
    requires |now| == o' - o && Parses(now) && o' <= StructLen(s) <= |Region(s)| && Head(s).offStruct + StructLen(s) <= |s|
    requires var s' := Put(s, Head(s).offStruct + o, now); var h := Head(s);
      && Head(s') == h && Readable(s') && Region(s') == Put(Region(s), o, now) && Strings(s') == Strings(s)
      && s'[h.offRsv..h.offRsv + RsvLen(s)] == s[h.offRsv..h.offRsv + RsvLen(s)]
    ensures var s' := Put(s, Head(s).offStruct + o, now); Sound(s') && Reserved(s') == Reserved(s)
  {
    hide U32, Items, Parses, Parse, Streams, StreamLen, Region, Strings, Put, RsvCount, Entries, Head, Resolves;
    var s' := Put(s, Head(s).offStruct + o, now);
    PatchStream(Region(s), o, o', now);
    PatchRsv(s, s');
  }

  lemma PatchStream(b: seq<byte>, o: nat, o': nat, now: seq<byte>)
    requires o <= o' <= |b| && Parses(b[..o]) && Parses(b[..o']) && |now| == o' - o && Parses(now) && Streams(b)
    ensures Streams(Put(b, o, now)) && StreamLen(Put(b, o, now)) == StreamLen(b)
  {
    hide Parses, Parse, Streams, StreamLen, Put;
    StreamFrom(b, o');
    PutIsSplice(b, o, now);
    ParseConcat(b[..o], now);
    StreamConcat(b[..o] + now, b[o'..]);
  }

  lemma PatchRsv(s: seq<byte>, s': seq<byte>)
    requires Sound(s) && |s'| == |s| && Head(s') == Head(s)
    requires s'[Head(s).offRsv..Head(s).offRsv + RsvLen(s)] == s[Head(s).offRsv..Head(s).offRsv + RsvLen(s)]
    ensures var r, r' := s[Head(s).offRsv..Head(s).totalSize], s'[Head(s).offRsv..Head(s).totalSize];
      Terminated(r') && RsvCount(r') == RsvCount(r) && Entries(r', RsvCount(r')) == Entries(r, RsvCount(r))
  {
    hide U32, RsvCount, Entries, Streams, StreamLen, Region, Strings;
    var h := Head(s);
    var r, r' := s[h.offRsv..h.totalSize], s'[h.offRsv..h.totalSize];
    SubSlice(s, h.offRsv, h.totalSize, 0, RsvLen(s));
    SubSlice(s', h.offRsv, h.totalSize, 0, RsvLen(s));
    assert r[..RsvLen(s)] == r[0..RsvLen(s)] && r'[..RsvLen(s)] == r'[0..RsvLen(s)];
    RsvLocal(r, r');
  }
}
