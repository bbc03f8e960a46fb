/** fdt_wip.c: finding the end of a node and blanking out nodes and properties in place. */
module FdtWip {

  import opened Bytes
  import opened Tokens
  import opened Trees
  import opened TreeEdits
  import opened Blob
  import opened Copy
  import opened Cursor
  import opened Fdt
  import opened FdtRo
  import opened Edits
  import opened Walk
  import opened Lookup
  import opened Nodes

  // ----- _fdt_node_end_offset

  /** Where the scan of a whole node ends. */
  ghost predicate EndIs(s: seq<byte>, last: Scan, offset: int)
  {
    match last
    case Closed(i, _) => ItemEnds(s, offset, i - 1) && OnItem(s, offset, i) && offset >= 0
    case _ => offset == -NOTFOUND
  }

  /** The state of the end search: at the node of item i, or done. */
  ghost predicate EndSearch(s: seq<byte>, node: nat, j: nat, i: nat, offset: int, depth: int)
  {
    var n := Content(s);
    if TagAt(Region(s), node).tag != BEGIN_NODE then depth == 0 && (offset == -BADOFFSET || (offset == node && i == j))
    else
      && j < |n|
      && if offset >= 0 && depth >= 0 then
          i < |n| && n[i].Open? && ItemAt(s, offset, i) && LastScan(n, j + 1, 0) == LastScan(n, i + 1, depth)
        else EndIs(s, LastScan(n, j + 1, 0), offset)
  }

  lemma EndSearchStarts(s: seq<byte>, node: nat, j: nat)
    requires Legible(s) && OnItem(s, node, j)
    ensures EndSearch(s, node, j, j, node, 0)
  {
    hide Legible, Content, OnItem, ItemAt, ItemEnds, Region, TagAt;
    TagTells(s, node, j);
  }

  lemma EndSearchGoesOn(s: seq<byte>, node: nat, j: nat, i: nat, o: int, d: int, offset: int, depth: int) returns (i': nat)
    requires Legible(s) && OnItem(s, o, i) && o >= 0 && d >= 0 && EndSearch(s, node, j, i, o, d)
    requires NextAnswer(s, o, d, i, offset, depth)
    ensures EndSearch(s, node, j, i', offset, depth)
    ensures i <= i' <= |Content(s)| && (i' == i ==> offset < 0)
    ensures offset >= 0 && depth >= 0 ==> OnItem(s, offset, i') && offset < LIMIT - 4
  {
    hide Legible, Content, Region, TagAt, OnItem, ItemAt, ItemEnds;
    TagTells(s, o, i);
    if TagAt(Region(s), node).tag != BEGIN_NODE {
      return i;
    }
    ItemIsNode(s, o, i);
    match NextOpen(Content(s), i + 1, d)
    case Found(k, e) =>
      ItemOnBoundary(s, offset, k);
      TagTells(s, offset, k);
      return k;
    case Closed(k, e) => return |Content(s)|;
    case Finished(e) => return i;
  }

  /** A boundary whose item the tag tells is a node. */
  lemma ItemIsNode(s: seq<byte>, o: int, i: int)
    requires Legible(s) && ItemAt(s, o, i)
    ensures 0 <= o && 0 <= i < |Content(s)| && TagAt(Region(s), o).tag == ItemTag(Content(s)[i])
  {
    hide Legible, Content, Region, TagAt, Strings, First, Named, ItemOf, TagOf, ItemAt;
    ItemToken(s, o, i);
    ItemIsNotNop(s, o, i);
    ItemTagOf(First(Region(s)[o..]).value.tok, Strings(s));
  }

  lemma ItemIsNotNop(s: seq<byte>, o: int, i: int)
    requires Legible(s) && ItemAt(s, o, i)
    ensures 0 <= o <= |Region(s)| && First(Region(s)[o..]).Some? && First(Region(s)[o..]).value.tok != Nop
  {
  }

  /** _fdt_node_end_offset: just past the item that closes the node, whatever is inside it. */
  method NodeEndOffset(fdt: array<byte>, node: nat, ghost j: nat) returns (offset: int)
    requires Legible(fdt[..]) && node < LIMIT - 4 && OnItem(fdt[..], node, j)
    ensures var s := fdt[..];
      if TagAt(Region(s), node).tag != BEGIN_NODE then offset == -BADOFFSET
      else j < |Content(s)| && EndIs(s, LastScan(Content(s), j + 1, 0), offset)
  {
    hide Legible, Content, OnItem, ItemAt, ItemEnds, Region, TagAt, Readable, LastScan, NextAnswer, EndIs;
    ghost var s := fdt[..];
    LegibleParts(s);
    TagTells(s, node, j);
    var depth := 0;
    offset := node;
    ghost var i := j;
    EndSearchStarts(s, node, j);
    while offset >= 0 && depth >= 0
      invariant 0 <= i <= |Content(s)| && (offset >= 0 && depth >= 0 ==> OnItem(s, offset, i) && offset < LIMIT - 4)
      invariant EndSearch(s, node, j, i, offset, depth)
      decreases |Content(s)| - i, offset
    {
      ghost var o0, d0 := offset, depth;
      offset, depth := NextNode(fdt, offset, depth, i);
      i := EndSearchGoesOn(s, node, j, i, o0, d0, offset, depth);
    }
  }

  /** At a node of a tree the end is just past the node's own closing item. */
  lemma EndOfNode(s: seq<byte>, t: Tree, p: Path, o: int, end: int)
    requires Denotes(s, t) && NodeAt(s, t, p, o)
    requires IndexOf(t, p) < |Content(s)| && EndIs(s, LastScan(Content(s), IndexOf(t, p) + 1, 0), end)
    ensures var j := IndexOf(t, p) + Size(NodeOf(t, p));
      && Size(NodeOf(t, p)) > 0 && end >= 0 && OnItem(s, end, j) && ItemEnds(s, end, j - 1) && j <= |Content(s)|
  {
    hide Denotes, Legible, Content, OnItem, ItemEnds, LastScan, Region, TagAt, Flatten, Here, IndexOf, Visits, ListingAll, HasNode, NodeOf,
         Strings, ItemAt;
    NodeText(s, t, p, o);
    VisitsNode(Content(s), IndexOf(t, p), NodeOf(t, p));
  }

  // ----- blanking out

  /** n NOP tags. */
  function Nops(n: nat): (c: seq<byte>)
    ensures |c| == 4 * n
  {
    if n == 0 then [] else Nops(n - 1) + Be32(NOP)
  }

  lemma {:induction false} NopsAreNops(n: nat)
    ensures AllNops(Nops(n))
  {
    if n > 0 {
      NopsAreNops(n - 1);
      WordReadBack(NOP);
      var c, d := Nops(n), Nops(n - 1);
      forall i: nat | i % 4 == 0 && i + 4 <= |c| ensures U32(c, i) == NOP {
        if i + 4 <= |d| {
          assert d[i..i + 4] == c[i..i + 4];
          SameWord(c, d, i, i);
        } else {
          assert c[i..i + 4] == Be32(NOP)[0..4];
          SameWord(c, Be32(NOP), i, 0);
        }
      }
    }
  }

  /** _fdt_nop_region: words are written as long as they start inside the len bytes at start. */
  method NopRegion(fdt: array<byte>, start: nat, len: nat)
    requires start + Align4(len) <= fdt.Length
    modifies fdt
    ensures fdt[..] == Put(old(fdt[..]), start, Nops(Align4(len) / 4))
  {
    hide U32, Be32;
    var p := start;
    ghost var s, n := fdt[..], 0;
    while p < start + len
      invariant p == start + 4 * n && p <= start + Align4(len)
      invariant fdt[..] == Put(s, start, Nops(n))
    {
      PutBytes(fdt, p, Be32(NOP));
      PutAfterPut(s, start, Nops(n), Be32(NOP));
      n := n + 1;
      p := p + 4;
    }
  }

  lemma PutAfterPut(s: seq<byte>, o: nat, v: seq<byte>, w: seq<byte>)
    requires o + |v| + |w| <= |s|
    ensures Put(Put(s, o, v), o + |v|, w) == Put(s, o, v + w)
  {
  }

  /** s' is s with whole words of the structure block, from o on, made NOP tags: all else is as it was and where it was. */
  ghost predicate BlankedAt(s: seq<byte>, s': seq<byte>, o: nat, n: nat)
  {
    && |s| >= HEADER_SIZE && o % 4 == 0 && o + 4 * n <= |Region(s)| && Head(s).offStruct + o + 4 * n <= |s|
    && s' == Put(s, Head(s).offStruct + o, Nops(n))
  }

  /** By such a change, at or after from, s' stands for t, with the reservations of s. */
  ghost predicate Blanked(s: seq<byte>, s': seq<byte>, t: Tree, from: nat)
  {
    Sound(s) && Denotes(s', t) && Reserved(s') == Reserved(s) && exists o: nat, n: nat :: o >= from && BlankedAt(s, s', o, n)
  }

  /** fdt_nop_property: the same tree as after fdt_delprop, on any sound blob. */
  method NopProperty(fdt: array<byte>, node: nat, key: seq<byte>, ghost t: Tree, ghost p: Path) returns (err: int)
    requires Denotes(fdt[..], t) && NodeAt(fdt[..], t, p, node)
    modifies fdt
    ensures var u := NodeOf(t, p);
      if FirstKey(u.props, key) < |u.props| then err == 0 && Blanked(old(fdt[..]), fdt[..], Replaced(t, p, WithoutProp(u, key)), node + 4)
      else err == -NOTFOUND && fdt[..] == old(fdt[..])
  {
    hide Denotes, Legible, Content, OnItem, ItemAt, Region, TagAt, U32, Put, Strings, Blanked, FirstKey, FindKey, IndexOf, Flatten, Here;
    ghost var s := fdt[..];
    ghost var u := NodeOf(t, p);
    NodeText(s, t, p, node);
    ghost var i := IndexOf(t, p);
    FindInNode(Content(s), i, u, key);
    ghost var k := FirstKey(u.props, key);
    if k < |u.props| { NodeProp(Content(s), i, u, k); }
    var prop, len := GetProperty(fdt, node, key, i);
    assert fdt[..] == s;
    if prop < 0 {
      return len;
    }
    PropBlanked(s, t, p, key, node, prop);
    NopRegion(fdt, U32(fdt[..], 8) + prop, len + 12);
    return 0;
  }

  /** A property of a node starts behind the node's tag. */
  lemma PropBehind(s: seq<byte>, node: nat, i: nat, prop: int, j: int)
    requires Legible(s) && ItemAt(s, node, i) && ItemAt(s, prop, j) && i < j
    ensures prop >= node + 4
  {
    hide Region, Strings, AllItems, Items, First;
    StartsOrdered(Region(s), Strings(s), node, i, prop, j);
    AtSplits(Region(s), Strings(s), node, i);
    AtSplits(Region(s), Strings(s), prop, j);
  }

  lemma PropBlanked(s: seq<byte>, t: Tree, p: Path, key: seq<byte>, node: nat, o: nat)
    requires Denotes(s, t) && HasNode(t, p) && ItemAt(s, node, IndexOf(t, p)) && FirstKey(NodeOf(t, p).props, key) < |NodeOf(t, p).props|
    requires var u := NodeOf(t, p); var k := FirstKey(u.props, key);
      && IndexOf(t, p) + 1 + k < |Content(s)| && Content(s)[IndexOf(t, p) + 1 + k] == Property(key, u.props[k].val)
      && ItemAt(s, o, IndexOf(t, p) + 1 + k)
    ensures var u := NodeOf(t, p); var n := Align4(|u.props[FirstKey(u.props, key)].val| + 12);
      && |s| >= HEADER_SIZE && U32(s, 8) + o + n <= |s|
      && Blanked(s, Put(s, U32(s, 8) + o, Nops(n / 4)), Replaced(t, p, WithoutProp(u, key)), node + 4)
  {
    hide Denotes, Legible, Content, OnItem, ItemAt, HasItems, Items, Strings, Flatten, FirstKey, Region, IndexOf, Put, Nops, U32, TagAt;
    var u := NodeOf(t, p);
    var k := FirstKey(u.props, key);
    var j := IndexOf(t, p) + 1 + k;
    var n := |u.props[k].val|;
    DenotesText(s, t);
    ItemOnBoundary(s, o, j);
    PropertyBytes(s, o, j);
    TagTells(s, o, j);
    AlignSum(12, n);
    PropBehind(s, node, IndexOf(t, p), o, j);
    BlankedItems(s, t, o, j, o + 12 + Align4(n), j + 1);
    FlattenProps(u, k, k + 1, []);
    assert u.props[..k] + [] + u.props[k + 1..] == u.props[..k] + u.props[k + 1..];
    assert PropItems([]) == [];
    EditInTree(t, p, WithoutProp(u, key), 1 + k, 2 + k, []);
    TextDenotes(Put(s, U32(s, 8) + o, Nops((12 + Align4(n)) / 4)), Replaced(t, p, WithoutProp(u, key)));
  }

  /** NOPs over whole tokens remove their items and nothing else. */
  lemma BlankedItems(s: seq<byte>, t: Tree, o: nat, j: nat, o': nat, j': nat)
    requires Denotes(s, t) && OnItem(s, o, j) && OnItem(s, o', j') && o <= o' && (o' - o) % 4 == 0
    ensures |s| >= HEADER_SIZE && U32(s, 8) + o' <= |s| && j <= j' <= |Content(s)|
    ensures var s' := Put(s, U32(s, 8) + o, Nops((o' - o) / 4));
      BlankedAt(s, s', o, (o' - o) / 4) && Sound(s) && Sound(s') && Reserved(s') == Reserved(s) && Legible(s') && Content(s') == Content(s)[..j] + Content(s)[j'..]
  {
    hide Denotes, Legible, Content, OnItem, HasItems, Items, Strings, Region, Put, Nops, Sound, AllNops, Reserved;
    DenotesText(s, t);
    var now := Nops((o' - o) / 4);
    NopsAreNops((o' - o) / 4);
    NopsHaveNoItems(now, Strings(s));
    PatchMeans(s, o, j, o', j', now);
    StructWord(s);
    TagTells(s, o, j);
    TagTells(s, o', j');
  }

  lemma StructWord(s: seq<byte>)
    requires Sound(s)
    ensures |s| >= HEADER_SIZE && U32(s, 8) == Head(s).offStruct
  {
    hide U32, Streams, StreamLen, RsvCount, Region, Strings;
  }

  /** fdt_nop_node: the same tree as after fdt_del_node, on any sound blob; the root leaves no items. */
  method NopNode(fdt: array<byte>, node: nat, ghost t: Tree, ghost p: Path) returns (err: int)
    requires Denotes(fdt[..], t) && NodeAt(fdt[..], t, p, node)
    modifies fdt
    ensures err == 0
    ensures p != [] ==> Blanked(old(fdt[..]), fdt[..], Removed(t, p), node)
    ensures p == [] ==> Legible(fdt[..]) && Content(fdt[..]) == [] && exists n: nat :: BlankedAt(old(fdt[..]), fdt[..], node, n)
  {
    hide Denotes, Legible, Content, OnItem, ItemAt, ItemEnds, Region, TagAt, U32, Strings, IndexOf, Flatten, Here, EndIs, LastScan, Removed,
         Blanked, Put;
    ghost var s := fdt[..];
    NodeText(s, t, p, node);
    ghost var i := IndexOf(t, p);
    var end := NodeEndOffset(fdt, node, i);
    assert fdt[..] == s;
    EndOfNode(s, t, p, node, end);
    if end < 0 {
      return end;
    }
    ghost var j := i + Size(NodeOf(t, p));
    NodeBlanked(s, t, p, node, end);
    NopRegion(fdt, U32(fdt[..], 8) + node, end - node);
    return 0;
  }

  lemma NodeBlanked(s: seq<byte>, t: Tree, p: Path, o: nat, o': nat)
    requires Denotes(s, t) && HasNode(t, p) && Size(NodeOf(t, p)) > 0
    requires OnItem(s, o, IndexOf(t, p)) && OnItem(s, o', IndexOf(t, p) + Size(NodeOf(t, p)))
    ensures o <= o' && Align4(o' - o) == o' - o && |s| >= HEADER_SIZE && U32(s, 8) + o' <= |s|
    ensures var s' := Put(s, U32(s, 8) + o, Nops((o' - o) / 4));
      && BlankedAt(s, s', o, (o' - o) / 4)
      && if p != [] then Blanked(s, s', Removed(t, p), o) else Legible(s') && Content(s') == []
  {
    hide Denotes, Legible, Content, OnItem, Strings, Flatten, Region, IndexOf, Put, Nops, U32, TagAt, Removed, HasNode, NodeOf, Sound,
         Reserved, Told, Blanked, ItemEnds, ItemAt;
    DenotesText(s, t);
    var i, j := IndexOf(t, p), IndexOf(t, p) + Size(NodeOf(t, p));
    BoundariesOrdered(s, o, i, o', j);
    TagTells(s, o, i);
    TagTells(s, o', j);
    WholeWords(o, o');
    BlankedItems(s, t, o, i, o', j);
    RootIndex(t);
    if p != [] { NodeGone(s, Put(s, U32(s, 8) + o, Nops((o' - o) / 4)), t, p, o, (o' - o) / 4); }
  }

  lemma WholeWords(o: nat, o': nat)
    requires o <= o' && o % 4 == 0 && o' % 4 == 0
    ensures Align4(o' - o) == o' - o && (o' - o) % 4 == 0
  {
  }

  /** A blob whose items are those of t without the node at p. */
  lemma NodeGone(s: seq<byte>, s': seq<byte>, t: Tree, p: Path, o: nat, n: nat)
    requires HasNode(t, p) && p != [] && Sound(s) && Sound(s') && Legible(s') && Reserved(s') == Reserved(s) && BlankedAt(s, s', o, n)
    requires var i := IndexOf(t, p); var j := i + Size(NodeOf(t, p));
      j <= Size(t) && Content(s') == Flatten(t)[..i] + Flatten(t)[j..]
    ensures Blanked(s, s', Removed(t, p), o)
  {
    hide Denotes, Legible, Content, Flatten, Sound, Reserved, Removed, HasNode, NodeOf, IndexOf;
    RemoveInTree(t, p);
    TextDenotes(s', Removed(t, p));
  }

  /** The offset after a node is not before it. */
  lemma BoundariesOrdered(s: seq<byte>, o: int, j: int, o': int, j': int)
    requires Legible(s) && OnItem(s, o, j) && OnItem(s, o', j') && j < j'
    ensures o <= o'
  {
    hide U32, Region, Strings, Items, HasItems, HasAllItems, AllItems, At;
    if o' < o { ItemsBetween(Region(s), Strings(s), o', j', o, j); }
  }
}
