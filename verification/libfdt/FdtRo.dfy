/** fdt_ro.c: looking up properties, children, ancestors and paths. */
module FdtRo {

  import opened Bytes
  import opened Tokens
  import opened Trees
  import opened Blob
  import opened Fdt
  import opened Walk
  import opened Lookup
  import opened Nodes
  import opened Paths
  import opened Cursor

  /** _fdt_string_eq */
  method StringEq(fdt: array<byte>, at: Word, key: seq<byte>) returns (same: bool)
    requires HEADER_SIZE <= fdt.Length && StringAt(Strings(fdt[..]), at).Some?
    ensures same <==> StringAt(Strings(fdt[..]), at).value == key
  {
    ghost var s := fdt[..];
    var p := U32(fdt[..], 12) + at;
    StringInBlob(s, at);
    var end := Nul(fdt[..], p);
    same := fdt[p..end] == key;
  }

  lemma StringInBlob(s: seq<byte>, at: Word)
    requires HEADER_SIZE <= |s| && StringAt(Strings(s), at).Some?
    ensures var p := U32(s, 12) + at; p <= |s| && s[p..Nul(s, p)] == StringAt(Strings(s), at).value
  {
    hide U32, StringAt, Nul;
    StringInside(Strings(s), at);
    StringOfSlice(s, Head(s).offStrings, Head(s).offStrings + Head(s).sizeStrings, at);
  }

  lemma StringOfSlice(s: seq<byte>, i: nat, j: nat, at: nat)
    requires i <= j <= |s| && StringAt(s[i..j], at).Some?
    ensures i + at <= |s| && s[i + at..Nul(s, i + at)] == StringAt(s[i..j], at).value
  {
    var k := Nul(s[i..j], at);
    NulUnique(s, i + at, i + k);
    SubSlice(s, i, j, at, k);
  }

  /** The comparisons of _fdt_nodename_eq, p being the address of the name in the blob. */
  predicate SameName(s: seq<byte>, offset: nat, p: nat, name: seq<byte>)
    requires |s| >= HEADER_SIZE
  {
    && OffsetOk(s, offset + 4, |name| + 1) && p + |name| < |s|
    && s[p..p + |name|] == name
    && (s[p + |name|] == 0 || (AT_SIGN !in name && s[p + |name|] == AT_SIGN))
  }

  lemma SameNameExact(s: seq<byte>, offset: nat, name: seq<byte>, j: nat)
    requires Legible(s) && ItemAt(s, offset, j) && j < |Content(s)| && Content(s)[j].Open? && CString(name) && |name| < LIMIT
    ensures |s| >= HEADER_SIZE
    ensures SameName(s, offset, U32(s, 8) + offset + 4, name) <==> NameMatches(Content(s)[j].name, name)
  {
    hide Legible, ItemAt, Content, Region, Readable, Head, U32, NameMatches, TagAt, OffsetOk;
    LegibleParts(s);
    OpenBytes(s, offset, j);
    RegionParts(s);
    OffsetOkExact(s, offset + 4, |name| + 1);
    var nm, b, p := Content(s)[j].name, Region(s), U32(s, 8) + offset + 4;
    if |b| < offset + 4 + |name| + 1 {
      ShortName(nm, name);
    } else {
      var r := b[offset + 4..];
      NameBytes(r, nm, name);
      assert r[..|name|] == s[p..p + |name|] && r[|name|] == s[p + |name|];
    }
  }

  /** _fdt_nodename_eq, at a node. */
  method NodeNameEq(fdt: array<byte>, offset: nat, name: seq<byte>, ghost j: nat) returns (same: bool)
    requires Legible(fdt[..]) && ItemAt(fdt[..], offset, j) && j < |Content(fdt[..])| && Content(fdt[..])[j].Open?
    requires CString(name) && |name| < LIMIT
    ensures same <==> NameMatches(Content(fdt[..])[j].name, name)
  {
    hide Legible, ItemAt, Content, Region, Head, U32, NameMatches, TagAt, OffsetOk;
    SameNameExact(fdt[..], offset, name, j);
    var p := U32(fdt[..], 8) + offset + 4;
    same := SameName(fdt[..], offset, p, name);
  }

  lemma ShortName(nm: seq<byte>, name: seq<byte>)
    requires |nm| < |name|
    ensures !NameMatches(nm, name)
  {
  }

  /** Comparing bytes in place compares the terminated name there. */
  lemma NameBytes(r: seq<byte>, nm: seq<byte>, name: seq<byte>)
    requires |nm| < |r| && r[..|nm|] == nm && r[|nm|] == 0 && CString(nm) && CString(name) && |name| < |r|
    ensures NameMatches(nm, name) <==> r[..|name|] == name && (r[|name|] == 0 || (AT_SIGN !in name && r[|name|] == AT_SIGN))
  {
    if |nm| < |name| {
      assert r[..|name|][|nm|] == 0;
    } else {
      assert r[..|name|] == nm[..|name|];
      if |name| < |nm| { assert r[|name|] == nm[|name|]; }
    }
  }

  // ----- properties

  /** _nextprop, from the boundary before item j. */
  method NextProp(fdt: array<byte>, start: int, ghost j: nat) returns (offset: int)
    requires Legible(fdt[..]) && OnItem(fdt[..], start, j)
    ensures j <= |Content(fdt[..])| && NextPropIs(fdt[..], j, offset)
  {
    hide Legible, Content, OnItem, ItemAt, ItemEnds, Region, TagAt, Readable;
    ghost var s := fdt[..];
    LegibleParts(s);
    offset := start;
    TagTells(s, offset, j);
    while true
      invariant OnItem(s, offset, j)
      decreases |Region(s)| - offset
    {
      TagTells(s, offset, j);
      var tag, next := NextTag(fdt, offset);
      if tag == END {
        return if next >= 0 then -BADSTRUCTURE else next;
      } else if tag == PROP {
        return;
      } else if tag != NOP {
        return -NOTFOUND;
      }
      offset := next;
    }
  }

  ghost predicate NextPropIs(s: seq<byte>, j: nat, offset: int)
    requires j <= |Content(s)|
  {
    if j == |Content(s)| then offset == -BADSTRUCTURE
    else if Content(s)[j].Property? then ItemAt(s, offset, j) && offset >= 0
    else offset == -NOTFOUND
  }

  /** The answer of fdt_get_property_namelen: the property's offset and length, or a negative error. */
  ghost predicate PropertyIs(s: seq<byte>, hit: Hit, offset: int, len: int)
  {
    match hit
    case Hit(i) => 0 <= i < |Content(s)| && ItemAt(s, offset, i) && offset >= 0 && Content(s)[i].Property? && len == |Content(s)[i].val|
    case Miss => offset == len == -NOTFOUND
    case Cut => offset == len == -BADSTRUCTURE
  }

  /** fdt_get_property_namelen at a node: what FindKey finds among its properties. */
  method GetProperty(fdt: array<byte>, node: int, key: seq<byte>, ghost j: nat) returns (offset: int, len: int)
    requires Legible(fdt[..]) && node < LIMIT - 4 && OnItem(fdt[..], node, j)
    ensures var s := fdt[..];
      if TagAt(Region(s), node).tag == BEGIN_NODE then j < |Content(s)| && PropertyIs(s, FindKey(Content(s), j + 1, key), offset, len)
      else offset == len == -BADOFFSET
  {
    hide Legible, Content, OnItem, ItemAt, ItemEnds, Region, TagAt, Readable, PropertyIs;
    ghost var s := fdt[..];
    LegibleParts(s);
    TagTells(s, node, j);
    offset := CheckNodeOffset(fdt, node);
    if offset < 0 {
      return offset, offset;
    }
    offset, len := SearchProps(fdt, offset, key, j + 1);
  }

  /** The loop of fdt_get_property_namelen, from the boundary before item j. */
  method SearchProps(fdt: array<byte>, start: int, key: seq<byte>, ghost j: nat) returns (offset: int, len: int)
    requires Legible(fdt[..]) && OnItem(fdt[..], start, j)
    ensures j <= |Content(fdt[..])| && PropertyIs(fdt[..], FindKey(Content(fdt[..]), j, key), offset, len)
  {
    hide Legible, Content, OnItem, ItemAt, ItemEnds, Region, TagAt, Readable, Head, U32, FindKey, StringAt, Strings, PropSearch, PropertyIs;
    ghost var s := fdt[..];
    LegibleParts(s);
    offset := NextProp(fdt, start, j);
    ghost var i := j;
    PropSearchStarts(s, j, key, offset);
    while offset >= 0
      invariant i <= |Content(s)| && PropSearch(s, j, key, i, offset)
      decreases |Content(s)| - i
    {
      PropSearchAt(s, j, key, i, offset);
      var end, same;
      end, len, same := ComparedProp(fdt, offset, key, i);
      if same {
        PropSearchHits(s, j, key, i, offset, len);
        return;
      }
      ghost var o := offset;
      i := i + 1;
      offset := NextProp(fdt, end, i);
      PropSearchGoesOn(s, j, key, i, o, offset);
    }
    PropSearchFails(s, j, key, i, offset);
    len := offset;
  }

  /** One turn of the loop: the end of the property at offset, its length, and whether it has the name. */
  method ComparedProp(fdt: array<byte>, offset: int, key: seq<byte>, ghost i: nat) returns (end: int, len: int, same: bool)
    requires Legible(fdt[..]) && ItemAt(fdt[..], offset, i) && i < |Content(fdt[..])| && Content(fdt[..])[i].Property?
    ensures OnItem(fdt[..], end, i + 1) && len == |Content(fdt[..])[i].val| && (same <==> Content(fdt[..])[i].key == key)
  {
    hide Legible, Content, OnItem, ItemAt, Region, TagAt, Readable, Head, U32, StringAt, Strings;
    ghost var s := fdt[..];
    LegibleParts(s);
    PropertyHere(s, offset, i);
    end := CheckPropOffset(fdt, offset);
    var base := U32(fdt[..], 8) + offset;
    len := U32(fdt[..], base + 4);
    same := StringEq(fdt, U32(fdt[..], base + 8), key);
  }

  /** The search is at item i, every property before it having another name. */
  ghost predicate PropSearch(s: seq<byte>, j: nat, key: seq<byte>, i: nat, offset: int)
  {
    j <= i <= |Content(s)| && NextPropIs(s, i, offset) && FindKey(Content(s), j, key) == FindKey(Content(s), i, key)
  }

  lemma PropSearchStarts(s: seq<byte>, j: nat, key: seq<byte>, offset: int)
    requires j <= |Content(s)| && NextPropIs(s, j, offset)
    ensures PropSearch(s, j, key, j, offset)
  {
  }

  lemma PropSearchAt(s: seq<byte>, j: nat, key: seq<byte>, i: nat, offset: int)
    requires PropSearch(s, j, key, i, offset) && offset >= 0
    ensures j <= i < |Content(s)| && ItemAt(s, offset, i) && Content(s)[i].Property?
  {
  }

  lemma PropSearchHits(s: seq<byte>, j: nat, key: seq<byte>, i: nat, offset: int, len: int)
    requires PropSearch(s, j, key, i, offset) && offset >= 0 && i < |Content(s)| && Content(s)[i].Property?
    requires Content(s)[i].key == key && len == |Content(s)[i].val|
    ensures j <= |Content(s)| && PropertyIs(s, FindKey(Content(s), j, key), offset, len)
  {
    hide Content, ItemAt;
    KeyStep(Content(s), i, key);
  }

  lemma PropSearchGoesOn(s: seq<byte>, j: nat, key: seq<byte>, i: nat, o: int, offset: int)
    requires 0 < i <= |Content(s)| && PropSearch(s, j, key, i - 1, o) && o >= 0 && NextPropIs(s, i, offset)
    requires Content(s)[i - 1].Property? ==> Content(s)[i - 1].key != key
    ensures PropSearch(s, j, key, i, offset)
  {
    hide Content, ItemAt;
    KeyStep(Content(s), i - 1, key);
  }

  lemma PropSearchFails(s: seq<byte>, j: nat, key: seq<byte>, i: nat, offset: int)
    requires PropSearch(s, j, key, i, offset) && offset < 0
    ensures j <= |Content(s)| && PropertyIs(s, FindKey(Content(s), j, key), offset, offset)
  {
    hide Content, ItemAt;
    KeyStep(Content(s), i, key);
  }

  lemma KeyStep(n: seq<Item>, i: nat, key: seq<byte>)
    requires i <= |n|
    ensures FindKey(n, i, key) ==
            if i == |n| then Cut else if !n[i].Property? then Miss else if n[i].key == key then Hit(i) else FindKey(n, i + 1, key)
  {
  }

  /** What is read of a property, in the words of the blob. */
  lemma PropertyHere(s: seq<byte>, o: int, i: int)
    requires Legible(s) && ItemAt(s, o, i) && 0 <= i < |Content(s)| && Content(s)[i].Property?
    ensures HEADER_SIZE <= |s| && 0 <= o < LIMIT - 4 && o % 4 == 0 && TagAt(Region(s), o).tag == PROP && TagAt(Region(s), o).next >= 0
    ensures OnItem(s, TagAt(Region(s), o).next, i + 1)
    ensures var p := U32(s, 8) + o;
      && p + 12 + |Content(s)[i].val| <= |s| && U32(s, p + 4) == |Content(s)[i].val|
      && StringAt(Strings(s), U32(s, p + 8)) == Some(Content(s)[i].key)
  {
    hide Legible, Content, Region, TagAt, Readable, Head, U32, Strings, ItemEnds;
    LegibleParts(s);
    assert OnItem(s, o, i);
    hide OnItem, ItemAt;
    PropertyBytes(s, o, i);
    TagTells(s, o, i);
    RegionParts(s);
    RegionWord(s, o + 4);
    RegionWord(s, o + 8);
  }

  // ----- children

  /** fdt_subnode_offset_namelen at a node: the first child FirstChild finds. */
  method SubnodeOffset(fdt: array<byte>, node: nat, name: seq<byte>, ghost j: nat) returns (offset: int)
    requires Legible(fdt[..]) && 0 <= node < LIMIT - 4 && OnItem(fdt[..], node, j) && CString(name) && |name| < LIMIT
    ensures var s := fdt[..];
      if CheckHeader(s) != 0 then offset == CheckHeader(s)
      else if TagAt(Region(s), node).tag != BEGIN_NODE then offset == -BADOFFSET
      else j < |Content(s)| && ChildIs(s, FirstChild(Visits(Content(s), j + 1, 0), Content(s), name), offset)
  {
    hide Legible, Content, OnItem, ItemAt, ItemEnds, Region, TagAt, Readable, Head, U32, NameMatches, CheckHeader, FirstChild, Visits,
         NextAnswer;
    ghost var s := fdt[..];
    LegibleParts(s);
    var err := CheckHeader(fdt[..]);
    if err != 0 {
      return err;
    }
    TagTells(s, node, j);
    var depth := 0;
    offset := node;
    ghost var i := j;
    SearchStarts(s, node, j, name);
    while offset >= 0 && depth >= 0
      invariant 0 <= i <= |Content(s)| && (offset >= 0 && depth >= 0 ==> OnItem(s, offset, i) && offset < LIMIT - 4)
      invariant ChildSearch(s, node, j, name, i, offset, depth)
      decreases |Content(s)| - i, offset
    {
      if depth == 1 {
        var same := NodeNameEq(fdt, offset, name, i);
        if same {
          SearchHits(s, node, j, name, i, offset);
          return;
        }
      }
      ghost var o0, d0 := offset, depth;
      offset, depth := NextNode(fdt, offset, depth, i);
      i := SearchGoesOn(s, node, j, name, i, o0, d0, offset, depth);
    }
    if depth < 0 {
      return -NOTFOUND;
    }
  }

  lemma SearchHits(s: seq<byte>, node: nat, j: nat, name: seq<byte>, i: nat, offset: int)
    requires ChildSearch(s, node, j, name, i, offset, 1) && offset >= 0
    requires i < |Content(s)| && Content(s)[i].Open? && NameMatches(Content(s)[i].name, name)
    ensures TagAt(Region(s), node).tag == BEGIN_NODE && j < |Content(s)| && ItemAt(s, offset, i)
    ensures FirstChild(Visits(Content(s), j + 1, 0), Content(s), name) == Some(i)
  {
    hide Content, ItemAt, Region, TagAt, NameMatches, Visits;
  }

  /** The state of the child search: at the node of item i, or done. */
  ghost predicate ChildSearch(s: seq<byte>, node: nat, j: nat, name: seq<byte>, i: nat, offset: int, depth: int)
  {
    var n := Content(s);
    if TagAt(Region(s), node).tag != BEGIN_NODE then depth == 0 && (offset == -BADOFFSET || (offset == node && i == j))
    else
      && j < |n|
      && var found := FirstChild(Visits(n, j + 1, 0), n, name);
        if offset >= 0 && depth >= 0 then
          i < |n| && ItemAt(s, offset, i) && n[i].Open? && found == FirstChild([Visit(i, depth)] + Visits(n, i + 1, depth), n, name)
        else found == None && (depth < 0 || offset == -NOTFOUND)
  }

  lemma SearchStarts(s: seq<byte>, node: nat, j: nat, name: seq<byte>)
    requires Legible(s) && OnItem(s, node, j) && node >= 0
    ensures ChildSearch(s, node, j, name, j, node, 0)
  {
    hide Legible, Content, OnItem, ItemAt, ItemEnds, Region, TagAt, NameMatches;
    TagTells(s, node, j);
    if TagAt(Region(s), node).tag == BEGIN_NODE {
      var vs := Visits(Content(s), j + 1, 0);
      assert ([Visit(j, 0)] + vs)[1..] == vs;
    }
  }

  lemma SearchGoesOn(s: seq<byte>, node: nat, j: nat, name: seq<byte>, i: nat, o: int, d: int, offset: int, depth: int) returns (i': nat)
    requires Legible(s) && OnItem(s, o, i) && o >= 0 && d >= 0 && ChildSearch(s, node, j, name, i, o, d)
    requires NextAnswer(s, o, d, i, offset, depth)
    requires d == 1 ==> i < |Content(s)| && (Content(s)[i].Open? ==> !NameMatches(Content(s)[i].name, name))
    ensures ChildSearch(s, node, j, name, i', offset, depth)
    ensures i <= i' <= |Content(s)| && (i' == i ==> offset < 0)
    ensures offset >= 0 && depth >= 0 ==> OnItem(s, offset, i') && offset < LIMIT - 4
  {
    hide Legible, Content, Region, TagAt, NameMatches;
    TagTells(s, o, i);
    if TagAt(Region(s), node).tag != BEGIN_NODE {
      return i;
    }
    OpenBytes(s, o, i);
    var n := Content(s);
    var scan := NextOpen(n, i + 1, d);
    var vs := Visits(n, i + 1, d);
    assert ([Visit(i, d)] + vs)[1..] == vs;
    assert FirstChild([Visit(i, d)] + vs, n, name) == FirstChild(vs, n, name);
    match scan
    case Found(k, e) => TagTells(s, offset, k); return k;
    case Closed(k, e) => assert FirstChild([], n, name) == None; return |n|;
    case Finished(e) => assert FirstChild([], n, name) == None; return i;
  }

  ghost predicate ChildIs(s: seq<byte>, found: Option<nat>, offset: int)
  {
    match found
    case Some(i) => ItemAt(s, offset, i) && offset >= 0
    case None => offset == -NOTFOUND
  }

  // ----- names

  /** fdt_get_name at a node: where the name starts in the structure block, and its length. */
  method GetName(fdt: array<byte>, node: nat, ghost j: nat) returns (at: int, len: int)
    requires Legible(fdt[..]) && CheckHeader(fdt[..]) == 0 && node < LIMIT - 4 && OnItem(fdt[..], node, j)
    ensures var s := fdt[..];
      if TagAt(Region(s), node).tag != BEGIN_NODE then at == len == -BADOFFSET
      else j < |Content(s)| && Content(s)[j].Open? && at == node + 4 && len == |Content(s)[j].name|
  {
    hide Legible, Content, OnItem, ItemAt, ItemEnds, Region, TagAt, Readable, Head, U32, CheckHeader;
    ghost var s := fdt[..];
    LegibleParts(s);
    TagTells(s, node, j);
    var err := CheckHeader(fdt[..]);
    if err != 0 {
      return err, err;
    }
    err := CheckNodeOffset(fdt, node);
    if err < 0 {
      return err, err;
    }
    assert fdt[..] == s;
    NameLength(s, node, j);
    var p := U32(fdt[..], 8) + node + 4;
    return node + 4, Nul(fdt[..], p) - p;
  }

  lemma NameLength(s: seq<byte>, o: nat, j: nat)
    requires Legible(s) && ItemAt(s, o, j) && j < |Content(s)| && Content(s)[j].Open?
    ensures |s| >= HEADER_SIZE && var p := U32(s, 8) + o + 4; p <= |s| && Nul(s, p) == p + |Content(s)[j].name|
  {
    hide Legible, Content, ItemAt, Region, Readable, U32, TagAt;
    LegibleParts(s);
    OpenBytes(s, o, j);
    RegionParts(s);
    NulOfSlice(s, U32(s, 8), U32(s, 8) + |Region(s)|, o + 4, Content(s)[j].name);
  }

  lemma NulOfSlice(s: seq<byte>, i: nat, j: nat, o: nat, name: seq<byte>)
    requires i <= j <= |s| && o + |name| < j - i && s[i..j][o..o + |name|] == name && s[i..j][o + |name|] == 0 && CString(name)
    ensures Nul(s, i + o) == i + o + |name|
  {
    forall k | i + o <= k < i + o + |name| ensures s[k] != 0 {
      assert s[k] == s[i..j][o..o + |name|][k - i - o];
    }
    NulUnique(s, i + o, i + o + |name|);
  }

  // ----- ancestors

  /** The offset recorded so far for the ancestor at depth sd. */
  ghost predicate SuperIs(s: seq<byte>, found: Option<nat>, super: int)
  {
    match found
    case None => super == -INTERNAL
    case Some(i) => ItemAt(s, super, i)
  }

  /** fdt_supernode_atdepth_offset is at the m-th node of the preorder. */
  ghost predicate Climbing(s: seq<byte>, t: Tree, p: Path, sd: int, m: nat, offset: int, depth: int, super: int)
  {
    var l := Listing(t, 0, 0);
    && HasNode(t, p) && m < |UpTo(t, p, 0, 0)| <= |l| && ItemAt(s, offset, l[m].at) && OnItem(s, offset, l[m].at)
    && l[m].at < |Content(s)| && Content(s)[l[m].at].Open?
    && depth == l[m].depth && Visits(Content(s), l[m].at + 1, depth) == l[m + 1..]
    && SuperIs(s, LastAt(l[..m], sd), super)
  }

  lemma ClimbStarts(s: seq<byte>, t: Tree, p: Path, sd: int)
    requires Denotes(s, t) && HasNode(t, p) && ItemAt(s, 0, 0)
    ensures Climbing(s, t, p, sd, 0, 0, 0, -INTERNAL)
  {
    hide Denotes, Legible, Content, ItemAt, OnItem, Flatten, Visits, ListingAll, UpTo, LastScan;
    DenotesText(s, t);
    VisitsRoot(t);
    ListingReaches(t, p, 0, 0);
    ItemOnBoundary(s, 0, 0);
    RootOpens(t);
    var l := Listing(t, 0, 0);
    assert l[0] == Visit(0, 0) && l[..0] == [];
    assert ([Visit(0, 0)] + Visits(Flatten(t), 1, 0))[1..] == Visits(Flatten(t), 1, 0);
  }

  lemma RootOpens(t: Tree)
    ensures Flatten(t)[0] == Open(t.name)
  {
  }

  /** The node is reached exactly at the last of the nodes up to it, and no earlier node lies behind it. */
  lemma ClimbMeets(s: seq<byte>, t: Tree, p: Path, sd: int, m: nat, offset: int, depth: int, super: int, node: int)
    requires Denotes(s, t) && NodeAt(s, t, p, node) && Climbing(s, t, p, sd, m, offset, depth, super)
    ensures m < |UpTo(t, p, 0, 0)| && offset <= node && (offset == node <==> m == |UpTo(t, p, 0, 0)| - 1)
    ensures offset == node ==> depth == |p|
  {
    hide Denotes, Legible, Content, ItemAt, OnItem, Flatten, Visits, ListingAll, UpTo, IndexOf, Listing, Region, Strings, SuperIs;
    DenotesText(s, t);
    ListingReaches(t, p, 0, 0);
    ListingIncreasing(t, 0, 0);
    var l := Listing(t, 0, 0);
    var m' := |UpTo(t, p, 0, 0)| - 1;
    assert l[m'] == UpTo(t, p, 0, 0)[m'];
    ItemsOrdered(s, offset, l[m].at, node, l[m'].at);
  }

  lemma ItemsOrdered(s: seq<byte>, o: int, j: int, o': int, j': int)
    requires Legible(s) && ItemAt(s, o, j) && ItemAt(s, o', j')
    ensures (o < o' <==> j < j') && (o == o' <==> j == j')
  {
    hide HasAllItems, Starts, Region, Strings;
    StartsOrdered(Region(s), Strings(s), o, j, o', j');
  }

  /** Recording the node and going on to the next one. */
  lemma ClimbGoesOn(s: seq<byte>, t: Tree, p: Path, sd: int, m: nat, o: int, d: int, super: int, super': int, offset: int, depth: int)
    requires Denotes(s, t) && Climbing(s, t, p, sd, m, o, d, super) && m + 1 < |UpTo(t, p, 0, 0)|
    requires super' == (if d == sd then o else super) && o >= 0
    requires NextAnswer(s, o, d, Listing(t, 0, 0)[m].at, offset, depth)
    ensures offset >= 0 && offset < LIMIT - 4 && Climbing(s, t, p, sd, m + 1, offset, depth, super')
  {
    hide Denotes, Legible, Content, ItemAt, OnItem, ItemEnds, Flatten, ListingAll, UpTo, IndexOf, Listing, Region, Strings, TagAt;
    DenotesText(s, t);
    var l := Listing(t, 0, 0);
    TagTells(s, o, l[m].at);
    OpenBytes(s, o, l[m].at);
    var n := Content(s);
    assert Visits(n, l[m].at + 1, d)[0] == l[m + 1];
    assert Visits(n, l[m].at + 1, d)[1..] == l[m + 2..];
    ItemOnBoundary(s, offset, l[m + 1].at);
    TagTells(s, offset, l[m + 1].at);
    Recorded(s, l, m, sd, o, super, super');
  }

  lemma Recorded(s: seq<byte>, l: seq<Visit>, m: nat, sd: int, o: int, super: int, super': int)
    requires m < |l| && SuperIs(s, LastAt(l[..m], sd), super) && ItemAt(s, o, l[m].at)
    requires super' == if l[m].depth == sd then o else super
    ensures SuperIs(s, LastAt(l[..m + 1], sd), super')
  {
    hide ItemAt;
    assert l[..m + 1][..m] == l[..m];
  }

  /** At the node, what was recorded is its ancestor at depth sd. */
  lemma ClimbEnds(s: seq<byte>, t: Tree, p: Path, sd: nat, m: nat, o: int, super: int, super': int)
    requires Denotes(s, t) && Climbing(s, t, p, sd, m, o, |p|, super) && m + 1 == |UpTo(t, p, 0, 0)| && sd <= |p|
    requires super' == (if |p| == sd then o else super)
    ensures HasNode(t, p[..sd]) && NodeAt(s, t, p[..sd], super') && super' >= 0
  {
    hide Denotes, Legible, Content, ItemAt, OnItem, Flatten, ListingAll, UpTo, IndexOf, Listing, Visits;
    var l := Listing(t, 0, 0);
    Recorded(s, l, m, sd, o, super, super');
    ListingReaches(t, p, 0, 0);
    assert l[..m + 1] == UpTo(t, p, 0, 0);
    AncestorIsLast(t, p, 0, 0, sd);
    ItemNotNegative(s, super', IndexOf(t, p[..sd]));
  }

  lemma ItemNotNegative(s: seq<byte>, o: int, j: int)
    requires ItemAt(s, o, j)
    ensures o >= 0
  {
  }

  /** The ancestor at depth sd of the node at p, the node itself for sd == |p|. Everything is counted from
      offset 0, so the root must be there: on a blob that starts with a NOP the search fails. */
  ghost predicate SuperResult(s: seq<byte>, t: Tree, p: Path, sd: int, r: int, depth: int)
  {
    && HasNode(t, p)
    && if sd < 0 then r == -NOTFOUND
       else if !ItemAt(s, 0, 0) then r == -BADSTRUCTURE
       else depth == |p| && if sd > |p| then r == -NOTFOUND else HasNode(t, p[..sd]) && NodeAt(s, t, p[..sd], r) && r >= 0
  }

  /** fdt_supernode_atdepth_offset */
  method Supernode(fdt: array<byte>, node: nat, sd: int, ghost t: Tree, ghost p: Path) returns (r: int, nodedepth: int)
    requires Denotes(fdt[..], t) && NodeAt(fdt[..], t, p, node)
    ensures SuperResult(fdt[..], t, p, sd, r, nodedepth)
  {
    hide Denotes, Legible, Content, OnItem, ItemAt, Region, TagAt, IndexOf, Flatten, CheckHeader, Climbing, Listing, UpTo, Readable, NextAnswer;
    ghost var s := fdt[..];
    nodedepth := 0;
    DenotesText(s, t);
    NodeText(s, t, p, node);
    LegibleParts(s);
    var err := CheckHeader(fdt[..]);
    if err != 0 {
      return err, nodedepth;
    }
    if sd < 0 {
      return -NOTFOUND, nodedepth;
    }
    var super := -INTERNAL;
    var offset, depth := 0, 0;
    ghost var m := 0;
    ghost var rooted := ItemAt(s, 0, 0);
    if rooted { ClimbStarts(s, t, p, sd); } else { Unrooted(s, t, p, node); }
    while offset >= 0 && offset <= node
      invariant rooted ==> Climbing(s, t, p, sd, m, offset, depth, super) && 0 <= offset <= node
      invariant !rooted ==> offset == 0 || offset == -BADOFFSET
      decreases if rooted then |UpTo(t, p, 0, 0)| - m else 1, offset + 4
    {
      ghost var was := super;
      if depth == sd {
        super := offset;
      }
      if rooted { ClimbMeets(s, t, p, sd, m, offset, depth, was, node); }
      if offset == node {
        nodedepth := depth;
        if sd > depth {
          return -NOTFOUND, nodedepth;
        }
        ClimbEnds(s, t, p, sd, m, offset, was, super);
        return super, nodedepth;
      }
      ghost var o, d, i := offset, depth, 0;
      if rooted {
        ClimbAt(s, t, p, sd, m, o, d, was);
        i := Listing(t, 0, 0)[m].at;
      }
      offset, depth := NextNode(fdt, offset, depth, i);
      assert fdt[..] == s;
      if rooted {
        ClimbGoesOn(s, t, p, sd, m, o, d, was, super, offset, depth);
        m := m + 1;
        ClimbMeets(s, t, p, sd, m, offset, depth, super, node);
      } else {
        UnrootedAnswer(s, t, p, node, d, offset, depth);
      }
    }
    if offset == -NOTFOUND || offset >= 0 {
      return -BADOFFSET, nodedepth;
    } else if offset == -BADOFFSET {
      return -BADSTRUCTURE, nodedepth;
    }
    return offset, nodedepth;
  }

  lemma ClimbAt(s: seq<byte>, t: Tree, p: Path, sd: int, m: nat, o: int, d: int, super: int)
    requires Climbing(s, t, p, sd, m, o, d, super)
    ensures m < |Listing(t, 0, 0)| && OnItem(s, o, Listing(t, 0, 0)[m].at)
  {
  }

  /** Without a root at offset 0 there is a NOP there. */
  lemma Unrooted(s: seq<byte>, t: Tree, p: Path, node: int)
    requires Denotes(s, t) && NodeAt(s, t, p, node) && !ItemAt(s, 0, 0)
    ensures TagAt(Region(s), 0).tag != BEGIN_NODE && node > 0 && OnItem(s, 0, 0)
  {
    hide Denotes, Legible, Content, ItemAt, OnItem, Flatten, IndexOf, Region, TagAt;
    DenotesText(s, t);
    NodeText(s, t, p, node);
    LegibleParts(s);
    TagTells(s, 0, 0);
  }

  lemma UnrootedAnswer(s: seq<byte>, t: Tree, p: Path, node: int, d: int, offset: int, depth: int)
    requires Denotes(s, t) && NodeAt(s, t, p, node) && !ItemAt(s, 0, 0) && NextAnswer(s, 0, d, 0, offset, depth)
    ensures offset == -BADOFFSET
  {
    hide Denotes, Content, ItemAt, OnItem, Flatten, IndexOf, Region, TagAt;
    Unrooted(s, t, p, node);
  }

  /** fdt_node_depth */
  method NodeDepth(fdt: array<byte>, node: nat, ghost t: Tree, ghost p: Path) returns (r: int)
    requires Denotes(fdt[..], t) && NodeAt(fdt[..], t, p, node)
    ensures r == if ItemAt(fdt[..], 0, 0) then |p| else -BADSTRUCTURE
  {
    hide Denotes, ItemAt, Flatten, IndexOf;
    var err, depth := Supernode(fdt, node, 0, t, p);
    RootAtZero(fdt[..], t, p, err);
    if err != 0 {
      return if err < 0 then err else -INTERNAL;
    }
    return depth;
  }

  lemma RootAtZero(s: seq<byte>, t: Tree, p: Path, r: int)
    requires Denotes(s, t) && HasNode(t, p) && ItemAt(s, 0, 0) ==> HasNode(t, p[..0]) && NodeAt(s, t, p[..0], r)
    ensures Denotes(s, t) && HasNode(t, p) && ItemAt(s, 0, 0) ==> r == 0
  {
    hide ItemAt, Flatten, Denotes, Legible, Content;
    if Denotes(s, t) && HasNode(t, p) && ItemAt(s, 0, 0) {
      DenotesText(s, t);
      assert p[..0] == [];
      ItemsOrdered(s, 0, 0, r, 0);
    }
  }

  /** fdt_parent_offset */
  method ParentOffset(fdt: array<byte>, node: nat, ghost t: Tree, ghost p: Path) returns (r: int)
    requires Denotes(fdt[..], t) && NodeAt(fdt[..], t, p, node)
    ensures var s := fdt[..];
      if !ItemAt(s, 0, 0) then r == -BADSTRUCTURE
      else if p == [] then r == -NOTFOUND
      else HasNode(t, p[..|p| - 1]) && NodeAt(s, t, p[..|p| - 1], r)
  {
    hide Denotes, ItemAt, Flatten, IndexOf;
    var depth := NodeDepth(fdt, node, t, p);
    if depth < 0 {
      return depth;
    }
    var d;
    r, d := Supernode(fdt, node, depth - 1, t, p);
  }

  // ----- enumerating children (fdt.c)

  /** fdt_first_subnode */
  method FirstSubnode(fdt: array<byte>, node: nat, ghost t: Tree, ghost p: Path) returns (r: int)
    requires Denotes(fdt[..], t) && NodeAt(fdt[..], t, p, node)
    ensures if NodeOf(t, p).kids == [] then r == -NOTFOUND else HasNode(t, p + [0]) && NodeAt(fdt[..], t, p + [0], r) && r >= 0
  {
    hide Denotes, Legible, Content, OnItem, ItemAt, ItemEnds, Region, TagAt, IndexOf, Flatten, Here, Readable, Visits, FlattenAll;
    ghost var s := fdt[..];
    ghost var u := NodeOf(t, p);
    NodeText(s, t, p, node);
    FirstOfNode(Content(s), IndexOf(t, p), u);
    FirstVisit(Content(s), IndexOf(t, p) + 1, 0);
    var depth;
    r, depth := NextNode(fdt, node, 0, IndexOf(t, p));
    assert fdt[..] == s;
    if u.kids != [] { KidPath(t, p, 0); }
    if r < 0 || depth != 1 {
      return -NOTFOUND;
    }
  }

  lemma FirstVisit(n: seq<Item>, j: nat, d: int)
    requires j <= |n|
    ensures NextOpen(n, j, d).Found? <==> Visits(n, j, d) != []
    ensures Visits(n, j, d) != [] ==> var v := Visits(n, j, d)[0]; NextOpen(n, j, d) == Found(v.at, v.depth)
  {
  }

  /** What fdt_next_subnode looks for, from item i on. */
  ghost predicate Sideways(s: seq<byte>, found: Option<nat>, i: nat, offset: int, d: int)
  {
    && i < |Content(s)| && Content(s)[i].Open? && OnItem(s, offset, i) && 0 <= offset < LIMIT - 4 && d >= 1
    && found == FirstTop(Visits(Content(s), i + 1, d))
  }

  lemma SidewaysOn(s: seq<byte>, found: Option<nat>, i: nat, o: int, d: int, offset: int, depth: int)
    requires Legible(s) && Sideways(s, found, i, o, d) && TagAt(Region(s), o).tag == BEGIN_NODE && NextAnswer(s, o, d, i, offset, depth)
    ensures var scan := NextOpen(Content(s), i + 1, d);
      && (offset < 0 || depth < 1 <==> !scan.Found?)
      && (!scan.Found? ==> found == None)
      && (scan.Found? ==> i < scan.at && ItemAt(s, offset, scan.at) && TagAt(Region(s), offset).tag == BEGIN_NODE)
      && (scan.Found? && depth <= 1 ==> found == Some(scan.at))
      && (scan.Found? && depth > 1 ==> Sideways(s, found, scan.at, offset, depth))
  {
    hide Legible, Content, OnItem, ItemAt, ItemEnds, Region, TagAt, Strings;
    var n := Content(s);
    var scan := NextOpen(n, i + 1, d);
    if scan.Found? {
      ItemOnBoundary(s, offset, scan.at);
      OpenBytes(s, offset, scan.at);
      TagTells(s, offset, scan.at);
      assert Visits(n, i + 1, d)[1..] == Visits(n, scan.at + 1, scan.depth);
    }
  }

  /** fdt_next_subnode: the next child of the same parent. */
  method NextSubnode(fdt: array<byte>, node: nat, ghost t: Tree, ghost p: Path) returns (r: int)
    requires Denotes(fdt[..], t) && NodeAt(fdt[..], t, p, node)
    ensures NextKidIs(fdt[..], t, p, r)
  {
    hide Denotes, Legible, Content, OnItem, ItemAt, ItemEnds, Region, TagAt, IndexOf, Flatten, Here, Readable, Visits, FirstTop, NextOpen,
         NextAnswer;
    ghost var s := fdt[..];
    NodeText(s, t, p, node);
    NextKidFound(s, t, p);
    ghost var i, found := IndexOf(t, p), FirstTop(Visits(Content(s), IndexOf(t, p) + 1, 1));
    var depth := 1;
    r := node;
    ghost var at := 0;
    while true
      invariant Sideways(s, found, i, r, depth) && TagAt(Region(s), r).tag == BEGIN_NODE
      decreases |Content(s)| - i
    {
      ghost var o, d := r, depth;
      r, depth := NextNode(fdt, r, depth, i);
      assert fdt[..] == s;
      SidewaysOn(s, found, i, o, d, r, depth);
      if r < 0 || depth < 1 {
        return -NOTFOUND;
      }
      i := NextOpen(Content(s), i + 1, d).at;
      if depth <= 1 {
        return;
      }
    }
  }

  /** The answer of fdt_next_subnode: the sibling after the node at p, if it has a parent and one follows. */
  ghost predicate NextKidIs(s: seq<byte>, t: Tree, p: Path, r: int)
  {
    && HasNode(t, p)
    && if p != [] && HasNode(t, Beside(p)) then NodeAt(s, t, Beside(p), r) else r == -NOTFOUND
  }

  /** The path of the next sibling. */
  function Beside(p: Path): Path
    requires p != []
  {
    p[..|p| - 1] + [p[|p| - 1] + 1]
  }

  lemma NextKidFound(s: seq<byte>, t: Tree, p: Path)
    requires Denotes(s, t) && HasNode(t, p)
    ensures IndexOf(t, p) + 1 <= |Content(s)|
    ensures FirstTop(Visits(Content(s), IndexOf(t, p) + 1, 1))
         == if p != [] && HasNode(t, Beside(p)) then Some(IndexOf(t, Beside(p))) else None
  {
    hide Denotes, Legible, Content, Flatten, Here, Visits, FirstTop, IndexOf, HasNode, KidAt;
    DenotesText(s, t);
    if p == [] {
      NextOfRoot(t);
      RootIndex(t);
    } else {
      var q, i := p[..|p| - 1], p[|p| - 1];
      assert p == q + [i];
      SiblingFound(t, q, i);
    }
  }

  lemma SiblingFound(t: Tree, q: Path, i: nat)
    requires HasNode(t, q + [i])
    ensures IndexOf(t, q + [i]) + 1 <= Size(t)
    ensures FirstTop(Visits(Flatten(t), IndexOf(t, q + [i]) + 1, 1))
         == if HasNode(t, q + [i + 1]) then Some(IndexOf(t, q + [i + 1])) else None
  {
    hide Flatten, Here, Visits, FirstTop, IndexOf, HasNode, KidAt, NodeOf;
    ParentHas(t, q, i);
    ParentMayHave(t, q, i + 1);
    KidPath(t, q, i);
    NodeHere(t, q);
    NextOfKid(Flatten(t), IndexOf(t, q), NodeOf(t, q), i);
    if i + 1 < |NodeOf(t, q).kids| { KidPath(t, q, i + 1); }
  }

  lemma {:induction false} ParentHas(t: Tree, q: Path, i: nat)
    requires HasNode(t, q + [i])
    ensures HasNode(t, q) && i < |NodeOf(t, q).kids|
  {
    if q != [] {
      assert (q + [i])[1..] == q[1..] + [i] && (q + [i])[0] == q[0];
      ParentHas(t.kids[q[0]], q[1..], i);
    }
  }

  lemma ParentMayHave(t: Tree, q: Path, i: nat)
    requires HasNode(t, q)
    ensures HasNode(t, q + [i]) <==> i < |NodeOf(t, q).kids|
  {
    if i < |NodeOf(t, q).kids| { KidPath(t, q, i); }
    if HasNode(t, q + [i]) { ParentHas(t, q, i); }
  }
}
