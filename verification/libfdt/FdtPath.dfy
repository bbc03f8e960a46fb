/** fdt_ro.c: from paths to nodes and back. */
module FdtPath {

  import opened Bytes
  import opened Tokens
  import opened Trees
  import opened Blob
  import opened Copy
  import opened Cursor
  import opened Fdt
  import opened FdtRo
  import opened Walk
  import opened Lookup
  import opened Nodes
  import opened Paths

  // ----- fdt_path_offset

  /** The node the path names, in a blob whose root is at offset 0. */
  ghost predicate PathResult(s: seq<byte>, t: Tree, path: seq<byte>, r: int)
  {
    if ItemAt(s, 0, 0) then
      var found := Find(t, [], path);
      if found.Some? then HasNode(t, found.value) && NodeAt(s, t, found.value, r) && r >= 0 else r == -NOTFOUND
    else r == if DropSlashes(path) == [] then 0 else -BADOFFSET
  }

  /** The node reached so far, i being how much of the path is read. */
  ghost predicate Reached(s: seq<byte>, t: Tree, path: seq<byte>, i: nat, p: Path, offset: int)
  {
    && i <= |path| && offset >= 0
    && if ItemAt(s, 0, 0) then HasNode(t, p) && NodeAt(s, t, p, offset) && Find(t, [], path) == Find(t, p, path[i..])
       else offset == 0 && DropSlashes(path) == DropSlashes(path[i..])
  }

  lemma ReachedRoot(s: seq<byte>, t: Tree, path: seq<byte>)
    ensures Reached(s, t, path, 0, [], 0)
  {
    hide ItemAt;
    assert path[0..] == path;
    RootIndex(t);
  }

  /** The first position at or after i that is not a slash. */
  method SkipSlashes(path: seq<byte>, i: nat) returns (k: nat)
    requires i <= |path|
    ensures i <= k <= |path| && (forall x :: i <= x < k ==> path[x] == SLASH) && (k < |path| ==> path[k] != SLASH)
  {
    k := i;
    while k < |path| && path[k] == SLASH
      invariant i <= k <= |path| && forall x :: i <= x < k ==> path[x] == SLASH
    {
      k := k + 1;
    }
  }

  /** memchr for the slash after a name. */
  method NameStop(path: seq<byte>, i: nat) returns (k: nat)
    requires i < |path| && path[i] != SLASH
    ensures i < k <= |path| && (forall x :: i <= x < k ==> path[x] != SLASH) && (k < |path| ==> path[k] == SLASH)
  {
    k := i;
    while k < |path| && path[k] != SLASH
      invariant i <= k <= |path| && forall x :: i <= x < k ==> path[x] != SLASH
    {
      k := k + 1;
    }
  }

  lemma {:induction false} ReachedSlashes(s: seq<byte>, t: Tree, path: seq<byte>, i: nat, k: nat, p: Path, offset: int)
    requires Reached(s, t, path, i, p, offset) && i <= k <= |path| && forall x :: i <= x < k ==> path[x] == SLASH
    ensures Reached(s, t, path, k, p, offset)
    decreases k - i
  {
    hide Reached;
    if i < k {
      ReachedSlash(s, t, path, i, p, offset);
      ReachedSlashes(s, t, path, i + 1, k, p, offset);
    }
  }

  lemma ReachedSlash(s: seq<byte>, t: Tree, path: seq<byte>, i: nat, p: Path, offset: int)
    requires Reached(s, t, path, i, p, offset) && i < |path| && path[i] == SLASH
    ensures Reached(s, t, path, i + 1, p, offset)
  {
    hide ItemAt, NodeAt;
    assert path[i..][1..] == path[i + 1..];
  }

  lemma ReachedEnd(s: seq<byte>, t: Tree, path: seq<byte>, p: Path, offset: int)
    requires Reached(s, t, path, |path|, p, offset)
    ensures PathResult(s, t, path, offset)
  {
    hide ItemAt;
  }

  /** One component: the child it names, or none. */
  lemma ReachedName(s: seq<byte>, t: Tree, path: seq<byte>, i: nat, k: nat, p: Path, offset: int)
    requires Reached(s, t, path, i, p, offset) && i < k <= |path| && ItemAt(s, 0, 0)
    requires (forall x :: i <= x < k ==> path[x] != SLASH) && (k < |path| ==> path[k] == SLASH)
    ensures HasNode(t, p)
    ensures var kids := NodeOf(t, p).kids; var c := FirstKid(kids, path[i..k]);
      if c < |kids| then HasNode(t, p + [c]) && Find(t, [], path) == Find(t, p + [c], path[k..]) else Find(t, [], path) == None
  {
    hide ItemAt, NodeAt, FirstKid, HasNode, NodeOf;
    var r := path[i..];
    NameEndIs(r, k - i);
    assert r[..k - i] == path[i..k] && r[k - i..] == path[k..];
    FindName(t, p, r);
  }

  lemma FindName(t: Tree, p: Path, r: seq<byte>)
    requires HasNode(t, p) && r != [] && r[0] != SLASH
    ensures var c := FirstKid(NodeOf(t, p).kids, r[..NameEnd(r)]);
      if c < |NodeOf(t, p).kids| then HasNode(t, p + [c]) && Find(t, p, r) == Find(t, p + [c], r[NameEnd(r)..]) else Find(t, p, r) == None
  {
    hide FirstKid, HasNode, NodeOf;
    assert DropSlashes(r) == r;
    var c := FirstKid(NodeOf(t, p).kids, r[..NameEnd(r)]);
    if c < |NodeOf(t, p).kids| { KidPath(t, p, c); }
  }

  ghost predicate KidIs(s: seq<byte>, t: Tree, p: Path, name: seq<byte>, r: int)
  {
    if ItemAt(s, 0, 0) then
      && HasNode(t, p)
      && var c := FirstKid(NodeOf(t, p).kids, name);
        if c < |NodeOf(t, p).kids| then HasNode(t, p + [c]) && NodeAt(s, t, p + [c], r) && r >= 0 else r == -NOTFOUND
    else r == -BADOFFSET
  }

  /** The call of fdt_subnode_offset, in terms of the tree. */
  method KidOffset(fdt: array<byte>, node: nat, name: seq<byte>, ghost t: Tree, ghost p: Path) returns (r: int)
    requires Denotes(fdt[..], t) && CString(name) && |name| < LIMIT
    requires if ItemAt(fdt[..], 0, 0) then HasNode(t, p) && NodeAt(fdt[..], t, p, node) else node == 0
    ensures KidIs(fdt[..], t, p, name, r)
  {
    hide Denotes, Legible, Content, OnItem, ItemAt, Region, TagAt, IndexOf, Flatten, Here, Readable, Visits, FlattenAll, FirstChild,
         FirstKid, CheckHeader;
    ghost var s := fdt[..];
    DenotesText(s, t);
    LegibleParts(s);
    if ItemAt(s, 0, 0) {
      NodeText(s, t, p, node);
      ChildOfNode(Content(s), IndexOf(t, p), NodeOf(t, p), name);
      ghost var c := FirstKid(NodeOf(t, p).kids, name);
      if c < |NodeOf(t, p).kids| { KidPath(t, p, c); }
    } else {
      NoRootTag(s, t);
    }
    r := SubnodeOffset(fdt, node, name, if ItemAt(s, 0, 0) then IndexOf(t, p) else 0);
  }

  lemma NoRootTag(s: seq<byte>, t: Tree)
    requires Denotes(s, t) && !ItemAt(s, 0, 0)
    ensures OnItem(s, 0, 0) && TagAt(Region(s), 0).tag != BEGIN_NODE
  {
    hide Denotes, Legible, Content, OnItem, ItemAt, Region, TagAt, Flatten;
    DenotesText(s, t);
    LegibleParts(s);
    TagTells(s, 0, 0);
  }

  /** fdt_path_offset_namelen, for a path from the root. */
  method PathOffset(fdt: array<byte>, path: seq<byte>, ghost t: Tree) returns (offset: int)
    requires Denotes(fdt[..], t) && path != [] && path[0] == SLASH && CString(path) && |path| < LIMIT
    ensures PathResult(fdt[..], t, path, offset)
  {
    hide Denotes, ItemAt, Reached, PathResult, Find, FirstKid, NodeOf, HasNode, IndexOf, CheckHeader, KidIs;
    ghost var s := fdt[..];
    ghost var p: Path := [];
    DenotesText(s, t);
    HeaderThere(s);
    var err := CheckHeader(fdt[..]);
    if err != 0 {
      return err;
    }
    offset := 0;
    var i := 0;
    ReachedRoot(s, t, path);
    while i < |path|
      invariant i <= |path| && Reached(s, t, path, i, p, offset)
      decreases |path| - i
    {
      var k := SkipSlashes(path, i);
      ReachedSlashes(s, t, path, i, k, p, offset);
      i := k;
      if i == |path| {
        ReachedEnd(s, t, path, p, offset);
        return;
      }
      k := NameStop(path, i);
      ReachedNode(s, t, path, i, p, offset);
      PartCString(path, i, k);
      var r := KidOffset(fdt, offset, path[i..k], t, p);
      assert fdt[..] == s;
      p := NextReached(s, t, path, i, k, p, offset, r);
      offset := r;
      if offset < 0 {
        return;
      }
      i := k;
    }
    ReachedEnd(s, t, path, p, offset);
  }

  lemma PartCString(s: seq<byte>, i: nat, j: nat)
    requires CString(s) && i <= j <= |s|
    ensures CString(s[i..j])
  {
  }

  lemma ReachedNode(s: seq<byte>, t: Tree, path: seq<byte>, i: nat, p: Path, offset: int)
    requires Reached(s, t, path, i, p, offset)
    ensures offset >= 0
    ensures if ItemAt(s, 0, 0) then HasNode(t, p) && NodeAt(s, t, p, offset) else offset == 0
  {
  }

  lemma NextReached(s: seq<byte>, t: Tree, path: seq<byte>, i: nat, k: nat, p: Path, offset: int, r: int) returns (q: Path)
    requires Reached(s, t, path, i, p, offset) && i < k <= |path|
    requires (forall x :: i <= x < k ==> path[x] != SLASH) && (k < |path| ==> path[k] == SLASH)
    requires KidIs(s, t, p, path[i..k], r)
    ensures if r >= 0 then Reached(s, t, path, k, q, r) else PathResult(s, t, path, r)
  {
    hide ItemAt, FirstKid, HasNode, NodeOf, IndexOf, Find;
    if ItemAt(s, 0, 0) {
      ReachedName(s, t, path, i, k, p, offset);
      q := p + [FirstKid(NodeOf(t, p).kids, path[i..k])];
    } else {
      assert path[i..][0] == path[i];
      q := p;
    }
  }

  // ----- fdt_get_path

  /** Back over the last name in the buffer. */
  method PopName(buf: array<byte>, start: nat, ghost kept: seq<byte>, ghost name: seq<byte>) returns (p: nat)
    requires start <= buf.Length && buf[..start] == kept + (name + [SLASH]) && SLASH !in name
    requires kept != [] && kept[|kept| - 1] == SLASH
    ensures p == |kept|
  {
    p := start - 1;
    assert forall i :: 0 <= i < |kept| ==> buf[..start][i] == kept[i];
    assert forall i :: 0 <= i < |name| ==> buf[..start][|kept| + i] == name[i];
    while buf[p - 1] != SLASH
      invariant |kept| <= p < start
      decreases p
    {
      p := p - 1;
    }
  }

  /** Dropping the names of nodes that are not above the one at this depth. */
  method PopNames(buf: array<byte>, start: nat, count: nat, depth: nat, ghost vs: seq<Visit>, ghost n: seq<Item>, ghost was: int, ghost size: nat)
    returns (p: nat, pdepth: nat)
    requires start <= size <= buf.Length && Stacked(vs, n, was, size, buf[..start], count) && depth <= was + 1 && (count > 0 ==> depth > 0)
    requires NoSlashes(n)
    ensures p <= size && Stacked(vs, n, depth - 1, size, buf[..p], pdepth)
  {
    hide Names, NameAt, Stacked;
    p, pdepth := start, count;
    StackCut(vs, n, was, depth, size, buf[..start], count);
    while pdepth > depth
      invariant depth <= pdepth <= count || pdepth == count
      invariant p <= size && (count > depth ==> buf[..p] == Names(vs, n, pdepth))
      invariant count <= depth ==> p == start && pdepth == count
      decreases pdepth
    {
      NamesStep(vs, n, pdepth);
      NameHasNoSlash(vs, n, pdepth - 1);
      p := PopName(buf, p, Names(vs, n, pdepth - 1), NameAt(vs, n, pdepth - 1));
      pdepth := pdepth - 1;
      assert buf[..p] == Names(vs, n, pdepth);
    }
  }

  lemma NamesStep(vs: seq<Visit>, n: seq<Item>, k: nat)
    requires k > 0
    ensures Names(vs, n, k) == Names(vs, n, k - 1) + (NameAt(vs, n, k - 1) + [SLASH])
    ensures k > 1 ==> Names(vs, n, k - 1) != [] && Names(vs, n, k - 1)[|Names(vs, n, k - 1)| - 1] == SLASH
  {
  }

  lemma NameHasNoSlash(vs: seq<Visit>, n: seq<Item>, k: nat)
    requires NoSlashes(n)
    ensures SLASH !in NameAt(vs, n, k)
  {
  }

  /** The path text when it and its terminator fit in the buffer, an error otherwise. */
  ghost predicate PathGot(s: seq<byte>, t: Tree, p: Path, size: int, buf: seq<byte>, err: int)
  {
    && HasNode(t, p)
    && if size < 2 then err == -NOSPACE
       else if !ItemAt(s, 0, 0) then err == -BADOFFSET
       else if |Full(t, p)| > size then err == -NOSPACE
       else err == 0 && PathText(t, p) + [0] <= buf
  }

  /** The depth of the node visited before the m-th. */
  function DepthBefore(vs: seq<Visit>, m: nat): int
    requires m <= |vs|
  {
    if m == 0 then -1 else vs[m - 1].depth
  }

  /** The state of fdt_get_path at the m-th node of the preorder. */
  ghost predicate Spelling(s: seq<byte>, t: Tree, p: Path, size: nat, m: nat, offset: int, depth: int, text: seq<byte>, pdepth: nat)
  {
    var l := Listing(t, 0, 0);
    && Climbing(s, t, p, -1, m, offset, depth, -INTERNAL) && m < |l| && 0 <= depth <= DepthBefore(l, m) + 1
    && (pdepth > 0 ==> depth > 0) && offset >= 0
    && Stacked(l[..m], Flatten(t), DepthBefore(l, m), size, text, pdepth)
  }

  lemma SpellingStarts(s: seq<byte>, t: Tree, p: Path, size: nat)
    requires Denotes(s, t) && HasNode(t, p) && ItemAt(s, 0, 0)
    ensures Spelling(s, t, p, size, 0, 0, 0, [], 0)
  {
    hide Denotes, ItemAt, Climbing, Flatten;
    ClimbStarts(s, t, p, -1);
    ClimbAt(s, t, p, -1, 0, 0, 0, -INTERNAL);
    assert Listing(t, 0, 0)[..0] == [];
  }

  /** The node in hand. */
  lemma SpellingAt(s: seq<byte>, t: Tree, p: Path, size: nat, m: nat, offset: int, depth: int, text: seq<byte>, pdepth: nat)
    requires Denotes(s, t) && Spelling(s, t, p, size, m, offset, depth, text, pdepth)
    ensures var l := Listing(t, 0, 0);
      && m < |l| && offset >= 0 && offset < LIMIT - 4 && OnItem(s, offset, l[m].at) && l[m].at < |Flatten(t)| && Flatten(t)[l[m].at].Open?
      && TagAt(Region(s), offset).tag == BEGIN_NODE && l[m].depth == depth >= 0 && depth <= DepthBefore(l, m) + 1
      && Stacked(l[..m], Flatten(t), DepthBefore(l, m), size, text, pdepth) && (pdepth > 0 ==> depth > 0)
      && Content(s) == Flatten(t) && Legible(s) && CheckHeader(s) == 0 && ItemAt(s, offset, l[m].at)
  {
    hide Denotes, Legible, Content, OnItem, ItemAt, Region, TagAt, Flatten, Listing, Stacked, Visits;
    DenotesText(s, t);
    TagTells(s, offset, Listing(t, 0, 0)[m].at);
    OpenBytes(s, offset, Listing(t, 0, 0)[m].at);
  }

  /** At the node itself the text is complete exactly when the full path fits. */
  lemma SpellingEnds(s: seq<byte>, t: Tree, p: Path, size: nat, m: nat, offset: int, depth: int, node: int, text: seq<byte>, pdepth: nat)
    requires Denotes(s, t) && NodeAt(s, t, p, node) && Climbing(s, t, p, -1, m, offset, depth, -INTERNAL) && offset == node
    requires m < |Listing(t, 0, 0)| && depth >= 0 && Stacked(Listing(t, 0, 0)[..m + 1], Flatten(t), depth, size, text, pdepth)
    ensures depth == |p| && (pdepth == depth + 1 <==> |Full(t, p)| <= size)
    ensures pdepth == depth + 1 ==> text == Full(t, p)
    ensures pdepth <= depth + 1
  {
    hide Denotes, ItemAt, Flatten, Climbing, Listing, UpTo, IndexOf, Full, Names;
    ClimbMeets(s, t, p, -1, m, offset, depth, -INTERNAL, node);
    ListingReaches(t, p, 0, 0);
    assert Listing(t, 0, 0)[..m + 1] == UpTo(t, p, 0, 0);
    StackComplete(UpTo(t, p, 0, 0), Flatten(t), depth, size, text, pdepth);
    NamesOfPath(t, p, |p|);
    assert p[..|p|] == p;
  }

  lemma SpellingGoesOn(s: seq<byte>, t: Tree, p: Path, node: int, size: nat, m: nat, o: int, d: int, offset: int, depth: int,
                       text: seq<byte>, pdepth: nat)
    requires Denotes(s, t) && NodeAt(s, t, p, node) && Climbing(s, t, p, -1, m, o, d, -INTERNAL) && o != node && o >= 0 && d >= 0
    requires m < |Listing(t, 0, 0)| && NextAnswer(s, o, d, Listing(t, 0, 0)[m].at, offset, depth)
    requires Stacked(Listing(t, 0, 0)[..m + 1], Flatten(t), d, size, text, pdepth) && Listing(t, 0, 0)[m].depth == d
    ensures m + 1 < |UpTo(t, p, 0, 0)|
    ensures Spelling(s, t, p, size, m + 1, offset, depth, text, pdepth) && offset <= node && offset < LIMIT - 4
  {
    hide Denotes, ItemAt, Flatten, Climbing, Listing, UpTo, IndexOf, Stacked, NextAnswer;
    ClimbMeets(s, t, p, -1, m, o, d, -INTERNAL, node);
    ClimbGoesOn(s, t, p, -1, m, o, d, -INTERNAL, -INTERNAL, offset, depth);
    ClimbMeets(s, t, p, -1, m + 1, offset, depth, -INTERNAL, node);
    ClimbAt(s, t, p, -1, m + 1, offset, depth, -INTERNAL);
    DepthGrows(s, t, p, m, o, d, offset, depth);
  }

  /** A visit is at most one level below the one before, and below the root. */
  lemma DepthGrows(s: seq<byte>, t: Tree, p: Path, m: nat, o: int, d: int, offset: int, depth: int)
    requires Denotes(s, t) && Climbing(s, t, p, -1, m, o, d, -INTERNAL) && Climbing(s, t, p, -1, m + 1, offset, depth, -INTERNAL) && d >= 0
    ensures 1 <= depth <= d + 1
  {
    hide Denotes, Content, ItemAt, OnItem, Flatten, Listing, UpTo;
    var l := Listing(t, 0, 0);
    assert Visits(Content(s), l[m].at + 1, d)[0] == l[m + 1];
  }

  /** The buffer before a node: the names above it, or nothing yet where the root is not at offset 0. */
  ghost predicate Poised(s: seq<byte>, t: Tree, p: Path, size: nat, m: nat, offset: int, depth: int, text: seq<byte>, count: nat)
  {
    if ItemAt(s, 0, 0) then Spelling(s, t, p, size, m, offset, depth, text, count)
    else offset == 0 && depth == 0 && count == 0 && text == [] && m == 0
  }

  lemma PoisedStack(s: seq<byte>, t: Tree, p: Path, size: nat, m: nat, offset: int, depth: int, text: seq<byte>, count: nat)
    returns (vs: seq<Visit>, was: int)
    requires Denotes(s, t) && Poised(s, t, p, size, m, offset, depth, text, count)
    ensures Stacked(vs, Flatten(t), was, size, text, count) && 0 <= depth <= was + 1 && (count > 0 ==> depth > 0)
    ensures ItemAt(s, 0, 0) ==> m < |Listing(t, 0, 0)| && vs == Listing(t, 0, 0)[..m]
  {
    hide Denotes, ItemAt, Flatten, Listing;
    if ItemAt(s, 0, 0) {
      vs, was := Listing(t, 0, 0)[..m], DepthBefore(Listing(t, 0, 0), m);
    } else {
      vs, was := [], -1;
    }
  }

  /** One turn of fdt_get_path at a node: drop the names of finished nodes, then push this one's if it fits. */
  method SpellNode(fdt: array<byte>, offset: nat, depth: nat, buf: array<byte>, size: nat, start: nat, count: nat,
                   ghost t: Tree, ghost p: Path, ghost m: nat) returns (err: int, q: nat, pdepth: nat)
    requires buf != fdt && size <= buf.Length && start <= size
    requires Denotes(fdt[..], t) && Poised(fdt[..], t, p, size, m, offset, depth, buf[..start], count) && NoSlashes(Flatten(t))
    modifies buf
    ensures ItemAt(fdt[..], 0, 0) ==>
              && err == 0 && m < |Listing(t, 0, 0)| && Listing(t, 0, 0)[m].depth == depth
              && q <= size && Stacked(Listing(t, 0, 0)[..m + 1], Flatten(t), depth, size, buf[..q], pdepth)
    ensures !ItemAt(fdt[..], 0, 0) ==> err == -BADOFFSET
  {
    hide Denotes, Legible, Content, OnItem, ItemAt, Region, TagAt, Flatten, Listing, Stacked, Spelling, CheckHeader, Put, NoSlashes;
    ghost var s := fdt[..];
    ghost var l, n := Listing(t, 0, 0), Flatten(t);
    ghost var vs, was := PoisedStack(s, t, p, size, m, offset, depth, buf[..start], count);
    q, pdepth := PopNames(buf, start, count, depth, vs, n, was, size);
    assert fdt[..] == s;
    StackBound(vs, n, depth - 1, size, buf[..q], pdepth);
    ghost var j := 0;
    if ItemAt(s, 0, 0) {
      SpellingAt(s, t, p, size, m, offset, depth, buf[..start], count);
      assert l[..m + 1] == l[..m] + [l[m]];
      StackPush(l[..m], n, l[m], size, buf[..q], pdepth);
      j := l[m].at;
    } else {
      UnrootedName(s, t, vs, n, size, buf[..q], pdepth, depth);
    }
    if pdepth >= depth {
      var at, len := GetName(fdt, offset, j);
      if at < 0 {
        return len, q, pdepth;
      }
      if q + len + 1 <= size {
        var base := NameAddress(fdt, at, len, j);
        ghost var b := buf[..];
        PutBytes(buf, q, fdt[base..base + len]);
        PutBytes(buf, q + len, [SLASH]);
        PushedText(b, q, n[j].name);
        q := q + len + 1;
        pdepth := pdepth + 1;
      }
    }
    return 0, q, pdepth;
  }

  lemma UnrootedName(s: seq<byte>, t: Tree, vs: seq<Visit>, n: seq<Item>, size: nat, text: seq<byte>, pdepth: nat, depth: int)
    requires Denotes(s, t) && !ItemAt(s, 0, 0) && depth == 0 && Stacked(vs, n, depth - 1, size, text, pdepth)
    ensures Legible(s) && CheckHeader(s) == 0 && OnItem(s, 0, 0) && TagAt(Region(s), 0).tag != BEGIN_NODE && pdepth >= depth
  {
    hide Denotes, Legible, Content, OnItem, ItemAt, Region, TagAt, Flatten, CheckHeader;
    DenotesText(s, t);
    NoRootTag(s, t);
  }

  lemma StackBound(vs: seq<Visit>, n: seq<Item>, d: int, size: nat, text: seq<byte>, count: nat)
    requires Stacked(vs, n, d, size, text, count)
    ensures count <= d + 1
  {
  }

  lemma PushedText(b: seq<byte>, q: nat, name: seq<byte>)
    requires q + |name| + 1 <= |b|
    ensures Put(Put(b, q, name), q + |name|, [SLASH])[..q + |name| + 1] == b[..q] + (name + [SLASH])
  {
  }

  /** Where the name of a node lies in the blob. */
  method NameAddress(fdt: array<byte>, at: int, len: nat, ghost j: nat) returns (base: nat)
    requires Legible(fdt[..]) && at >= 4 && ItemAt(fdt[..], at - 4, j) && j < |Content(fdt[..])| && Content(fdt[..])[j].Open?
    requires len == |Content(fdt[..])[j].name|
    ensures base + len <= fdt.Length && fdt[base..base + len] == Content(fdt[..])[j].name
  {
    hide Legible, Content, ItemAt, Region, U32, TagAt;
    ghost var s := fdt[..];
    LegibleParts(s);
    OpenBytes(s, at - 4, j);
    RegionParts(s);
    SubSlice(s, U32(s, 8), U32(s, 8) + |Region(s)|, at, at + len);
    base := U32(fdt[..], 8) + at;
    assert fdt[base..base + len] == s[base..base + len];
  }

  /** fdt_get_path */
  method GetPath(fdt: array<byte>, node: nat, buf: array<byte>, size: int, ghost t: Tree, ghost p: Path) returns (err: int)
    requires buf != fdt && size <= buf.Length
    requires Denotes(fdt[..], t) && NodeAt(fdt[..], t, p, node) && NoSlashes(Flatten(t))
    modifies buf
    ensures PathGot(fdt[..], t, p, size, buf[..], err)
  {
    hide Denotes, Legible, Content, OnItem, ItemAt, Region, TagAt, Flatten, Listing, Stacked, Spelling, CheckHeader, Put, NoSlashes, Climbing,
         Readable, NextAnswer, UpTo, IndexOf, Full, DepthBefore, Here, NodeOf, HasNode, PathGot, Poised;
    ghost var s := fdt[..];
    DenotesText(s, t);
    NodeText(s, t, p, node);
    LegibleParts(s);
    var err0 := CheckHeader(fdt[..]);
    if err0 != 0 {
      return err0;
    }
    if size < 2 {
      NoPath(s, t, p, size, buf[..]);
      return -NOSPACE;
    }
    var offset, depth, q, pdepth := 0, 0, 0, 0;
    ghost var m := 0;
    ghost var rooted := ItemAt(s, 0, 0);
    assert buf[..0] == [];
    if rooted {
      SpellingStarts(s, t, p, size);
      SpellingClimbs(s, t, p, size, 0, 0, 0, buf[..0], 0);
    }
    NowPoised(s, t, p, size, 0, 0, 0, buf[..0], 0);
    err := -INTERNAL;
    while offset >= 0 && offset <= node
      invariant 0 <= q <= size && 0 <= offset <= node && depth >= 0 && pdepth >= 0 && Poised(s, t, p, size, m, offset, depth, buf[..q], pdepth)
      invariant fdt[..] == s && (rooted ==> m < |UpTo(t, p, 0, 0)|)
      decreases |UpTo(t, p, 0, 0)| - m
    {
      if rooted {
        PoisedSpelling(s, t, p, size, m, offset, depth, buf[..q], pdepth);
        SpellingClimbs(s, t, p, size, m, offset, depth, buf[..q], pdepth);
      }
      err, q, pdepth := SpellNode(fdt, offset, depth, buf, size, q, pdepth, t, p, m);
      assert fdt[..] == s;
      if err < 0 {
        UnrootedPath(s, t, p, size, buf[..]);
        return;
      }
      if offset == node {
        SpellingEnds(s, t, p, size, m, offset, depth, node, buf[..q], pdepth);
        if pdepth < depth + 1 {
          NoPath(s, t, p, size, buf[..]);
          return -NOSPACE;
        }
        if q > 1 {
          q := q - 1;
        }
        ghost var b := buf[..];
        PutBytes(buf, q, [0]);
        TextEnds(b, Full(t, p));
        FullNotEmpty(t, p);
        GotPath(s, t, p, size, buf[..]);
        return 0;
      }
      ghost var o, d := offset, depth;
      offset, depth := NextNode(fdt, offset, depth, Listing(t, 0, 0)[m].at);
      assert fdt[..] == s;
      SpellingGoesOn(s, t, p, node, size, m, o, d, offset, depth, buf[..q], pdepth);
      SpellingClimbs(s, t, p, size, m + 1, offset, depth, buf[..q], pdepth);
      NowPoised(s, t, p, size, m + 1, offset, depth, buf[..q], pdepth);
      m := m + 1;
    }
    assert false;
  }

  lemma GotPath(s: seq<byte>, t: Tree, p: Path, size: int, buf: seq<byte>)
    requires HasNode(t, p) && size >= 2 && ItemAt(s, 0, 0) && |Full(t, p)| <= size && PathText(t, p) + [0] <= buf
    ensures PathGot(s, t, p, size, buf, 0)
  {
  }

  lemma NoPath(s: seq<byte>, t: Tree, p: Path, size: int, buf: seq<byte>)
    requires HasNode(t, p) && (size < 2 || (ItemAt(s, 0, 0) && |Full(t, p)| > size))
    ensures PathGot(s, t, p, size, buf, -NOSPACE)
  {
  }

  lemma UnrootedPath(s: seq<byte>, t: Tree, p: Path, size: int, buf: seq<byte>)
    requires HasNode(t, p) && size >= 2 && !ItemAt(s, 0, 0)
    ensures PathGot(s, t, p, size, buf, -BADOFFSET)
  {
  }

  lemma NowPoised(s: seq<byte>, t: Tree, p: Path, size: nat, m: nat, offset: int, depth: int, text: seq<byte>, count: nat)
    requires ItemAt(s, 0, 0) ==> Spelling(s, t, p, size, m, offset, depth, text, count)
    requires !ItemAt(s, 0, 0) ==> offset == 0 && depth == 0 && count == 0 && text == [] && m == 0
    ensures Poised(s, t, p, size, m, offset, depth, text, count)
  {
  }

  lemma PoisedSpelling(s: seq<byte>, t: Tree, p: Path, size: nat, m: nat, offset: int, depth: int, text: seq<byte>, count: nat)
    requires Poised(s, t, p, size, m, offset, depth, text, count) && ItemAt(s, 0, 0)
    ensures Spelling(s, t, p, size, m, offset, depth, text, count)
  {
  }

  lemma SpellingClimbs(s: seq<byte>, t: Tree, p: Path, size: nat, m: nat, offset: int, depth: int, text: seq<byte>, pdepth: nat)
    requires Spelling(s, t, p, size, m, offset, depth, text, pdepth)
    ensures Climbing(s, t, p, -1, m, offset, depth, -INTERNAL) && offset >= 0 && depth >= 0
    ensures m < |UpTo(t, p, 0, 0)| && m < |Listing(t, 0, 0)| && OnItem(s, offset, Listing(t, 0, 0)[m].at)
  {
    hide ItemAt, OnItem, Stacked, Flatten, UpTo, Listing;
  }

  lemma FullNotEmpty(t: Tree, p: Path)
    requires HasNode(t, p)
    ensures |Full(t, p)| >= 1
  {
  }

  /** The last slash gives way to the terminator. */
  lemma TextEnds(b: seq<byte>, f: seq<byte>)
    requires 1 <= |f| <= |b| && |b| >= 2 && b[..|f|] == f
    ensures var q := if |f| > 1 then |f| - 1 else |f|; q + 1 <= |b| && Put(b, q, [0])[..q + 1] == f[..q] + [0]
  {
  }

  // ----- a path and back

  /** strlen */
  method StringLength(buf: array<byte>) returns (k: nat)
    requires 0 in buf[..]
    ensures k < buf.Length && buf[k] == 0 && CString(buf[..k])
  {
    k := 0;
    while buf[k] != 0
      invariant k < buf.Length && CString(buf[..k]) && 0 in buf[k..]
      decreases buf.Length - k
    {
      assert buf[k..] == [buf[k]] + buf[k + 1..];
      assert buf[..k + 1] == buf[..k] + [buf[k]];
      k := k + 1;
    }
  }

  /** fdt_get_path, and fdt_path_offset of the path it leaves: the offset one started from, exactly if every node on the way is
      the first of its siblings that its own name matches. */
  method PathAndBack(fdt: array<byte>, node: nat, buf: array<byte>, size: int, ghost t: Tree, ghost p: Path) returns (err: int, back: int)
    requires buf != fdt && size <= buf.Length && size < LIMIT
    requires Denotes(fdt[..], t) && NodeAt(fdt[..], t, p, node) && NoSlashes(Flatten(t)) && t.name == [] && Writable(t, p)
    modifies buf
    ensures HasNode(t, p) && (err == 0 <==> size >= 2 && ItemAt(fdt[..], 0, 0) && |Full(t, p)| <= size)
    ensures err == 0 ==> (back == node <==> FoundByName(t, p))
  {
    hide Denotes, NodeAt, NoSlashes, ItemAt, PathGot, PathResult, Full, FoundByName, Flatten, Writable;
    back := -1;
    ghost var s := fdt[..];
    NodeThere(s, t, p, node);
    err := GetPath(fdt, node, buf, size, t, p);
    assert fdt[..] == s;
    GotText(s, t, p, size, buf[..], err);
    if err != 0 {
      return;
    }
    ghost var path := PathText(t, p);
    TextIsCString(s, t, p);
    TextAhead(buf[..], path);
    var k := StringLength(buf);
    FirstNul(buf[..], path, k);
    RootedText(t, p);
    back := PathOffset(fdt, buf[..k], t);
    BackAgain(s, t, p, node, back);
  }

  lemma NodeThere(s: seq<byte>, t: Tree, p: Path, node: nat)
    requires NodeAt(s, t, p, node)
    ensures HasNode(t, p)
  {
  }

  lemma GotText(s: seq<byte>, t: Tree, p: Path, size: int, buf: seq<byte>, err: int)
    requires PathGot(s, t, p, size, buf, err)
    ensures HasNode(t, p) && (err == 0 <==> size >= 2 && ItemAt(s, 0, 0) && |Full(t, p)| <= size)
    ensures err == 0 ==> PathText(t, p) + [0] <= buf && |PathText(t, p)| <= size
  {
    hide ItemAt, Full;
  }

  lemma TextAhead(b: seq<byte>, path: seq<byte>)
    requires path + [0] <= b
    ensures 0 in b
  {
    assert b[|path|] == (path + [0])[|path|];
  }

  lemma FirstNul(b: seq<byte>, path: seq<byte>, k: nat)
    requires path + [0] <= b && CString(path) && k < |b| && b[k] == 0 && CString(b[..k])
    ensures b[..k] == path
  {
    assert b[|path|] == (path + [0])[|path|] && path == (path + [0])[..|path|] == b[..|path|];
  }

  lemma RootedText(t: Tree, p: Path)
    requires HasNode(t, p) && t.name == []
    ensures PathText(t, p) != [] && PathText(t, p)[0] == SLASH
  {
    FullIsBelow(t, p);
  }

  lemma BackAgain(s: seq<byte>, t: Tree, p: Path, node: nat, back: int)
    requires Denotes(s, t) && NodeAt(s, t, p, node) && ItemAt(s, 0, 0) && t.name == [] && HasNode(t, p) && Writable(t, p)
    requires PathResult(s, t, PathText(t, p), back)
    ensures back == node <==> FoundByName(t, p)
  {
    hide Denotes, NodeAt, ItemAt, FoundByName, Writable, Find, PathText;
    PathRoundTrip(t, p);
    var found := Find(t, [], PathText(t, p));
    if found.Some? { NodeOffsetsUnique(s, t, p, node, found.value, back); }
  }

  /** The names in a path, as they stand in the blob, end before any NUL. */
  lemma TextIsCString(s: seq<byte>, t: Tree, p: Path)
    requires Denotes(s, t) && HasNode(t, p)
    ensures CString(PathText(t, p))
  {
    hide Denotes, Legible, Content, Region, Flatten, AllItems, HasAllItems;
    DenotesText(s, t);
    ContentItems(s);
    forall i | 0 <= i < |Flatten(t)| && Flatten(t)[i].Open? ensures CString(Flatten(t)[i].name) {
      AtStart(Region(s), Strings(s));
      OpenName(Region(s), Strings(s), 0, 0, i);
    }
    FullIsCString(t, p);
  }

  lemma ContentItems(s: seq<byte>)
    requires Legible(s)
    ensures HasAllItems(Region(s), Strings(s)) && AllItems(Region(s), Strings(s)) == Content(s)
  {
    hide Region, Strings, AllItems, HasAllItems;
  }

  lemma {:induction false} OpenName(b: seq<byte>, strs: seq<byte>, o: int, j: int, i: nat)
    requires HasAllItems(b, strs) && At(b, strs, o, j) && j <= i < |AllItems(b, strs)| && AllItems(b, strs)[i].Open?
    ensures CString(AllItems(b, strs)[i].name)
    decreases |b| - o
  {
    hide HasAllItems, AllItems, Items, HasItems, First, Named, ItemOf;
    StepAt(b, strs, o, j);
    var x := First(b[o..]).value;
    if x.tok == Nop {
      OpenName(b, strs, o + x.len, j, i);
    } else if j == i {
      OpenItem(b[o..], strs);
    } else {
      OpenName(b, strs, o + x.len, j + 1, i);
    }
  }

  lemma {:induction false} FullIsCString(t: Tree, p: Path)
    requires HasNode(t, p) && forall i :: 0 <= i < |Flatten(t)| && Flatten(t)[i].Open? ==> CString(Flatten(t)[i].name)
    ensures CString(Full(t, p))
    decreases |p|
  {
    assert Flatten(t)[0] == Open(t.name);
    if p != [] {
      var k, at := t.kids[p[0]], IndexOf(t, p[..1]);
      FlattenAround(t, p[..1]);
      hide Flatten;
      forall i | 0 <= i < |Flatten(k)| && Flatten(k)[i].Open? ensures CString(Flatten(k)[i].name) {
        assert Flatten(t)[at + i] == Flatten(k)[i];
      }
      FullIsCString(k, p[1..]);
    }
  }
}
