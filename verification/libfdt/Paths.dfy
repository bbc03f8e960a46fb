/** Path strings: what they name in a tree, and the stack of names fdt_get_path keeps in its buffer. */
module Paths {

  import opened Bytes
  import opened Tokens
  import opened Trees
  import opened Walk
  import opened Lookup

  const SLASH: byte := 47

  // ----- reading a path

  function DropSlashes(s: seq<byte>): (r: seq<byte>)
    ensures |r| <= |s| && (r != [] ==> r[0] != SLASH)
  {
    if s != [] && s[0] == SLASH then DropSlashes(s[1..]) else s
  }

  /** How far the first component reaches. */
  function NameEnd(s: seq<byte>): (k: nat)
    ensures k <= |s| && (forall i :: 0 <= i < k ==> s[i] != SLASH) && (k < |s| ==> s[k] == SLASH)
  {
    if s == [] || s[0] == SLASH then 0 else 1 + NameEnd(s[1..])
  }

  /** The node a path names below the node at p: each component the first child that matches it. */
  function Find(t: Tree, p: Path, s: seq<byte>): Option<Path>
    requires HasNode(t, p)
    decreases |s|
  {
    var r := DropSlashes(s);
    if r == [] then Some(p)
    else
      var k := NameEnd(r);
      var i := FirstKid(NodeOf(t, p).kids, r[..k]);
      if i < |NodeOf(t, p).kids| then KidPath(t, p, i); Find(t, p + [i], r[k..]) else None
  }

  /** Kid i of the node at p is the node at p + [i]. */
  lemma {:induction false} KidPath(t: Tree, p: Path, i: nat)
    requires HasNode(t, p) && i < |NodeOf(t, p).kids|
    ensures HasNode(t, p + [i]) && NodeOf(t, p + [i]) == NodeOf(t, p).kids[i]
    ensures IndexOf(t, p + [i]) == KidAt(NodeOf(t, p), i, IndexOf(t, p))
  {
    hide Flatten, FlattenAll;
    if p == [] {
      assert [] + [i] == [i] && [i][1..] == [];
      assert ItemsBefore(t.kids[i], []) == [];
    } else {
      KidPath(t.kids[p[0]], p[1..], i);
      assert (p + [i])[1..] == p[1..] + [i] && (p + [i])[0] == p[0];
      IndexBelow(t, p, 0);
      IndexBelow(t, p + [i], 0);
    }
  }

  // ----- writing a path

  /** The names from the root down to the node at p, each followed by a slash. */
  function Full(t: Tree, p: Path): (s: seq<byte>)
    requires HasNode(t, p)
    ensures |s| >= 1 && s[|s| - 1] == SLASH
  {
    t.name + [SLASH] + if p == [] then [] else Full(t.kids[p[0]], p[1..])
  }

  /** The path string: no slash at the end, except for the root's own. */
  function PathText(t: Tree, p: Path): seq<byte>
    requires HasNode(t, p)
  {
    var f := Full(t, p);
    if |f| > 1 then f[..|f| - 1] else f
  }

  ghost predicate NoSlashes(n: seq<Item>)
  {
    forall i :: 0 <= i < |n| && n[i].Open? ==> SLASH !in n[i].name
  }

  // ----- the round trip

  /** Every node on the way to p is the first of its siblings that its own name matches. */
  predicate FoundByName(t: Tree, p: Path)
    requires HasNode(t, p)
  {
    p == [] || (FirstKid(t.kids, t.kids[p[0]].name) == p[0] && FoundByName(t.kids[p[0]], p[1..]))
  }

  /** The names on the way to p, the root's aside, could be written in a path. */
  predicate Writable(t: Tree, p: Path)
    requires HasNode(t, p)
  {
    p == [] || (t.kids[p[0]].name != [] && SLASH !in t.kids[p[0]].name && Writable(t.kids[p[0]], p[1..]))
  }

  /** What follows the root's name in the text of a path. */
  function Below(t: Tree, p: Path): (s: seq<byte>)
    requires HasNode(t, p)
    ensures p == [] <==> s == []
    ensures s != [] ==> s[0] == SLASH
  {
    if p == [] then [] else [SLASH] + t.kids[p[0]].name + Below(t.kids[p[0]], p[1..])
  }

  lemma {:induction false} FullIsBelow(t: Tree, p: Path)
    requires HasNode(t, p)
    ensures Full(t, p) == t.name + Below(t, p) + [SLASH]
  {
    if p != [] { FullIsBelow(t.kids[p[0]], p[1..]); }
  }

  /** Find on a subtree instead of on a path from the root. */
  lemma {:induction false} FindBelow(t: Tree, q: Path, p: Path)
    requires HasNode(t, q) && HasNode(NodeOf(t, q), p) && Writable(NodeOf(t, q), p)
    ensures Find(t, q, Below(NodeOf(t, q), p)) == Some(q + p) <==> FoundByName(NodeOf(t, q), p)
    decreases |p|
  {
    hide FirstKid, NameMatches, HasNode, NodeOf, DropSlashes, NameEnd;
    var u := NodeOf(t, q);
    if p == [] {
      NothingLeft();
      assert q + p == q;
    } else {
      BelowStep(u, p);
      var i := p[0];
      var rest := Below(u.kids[i], p[1..]);
      FindStep(t, q, u.kids[i].name, rest);
      SelfMatches(u.kids, i);
      var c := FirstKid(u.kids, u.kids[i].name);
      KidPath(t, q, c);
      if c == i {
        FindBelow(t, q + [i], p[1..]);
        assert q + [i] + p[1..] == q + p;
      } else {
        FindStaysBelow(t, q + [c], rest);
        assert (q + p)[|q|] == i && (q + [c])[|q|] == c;
      }
    }
  }

  lemma NothingLeft()
    ensures DropSlashes([]) == []
  {
  }

  lemma BelowStep(t: Tree, p: Path)
    requires HasNode(t, p) && p != []
    ensures p[0] < |t.kids| && HasNode(t.kids[p[0]], p[1..])
    ensures Below(t, p) == [SLASH] + t.kids[p[0]].name + Below(t.kids[p[0]], p[1..])
  {
  }

  lemma SelfMatches(ts: seq<Tree>, i: nat)
    requires i < |ts|
    ensures FirstKid(ts, ts[i].name) <= i
  {
    assert NameMatches(ts[i].name, ts[i].name);
  }

  /** One component read. */
  lemma FindStep(t: Tree, q: Path, name: seq<byte>, rest: seq<byte>)
    requires HasNode(t, q) && name != [] && SLASH !in name && (rest != [] ==> rest[0] == SLASH)
    ensures var c := FirstKid(NodeOf(t, q).kids, name);
      if c < |NodeOf(t, q).kids| then HasNode(t, q + [c]) && Find(t, q, [SLASH] + name + rest) == Find(t, q + [c], rest)
      else Find(t, q, [SLASH] + name + rest) == None
  {
    hide FirstKid, NameMatches, HasNode, NodeOf;
    var s := [SLASH] + name + rest;
    assert s[1..] == name + rest;
    FirstComponent(name, rest);
    assert DropSlashes(s) == name + rest;
    var c := FirstKid(NodeOf(t, q).kids, name);
    if c < |NodeOf(t, q).kids| { KidPath(t, q, c); }
  }

  /** A name at the start of a path is read as its first component. */
  lemma FirstComponent(name: seq<byte>, rest: seq<byte>)
    requires name != [] && SLASH !in name && (rest != [] ==> rest[0] == SLASH)
    ensures var s := name + rest; DropSlashes(s) == s && NameEnd(s) == |name| && s[..|name|] == name && s[|name|..] == rest
  {
    var s := name + rest;
    assert s[0] == name[0];
    NameEndIs(s, |name|);
  }

  lemma {:induction false} NameEndIs(s: seq<byte>, k: nat)
    requires k <= |s| && (forall i :: 0 <= i < k ==> s[i] != SLASH) && (k < |s| ==> s[k] == SLASH)
    ensures NameEnd(s) == k
  {
    if k > 0 { NameEndIs(s[1..], k - 1); }
  }

  lemma {:induction false} FindStaysBelow(t: Tree, q: Path, s: seq<byte>)
    requires HasNode(t, q)
    ensures Find(t, q, s).Some? ==> q <= Find(t, q, s).value
    decreases |s|
  {
    var r := DropSlashes(s);
    if r != [] {
      var k := NameEnd(r);
      var i := FirstKid(NodeOf(t, q).kids, r[..k]);
      if i < |NodeOf(t, q).kids| {
        KidPath(t, q, i);
        FindStaysBelow(t, q + [i], r[k..]);
      }
    }
  }

  /** Looking up the path written for a node finds that node again exactly when no earlier sibling, of it or of
      a node above it, answers to its name. */
  lemma PathRoundTrip(t: Tree, p: Path)
    requires HasNode(t, p) && t.name == [] && Writable(t, p)
    ensures Find(t, [], PathText(t, p)) == Some(p) <==> FoundByName(t, p)
  {
    FullIsBelow(t, p);
    FindBelow(t, [], p);
    assert NodeOf(t, []) == t && [] + p == p;
    if p != [] {
      assert PathText(t, p) == Below(t, p);
    } else {
      assert PathText(t, p) == [SLASH] && [SLASH][1..] == [] && DropSlashes([]) == [] && DropSlashes([SLASH]) == [];
    }
  }

  /** More slashes than one, and slashes at the end, mean nothing more. */
  lemma {:induction false} SlashesRepeat(t: Tree, p: Path, s: seq<byte>, n: nat)
    requires HasNode(t, p)
    ensures Find(t, p, seq(n, i => 47) + s) == Find(t, p, s) && Find(t, p, seq(n, i => 47)) == Some(p)
  {
    hide FirstKid, HasNode, NodeOf;
    var z: seq<byte> := seq(n, i => 47);
    if n > 0 {
      SlashesRepeat(t, p, s, n - 1);
      var y: seq<byte> := seq(n - 1, i => 47);
      assert (z + s)[1..] == y + s && z[1..] == y;
      assert DropSlashes(z + s) == DropSlashes(y + s) && DropSlashes(z) == DropSlashes(y);
    } else {
      assert z == [] && z + s == s;
    }
  }

  /** Two children "a@1" and "a": the path of the second names the first. */
  lemma PathOfAnother()
    ensures var t := Node([], [], [Node([97, 64, 49], [], []), Node([97], [], [])]);
      && HasNode(t, [1]) && HasNode(t, [0]) && PathText(t, [1]) == [47, 97] && !FoundByName(t, [1])
      && Find(t, [], [47, 97]) == Some([0])
  {
    var a, b := Node([97, 64, 49], [], []), Node([97], [], []);
    var t := Node([], [], [a, b]);
    assert t.kids[1] == b && [1][1..] == [] && [0][1..] == [];
    assert NameMatches(a.name, b.name) by { assert a.name[..1] == b.name; }
    assert FirstKid(t.kids, [97]) == 0;
    assert Full(t, [1]) == [] + [SLASH] + Full(b, []) == [SLASH] + ([97] + [SLASH]);
    assert PathText(t, [1]) == [SLASH, 97];
    assert [SLASH] + [97] + [] == [SLASH, 97] && NodeOf(t, []) == t;
    FindStep(t, [], [97], []);
    assert [] + [0] == [0];
    NothingLeft();
  }

  /** Siblings with distinct names, none of which is another's plus a unit address, are found by name. */
  ghost predicate DistinctKids(t: Tree)
    decreases t, 1
  {
    && (forall i, j :: 0 <= i < |t.kids| && 0 <= j < |t.kids| && i != j ==> !NameMatches(t.kids[i].name, t.kids[j].name))
    && DistinctAll(t.kids)
  }

  ghost predicate DistinctAll(ts: seq<Tree>)
    decreases ts, 0
  {
    ts == [] || (DistinctKids(ts[0]) && DistinctAll(ts[1..]))
  }

  lemma {:induction false} DistinctAt(ts: seq<Tree>, i: nat)
    requires DistinctAll(ts) && i < |ts|
    ensures DistinctKids(ts[i])
  {
    if i > 0 { DistinctAt(ts[1..], i - 1); }
  }

  lemma {:induction false} DistinctAreFound(t: Tree, p: Path)
    requires DistinctKids(t) && HasNode(t, p)
    ensures FoundByName(t, p)
    decreases |p|
  {
    if p != [] {
      var k := t.kids[p[0]];
      DistinctAt(t.kids, p[0]);
      DistinctAreFound(k, p[1..]);
      assert NameMatches(k.name, k.name);
      assert FirstKid(t.kids, k.name) == p[0];
    }
  }

  // ----- the buffer of fdt_get_path

  /** The name of the last visited node at depth k. */
  function NameAt(vs: seq<Visit>, n: seq<Item>, k: nat): seq<byte>
  {
    var last := LastAt(vs, k);
    if last.Some? && last.value < |n| && n[last.value].Open? then n[last.value].name else []
  }

  /** The names of the last visited nodes at depths below k, each followed by a slash. */
  function Names(vs: seq<Visit>, n: seq<Item>, k: nat): (s: seq<byte>)
    ensures k > 0 ==> s != [] && s[|s| - 1] == SLASH
  {
    if k == 0 then [] else Names(vs, n, k - 1) + (NameAt(vs, n, k - 1) + [SLASH])
  }

  lemma LastAtPush(vs: seq<Visit>, v: Visit, k: int)
    ensures LastAt(vs + [v], k) == if v.depth == k then Some(v.at) else LastAt(vs, k)
  {
    assert (vs + [v])[..|vs|] == vs;
  }

  /** A visit at depth d leaves the names above it. */
  lemma {:induction false} NamesStay(vs: seq<Visit>, n: seq<Item>, v: Visit, k: nat)
    requires k <= v.depth
    ensures Names(vs + [v], n, k) == Names(vs, n, k)
  {
    hide LastAt;
    if k > 0 {
      NamesStay(vs, n, v, k - 1);
      LastAtPush(vs, v, k - 1);
    }
  }

  /** After visiting node v its names end with its own. */
  lemma NamesEnd(vs: seq<Visit>, n: seq<Item>, v: Visit)
    requires 0 <= v.depth && v.at < |n| && n[v.at].Open?
    ensures Names(vs + [v], n, v.depth + 1) == Names(vs, n, v.depth) + (n[v.at].name + [SLASH])
  {
    hide LastAt;
    NamesStay(vs, n, v, v.depth);
    LastAtPush(vs, v, v.depth);
  }

  /** The buffer text is the longest part of the names down to depth d, counted in names, that fits; and all
      shorter parts fit. */
  ghost predicate Stacked(vs: seq<Visit>, n: seq<Item>, d: int, size: nat, text: seq<byte>, count: nat)
  {
    && count <= d + 1 && text == Names(vs, n, count) && |text| <= size
    && (count <= d ==> |Names(vs, n, count + 1)| > size)
  }

  lemma {:induction false} NamesGrow(vs: seq<Visit>, n: seq<Item>, i: nat, k: nat)
    requires i <= k
    ensures Names(vs, n, i) <= Names(vs, n, k)
    decreases k
  {
    hide NameAt;
    if i < k { NamesGrow(vs, n, i, k - 1); }
  }

  /** The text for a node at p is complete exactly when its full path fits. */
  lemma StackComplete(vs: seq<Visit>, n: seq<Item>, d: nat, size: nat, text: seq<byte>, count: nat)
    requires Stacked(vs, n, d, size, text, count)
    ensures count == d + 1 <==> |Names(vs, n, d + 1)| <= size
  {
    hide Names;
    if count <= d { NamesGrow(vs, n, count + 1, d + 1); }
  }

  /** Along the way to the node at p the names are those of its ancestors and its own. */
  lemma {:induction false} NamesOfPath(t: Tree, p: Path, k: nat)
    requires HasNode(t, p) && k <= |p|
    ensures HasNode(t, p[..k])
    ensures Names(UpTo(t, p, 0, 0), Flatten(t), k + 1) == Full(t, p[..k])
  {
    hide Flatten, UpTo, LastAt, IndexOf, ItemsBefore, Full, NodeOf, HasNode, Here, FlattenAll, PropItems;
    AncestorIsLast(t, p, 0, 0, k);
    NodeHere(t, p[..k]);
    HereNode(Flatten(t), IndexOf(t, p[..k]), NodeOf(t, p[..k]));
    if k == 0 {
      assert p[..0] == [];
      RootIndex(t);
      FullRoot(t);
      assert Names(UpTo(t, p, 0, 0), Flatten(t), 0) == [];
    } else {
      NamesOfPath(t, p, k - 1);
      FullStep(t, p[..k]);
      assert p[..k][..k - 1] == p[..k - 1];
    }
  }

  lemma FullRoot(t: Tree)
    ensures HasNode(t, []) && Full(t, []) == t.name + [SLASH]
  {
  }

  lemma {:induction false} FullStep(t: Tree, p: Path)
    requires HasNode(t, p) && p != []
    ensures HasNode(t, p[..|p| - 1])
    ensures Full(t, p) == Full(t, p[..|p| - 1]) + (NodeOf(t, p).name + [SLASH])
  {
    var q := p[..|p| - 1];
    if |p| > 1 {
      FullStep(t.kids[p[0]], p[1..]);
      assert q[1..] == p[1..][..|p[1..]| - 1] && q[0] == p[0];
    } else {
      assert q == [] && p[1..] == [];
    }
  }

  /** Dropping names until at most d are left. */
  lemma StackCut(vs: seq<Visit>, n: seq<Item>, was: int, d: nat, size: nat, text: seq<byte>, count: nat)
    requires Stacked(vs, n, was, size, text, count) && d <= was + 1
    ensures count <= d ==> Stacked(vs, n, d - 1, size, text, count)
    ensures count > d ==> text == Names(vs, n, count) && Names(vs, n, d) <= text && Stacked(vs, n, d - 1, size, Names(vs, n, d), d)
  {
    hide Names;
    if count > d { NamesGrow(vs, n, d, count); }
  }

  /** The visit of a node at depth d: its name is pushed when all names above it are there and it fits. */
  lemma StackPush(vs: seq<Visit>, n: seq<Item>, v: Visit, size: nat, text: seq<byte>, count: nat)
    requires 0 <= v.depth && v.at < |n| && n[v.at].Open? && Stacked(vs, n, v.depth - 1, size, text, count)
    ensures var name := n[v.at].name;
      if count >= v.depth && |text| + |name| + 1 <= size
      then Stacked(vs + [v], n, v.depth, size, text + (name + [SLASH]), v.depth + 1)
      else Stacked(vs + [v], n, v.depth, size, text, count)
  {
    hide Names, NameAt;
    NamesStay(vs, n, v, count);
    NamesEnd(vs, n, v);
    if count < v.depth { NamesStay(vs, n, v, count + 1); }
  }
}
