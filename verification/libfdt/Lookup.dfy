/** What the read-only lookups of fdt_ro.c look for, on item streams and on trees. */
module Lookup {

  import opened Bytes
  import opened Tokens
  import opened Trees
  import opened Walk

  const AT_SIGN: byte := 64

  /** _fdt_nodename_eq: the name asked for may leave out the unit address. */
  predicate NameMatches(name: seq<byte>, s: seq<byte>)
  {
    name == s || (AT_SIGN !in s && |s| < |name| && name[..|s|] == s && name[|s|] == AT_SIGN)
  }

  // ----- properties

  datatype Hit = Hit(at: nat) | Miss | Cut

  /** The property of that name among those from item j on, before any other item. */
  function FindKey(n: seq<Item>, j: nat, key: seq<byte>): (r: Hit)
    requires j <= |n|
    ensures r.Hit? ==> j <= r.at < |n| && n[r.at].Property? && n[r.at].key == key
    decreases |n| - j
  {
    if j == |n| then Cut
    else if !n[j].Property? then Miss
    else if n[j].key == key then Hit(j)
    else FindKey(n, j + 1, key)
  }

  /** The first property of that name, or the number of properties. */
  function FirstKey(ps: seq<Field>, key: seq<byte>): (i: nat)
    ensures i <= |ps| && (i < |ps| ==> ps[i].key == key) && forall k :: 0 <= k < i ==> ps[k].key != key
  {
    if ps == [] || ps[0].key == key then 0 else 1 + FirstKey(ps[1..], key)
  }

  lemma {:induction false} FindAmong(n: seq<Item>, j: nat, ps: seq<Field>, key: seq<byte>)
    requires j + |ps| < |n| && !n[j + |ps|].Property?
    requires forall i :: 0 <= i < |ps| ==> n[j + i] == Property(ps[i].key, ps[i].val)
    ensures FindKey(n, j, key) == if FirstKey(ps, key) < |ps| then Hit(j + FirstKey(ps, key)) else Miss
    decreases ps
  {
    if ps != [] {
      assert n[j] == n[j + 0];
      forall i | 0 <= i < |ps[1..]| ensures n[j + 1 + i] == Property(ps[1..][i].key, ps[1..][i].val) {
        assert n[j + 1 + i] == n[j + (1 + i)];
      }
      if ps[0].key != key { FindAmong(n, j + 1, ps[1..], key); }
    }
  }

  /** In a tree the search sees exactly the node's own properties. */
  lemma FindInNode(n: seq<Item>, j: nat, t: Tree, key: seq<byte>)
    requires Here(n, j, Flatten(t))
    ensures j + 1 <= |n|
    ensures FindKey(n, j + 1, key) == if FirstKey(t.props, key) < |t.props| then Hit(j + 1 + FirstKey(t.props, key)) else Miss
  {
    hide Flatten, Here, FindKey, FirstKey, PropItems, FlattenAll;
    HereNode(n, j, t);
    AfterProps(n, j, t);
    forall i | 0 <= i < |t.props| ensures n[j + 1 + i] == Property(t.props[i].key, t.props[i].val) { NodeProp(n, j, t, i); }
    FindAmong(n, j + 1, t.props, key);
  }

  lemma NodeProp(n: seq<Item>, j: nat, t: Tree, k: nat)
    requires Here(n, j, Flatten(t)) && k < |t.props|
    ensures j + 1 + k < |n| && n[j + 1 + k] == Property(t.props[k].key, t.props[k].val)
  {
    hide Flatten, PropItems;
    HereNode(n, j, t);
    PropsHere(n, j + 1, t.props);
  }

  /** After its properties a node goes on with its first child or its end. */
  lemma AfterProps(n: seq<Item>, j: nat, t: Tree)
    requires Here(n, j, Flatten(t))
    ensures var k := j + 1 + |t.props|; k < j + Size(t) <= |n| && (if t.kids == [] then n[k] == Close else n[k] == Open(t.kids[0].name))
  {
    HereNode(n, j, t);
    hide Flatten, Here, PropItems;
    if t.kids != [] { KidHere(n, j + 1 + |t.props|, t.kids); }
  }

  lemma KidHere(n: seq<Item>, j: nat, ts: seq<Tree>)
    requires Here(n, j, FlattenAll(ts)) && ts != []
    ensures Here(n, j, Flatten(ts[0])) && Here(n, j + Size(ts[0]), FlattenAll(ts[1..]))
    ensures j < |n| && n[j] == Open(ts[0].name)
  {
    hide Here, Flatten;
    HereConcat(n, j, Flatten(ts[0]), FlattenAll(ts[1..]));
    HereNode(n, j, ts[0]);
  }

  // ----- children

  /** The first visited node at depth 1 whose name matches. */
  function FirstChild(vs: seq<Visit>, n: seq<Item>, name: seq<byte>): (r: Option<nat>)
  {
    if vs == [] then None
    else if vs[0].depth == 1 && vs[0].at < |n| && n[vs[0].at].Open? && NameMatches(n[vs[0].at].name, name) then Some(vs[0].at)
    else FirstChild(vs[1..], n, name)
  }

  /** The first child whose name matches, or the number of children. */
  function FirstKid(ts: seq<Tree>, name: seq<byte>): (i: nat)
    ensures i <= |ts| && (i < |ts| ==> NameMatches(ts[i].name, name))
    ensures forall k :: 0 <= k < i ==> !NameMatches(ts[k].name, name)
  {
    if ts == [] || NameMatches(ts[0].name, name) then 0 else 1 + FirstKid(ts[1..], name)
  }

  lemma {:induction false} FirstChildConcat(a: seq<Visit>, b: seq<Visit>, n: seq<Item>, name: seq<byte>)
    ensures FirstChild(a + b, n, name) == if FirstChild(a, n, name).Some? then FirstChild(a, n, name) else FirstChild(b, n, name)
  {
    if a == [] {
      assert a + b == b;
    } else {
      assert (a + b)[1..] == a[1..] + b;
      FirstChildConcat(a[1..], b, n, name);
    }
  }

  lemma {:induction false} NoChildBelow(vs: seq<Visit>, n: seq<Item>, name: seq<byte>)
    requires forall v :: v in vs ==> v.depth > 1
    ensures FirstChild(vs, n, name) == None
  {
    if vs != [] {
      assert vs[0] in vs;
      NoChildBelow(vs[1..], n, name);
    }
  }

  lemma ChildTree(n: seq<Item>, j: nat, t: Tree, name: seq<byte>)
    requires j < |n| && n[j] == Open(t.name)
    ensures FirstChild(Listing(t, j, 1), n, name) == if NameMatches(t.name, name) then Some(j) else None
  {
    hide NameMatches;
    var below := ListingAll(t.kids, j + 1 + |t.props|, 2);
    ListingAllDeep(t.kids, j + 1 + |t.props|, 2);
    NoChildBelow(below, n, name);
    assert ([Visit(j, 1)] + below)[1..] == below;
  }

  lemma {:induction false} ChildAmong(n: seq<Item>, j: nat, ts: seq<Tree>, name: seq<byte>)
    requires Here(n, j, FlattenAll(ts))
    ensures var i := FirstKid(ts, name);
      FirstChild(ListingAll(ts, j, 1), n, name) == if i < |ts| then Some(j + |FlattenAll(ts[..i])|) else None
    decreases ts
  {
    hide Flatten, Here, NameMatches, FirstChild, Listing;
    if ts != [] {
      KidHere(n, j, ts);
      ChildTree(n, j, ts[0], name);
      ChildAmong(n, j + Size(ts[0]), ts[1..], name);
      FirstChildConcat(Listing(ts[0], j, 1), ListingAll(ts[1..], j + Size(ts[0]), 1), n, name);
      var i := FirstKid(ts[1..], name);
      assert ts[..i + 1][1..] == ts[1..][..i] && ts[..i + 1][0] == ts[0];
      assert |FlattenAll(ts[..i + 1])| == Size(ts[0]) + |FlattenAll(ts[1..][..i])|;
    } else {
      NoChildBelow([], n, name);
    }
  }

  /** fdt_subnode_offset finds the first direct child whose name matches, and only direct children. */
  lemma ChildOfNode(n: seq<Item>, j: nat, t: Tree, name: seq<byte>)
    requires Here(n, j, Flatten(t))
    ensures j + 1 <= |n|
    ensures var i := FirstKid(t.kids, name);
      FirstChild(Visits(n, j + 1, 0), n, name) == if i < |t.kids| then Some(KidAt(t, i, j)) else None
  {
    hide Flatten, Here, FlattenAll, FirstChild, NameMatches, ListingAll, Visits, LastScan, PropItems;
    HereNode(n, j, t);
    VisitsNode(n, j, t);
    ChildAmong(n, j + 1 + |t.props|, t.kids, name);
  }
}
