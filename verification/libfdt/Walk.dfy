/** The order in which fdt_next_node visits nodes, on item streams and on trees. */
module Walk {

  import opened Bytes
  import opened Tokens
  import opened Trees

  /** What a scan for the next node meets: an opening, the close of the node it started in, or the end. */
  datatype Scan = Found(at: nat, depth: int) | Closed(at: nat, depth: int) | Finished(depth: int)

  /** The scan of fdt_next_node from item j at depth d. */
  function NextOpen(n: seq<Item>, j: nat, d: int): (r: Scan)
    requires j <= |n|
    ensures r.Found? ==> j <= r.at < |n| && n[r.at].Open?
    ensures r.Found? ==> r.depth <= d + 1
    ensures r.Closed? ==> j < r.at <= |n| && n[r.at - 1].Close?
    ensures d >= 0 ==> if r.Found? then r.depth >= 1 else if r.Closed? then r.depth == -1 else r.depth >= 0
    decreases |n| - j
  {
    if j == |n| then Finished(d)
    else
      match n[j]
      case Open(_) => Found(j, d + 1)
      case Property(_, _) => NextOpen(n, j + 1, d)
      case Close => if d - 1 < 0 then Closed(j + 1, d - 1) else NextOpen(n, j + 1, d - 1)
  }

  datatype Visit = Visit(at: nat, depth: int)

  /** The nodes repeated calls of fdt_next_node visit. */
  function Visits(n: seq<Item>, j: nat, d: int): seq<Visit>
    requires j <= |n|
    decreases |n| - j
  {
    match NextOpen(n, j, d)
    case Found(i, e) => [Visit(i, e)] + Visits(n, i + 1, e)
    case _ => []
  }

  /** How the visits end. */
  function LastScan(n: seq<Item>, j: nat, d: int): (r: Scan)
    requires j <= |n|
    ensures !r.Found?
    decreases |n| - j
  {
    match NextOpen(n, j, d)
    case Found(i, e) => LastScan(n, i + 1, e)
    case r => r
  }

  function Size(t: Tree): nat
  {
    |Flatten(t)|
  }

  /** The nodes of t in preorder, t being at item j and depth d. */
  function Listing(t: Tree, j: nat, d: int): seq<Visit>
    decreases t, 0
  {
    [Visit(j, d)] + ListingAll(t.kids, j + 1 + |t.props|, d + 1)
  }

  function ListingAll(ts: seq<Tree>, j: nat, d: int): seq<Visit>
    decreases ts, 1
  {
    if ts == [] then [] else Listing(ts[0], j, d) + ListingAll(ts[1..], j + Size(ts[0]), d)
  }

  /** The items x are those of n from j on. */
  predicate Here(n: seq<Item>, j: nat, x: seq<Item>)
  {
    j + |x| <= |n| && n[j..j + |x|] == x
  }

  lemma HereConcat(n: seq<Item>, j: nat, x: seq<Item>, y: seq<Item>)
    requires Here(n, j, x + y)
    ensures Here(n, j, x) && Here(n, j + |x|, y)
  {
    assert n[j..j + |x + y|][..|x|] == x && n[j..j + |x + y|][|x|..] == y;
  }

  lemma HereNode(n: seq<Item>, j: nat, t: Tree)
    requires Here(n, j, Flatten(t))
    ensures Size(t) == 2 + |t.props| + |FlattenAll(t.kids)| && j + Size(t) <= |n|
    ensures n[j] == Open(t.name) && n[j + Size(t) - 1] == Close
    ensures Here(n, j + 1, PropItems(t.props)) && Here(n, j + 1 + |t.props|, FlattenAll(t.kids))
  {
    var m := [Open(t.name)] + PropItems(t.props) + FlattenAll(t.kids);
    HereConcat(n, j, m, [Close]);
    HereConcat(n, j, [Open(t.name)] + PropItems(t.props), FlattenAll(t.kids));
    HereConcat(n, j, [Open(t.name)], PropItems(t.props));
    assert n[j..j + 1][0] == Open(t.name);
    assert n[j + |m|..j + |m| + 1] == [Close];
    assert n[j + |m|] == n[j + |m|..j + |m| + 1][0];
  }

  lemma {:induction false} SkipProps(n: seq<Item>, j: nat, d: int, k: nat)
    requires j + k <= |n| && forall i :: j <= i < j + k ==> n[i].Property?
    ensures NextOpen(n, j, d) == NextOpen(n, j + k, d)
    ensures Visits(n, j, d) == Visits(n, j + k, d) && LastScan(n, j, d) == LastScan(n, j + k, d)
    decreases k
  {
    if k > 0 { SkipProps(n, j + 1, d, k - 1); }
  }

  /** A closing item inside the subtree being walked only lowers the depth. */
  lemma SkipClose(n: seq<Item>, j: nat, d: int)
    requires j < |n| && n[j] == Close && d > 0
    ensures Visits(n, j, d) == Visits(n, j + 1, d - 1) && LastScan(n, j, d) == LastScan(n, j + 1, d - 1)
  {
  }

  /** Walking across a whole subtree visits its nodes in preorder and comes out at the same depth. */
  lemma {:induction false} VisitsTree(n: seq<Item>, j: nat, d: nat, t: Tree)
    requires Here(n, j, Flatten(t))
    ensures j + Size(t) <= |n|
    ensures Visits(n, j, d) == Listing(t, j, d + 1) + Visits(n, j + Size(t), d)
    ensures LastScan(n, j, d) == LastScan(n, j + Size(t), d)
    decreases t, 2
  {
    hide Flatten, Here;
    HereNode(n, j, t);
    VisitsInside(n, j, d + 1, t);
    SkipClose(n, j + Size(t) - 1, d + 1);
  }

  /** Having entered t at depth d. */
  lemma {:induction false} VisitsInside(n: seq<Item>, j: nat, d: nat, t: Tree)
    requires Here(n, j, Flatten(t))
    ensures 0 < Size(t) && j + Size(t) <= |n|
    ensures Visits(n, j + 1, d) == ListingAll(t.kids, j + 1 + |t.props|, d + 1) + Visits(n, j + Size(t) - 1, d)
    ensures LastScan(n, j + 1, d) == LastScan(n, j + Size(t) - 1, d)
    decreases t, 1
  {
    hide Flatten, FlattenAll, PropItems, Listing, ListingAll, Visits, LastScan, NextOpen, Here;
    HereNode(n, j, t);
    PropsHere(n, j + 1, t.props);
    SkipProps(n, j + 1, d, |t.props|);
    VisitsKids(n, j + 1 + |t.props|, d, t.kids);
  }

  lemma PropsHere(n: seq<Item>, j: nat, ps: seq<Field>)
    requires Here(n, j, PropItems(ps))
    ensures forall i :: j <= i < j + |ps| ==> n[i] == Property(ps[i - j].key, ps[i - j].val)
  {
    forall i | j <= i < j + |ps| ensures n[i] == Property(ps[i - j].key, ps[i - j].val) {
      assert n[i] == n[j..j + |ps|][i - j];
    }
  }

  lemma {:induction false} VisitsKids(n: seq<Item>, j: nat, d: nat, ts: seq<Tree>)
    requires Here(n, j, FlattenAll(ts))
    ensures j + |FlattenAll(ts)| <= |n|
    ensures Visits(n, j, d) == ListingAll(ts, j, d + 1) + Visits(n, j + |FlattenAll(ts)|, d)
    ensures LastScan(n, j, d) == LastScan(n, j + |FlattenAll(ts)|, d)
    decreases ts, 0
  {
    hide Flatten, Listing, Visits, LastScan;
    if ts != [] {
      HereConcat(n, j, Flatten(ts[0]), FlattenAll(ts[1..]));
      VisitsTree(n, j, d, ts[0]);
      VisitsKids(n, j + Size(ts[0]), d, ts[1..]);
    }
  }

  /** A walk that starts at a node with depth 0 visits exactly its descendants, in preorder, and ends
      just past the item that closes it. */
  lemma VisitsNode(n: seq<Item>, j: nat, t: Tree)
    requires Here(n, j, Flatten(t))
    ensures 0 < Size(t) && j + Size(t) <= |n|
    ensures Visits(n, j + 1, 0) == ListingAll(t.kids, j + 1 + |t.props|, 1)
    ensures LastScan(n, j + 1, 0) == Closed(j + Size(t), -1)
  {
    hide Flatten, Here, FlattenAll, ListingAll;
    HereNode(n, j, t);
    VisitsInside(n, j, 0, t);
    assert NextOpen(n, j + Size(t) - 1, 0) == Closed(j + Size(t), -1);
    assert Visits(n, j + Size(t) - 1, 0) == [];
    assert LastScan(n, j + Size(t) - 1, 0) == Closed(j + Size(t), -1);
  }

  // ----- paths

  /** The item that opens the node at p. */
  function IndexOf(t: Tree, p: Path): nat
    requires HasNode(t, p)
  {
    |ItemsBefore(t, p)|
  }

  lemma RootIndex(t: Tree)
    ensures HasNode(t, []) && IndexOf(t, []) == 0 && NodeOf(t, []) == t
  {
  }

  lemma NodeHere(t: Tree, p: Path)
    requires HasNode(t, p)
    ensures Here(Flatten(t), IndexOf(t, p), Flatten(NodeOf(t, p)))
  {
    FlattenAround(t, p);
  }

  /** The nodes visited up to the one at p. */
  function UpTo(t: Tree, p: Path, j: nat, d: int): seq<Visit>
    requires HasNode(t, p)
  {
    if p == [] then [Visit(j, d)]
    else
      [Visit(j, d)] + ListingAll(t.kids[..p[0]], j + 1 + |t.props|, d + 1)
      + UpTo(t.kids[p[0]], p[1..], KidAt(t, p[0], j), d + 1)
  }

  /** The item that opens kid i of a node that opens at item j. */
  function KidAt(t: Tree, i: nat, j: nat): nat
    requires i <= |t.kids|
  {
    j + 1 + |t.props| + |FlattenAll(t.kids[..i])|
  }

  lemma {:induction false} ListingAllConcat(a: seq<Tree>, b: seq<Tree>, j: nat, d: int)
    ensures ListingAll(a + b, j, d) == ListingAll(a, j, d) + ListingAll(b, j + |FlattenAll(a)|, d)
  {
    hide Flatten, Listing;
    if a == [] {
      assert a + b == b;
    } else {
      assert (a + b)[1..] == a[1..] + b;
      ListingAllConcat(a[1..], b, j + Size(a[0]), d);
    }
  }

  /** The walk reaches the node at p, at depth |p|, after exactly the nodes UpTo lists. */
  lemma {:induction false} ListingReaches(t: Tree, p: Path, j: nat, d: int)
    requires HasNode(t, p)
    ensures UpTo(t, p, j, d) != []
    ensures UpTo(t, p, j, d) <= Listing(t, j, d)
    ensures UpTo(t, p, j, d)[|UpTo(t, p, j, d)| - 1] == Visit(j + IndexOf(t, p), d + |p|)
  {
    hide Listing, ListingAll, KidAt, IndexOf, Size, FlattenAll;
    if p == [] {
      ListingHead(t, j, d);
    } else {
      var i := p[0];
      var jk := KidAt(t, i, j);
      ListingReaches(t.kids[i], p[1..], jk, d + 1);
      ListingSplits(t, i, j, d);
      UpToPrefix([Visit(j, d)] + ListingAll(t.kids[..i], j + 1 + |t.props|, d + 1), UpTo(t.kids[i], p[1..], jk, d + 1),
                 Listing(t.kids[i], jk, d + 1), ListingAll(t.kids[i + 1..], jk + Size(t.kids[i]), d + 1));
      IndexBelow(t, p, j);
    }
  }

  lemma ListingHead(t: Tree, j: nat, d: int)
    ensures [Visit(j, d)] <= Listing(t, j, d) && IndexOf(t, []) == 0
  {
  }

  lemma UpToPrefix<T>(a: seq<T>, u: seq<T>, x: seq<T>, y: seq<T>)
    requires u <= x
    ensures a + u <= a + x + y
  {
  }

  lemma IndexBelow(t: Tree, p: Path, j: nat)
    requires HasNode(t, p) && p != []
    ensures j + IndexOf(t, p) == KidAt(t, p[0], j) + IndexOf(t.kids[p[0]], p[1..])
  {
  }

  lemma ListingSplits(t: Tree, i: nat, j: nat, d: int)
    requires i < |t.kids|
    ensures var jk := KidAt(t, i, j);
      Listing(t, j, d) == [Visit(j, d)] + ListingAll(t.kids[..i], j + 1 + |t.props|, d + 1)
                        + Listing(t.kids[i], jk, d + 1) + ListingAll(t.kids[i + 1..], jk + Size(t.kids[i]), d + 1)
  {
    assert t.kids == t.kids[..i] + t.kids[i..] && t.kids[i..][0] == t.kids[i] && t.kids[i..][1..] == t.kids[i + 1..];
    ListingAllConcat(t.kids[..i], t.kids[i..], j + 1 + |t.props|, d + 1);
    var jk := KidAt(t, i, j);
    assert ListingAll(t.kids[i..], jk, d + 1) == Listing(t.kids[i], jk, d + 1) + ListingAll(t.kids[i + 1..], jk + Size(t.kids[i]), d + 1);
    hide Flatten, Size, FlattenAll;
  }

  lemma {:induction false} ListingDeep(t: Tree, j: nat, d: int)
    ensures forall v :: v in Listing(t, j, d) ==> v.depth >= d && v.at >= j
    decreases t, 1
  {
    ListingAllDeep(t.kids, j + 1 + |t.props|, d + 1);
  }

  lemma {:induction false} ListingAllDeep(ts: seq<Tree>, j: nat, d: int)
    ensures forall v :: v in ListingAll(ts, j, d) ==> v.depth >= d && v.at >= j
    decreases ts, 0
  {
    if ts != [] {
      ListingDeep(ts[0], j, d);
      ListingAllDeep(ts[1..], j + Size(ts[0]), d);
    }
  }

  // ----- ancestors

  /** The last node of a list of visits at depth d, or none. */
  function LastAt(vs: seq<Visit>, d: int): (r: Option<nat>)
  {
    if vs == [] then None
    else if vs[|vs| - 1].depth == d then Some(vs[|vs| - 1].at)
    else LastAt(vs[..|vs| - 1], d)
  }

  lemma {:induction false} LastAtConcat(a: seq<Visit>, b: seq<Visit>, d: int)
    ensures LastAt(a + b, d) == if LastAt(b, d).Some? then LastAt(b, d) else LastAt(a, d)
  {
    if b == [] {
      assert a + b == a;
    } else {
      assert (a + b)[..|a + b| - 1] == a + b[..|b| - 1];
      LastAtConcat(a, b[..|b| - 1], d);
    }
  }

  lemma {:induction false} LastAtNone(vs: seq<Visit>, d: int)
    requires forall v :: v in vs ==> v.depth != d
    ensures LastAt(vs, d) == None
  {
    if vs != [] { LastAtNone(vs[..|vs| - 1], d); }
  }

  /** The last node at depth k on the way to the node at p is its ancestor at depth k. */
  lemma {:induction false} AncestorIsLast(t: Tree, p: Path, j: nat, d: int, k: nat)
    requires HasNode(t, p) && k <= |p|
    ensures HasNode(t, p[..k])
    ensures LastAt(UpTo(t, p, j, d), d + k) == Some(j + IndexOf(t, p[..k]))
  {
    hide Listing, ListingAll, FlattenAll, KidAt, IndexOf, LastAt;
    if p == [] {
      assert p[..k] == [];
      LastOfOne(Visit(j, d));
      RootIndex(t);
    } else if k == 0 {
      RootIsLast(t, p, j, d);
      assert p[..k] == [];
      RootIndex(t);
    } else {
      var i := p[0];
      var jk := KidAt(t, i, j);
      AncestorIsLast(t.kids[i], p[1..], jk, d + 1, k - 1);
      assert p[..k][1..] == p[1..][..k - 1] && p[..k][0] == i;
      IndexBelow(t, p[..k], j);
      LastAtConcat([Visit(j, d)] + ListingAll(t.kids[..i], j + 1 + |t.props|, d + 1), UpTo(t.kids[i], p[1..], jk, d + 1), d + k);
    }
  }

  lemma LastOfOne(v: Visit)
    ensures LastAt([v], v.depth) == Some(v.at)
  {
  }

  lemma RootIsLast(t: Tree, p: Path, j: nat, d: int)
    requires HasNode(t, p) && p != []
    ensures LastAt(UpTo(t, p, j, d), d) == Some(j)
  {
    var i := p[0];
    var jk := KidAt(t, i, j);
    var a := ListingAll(t.kids[..i], j + 1 + |t.props|, d + 1);
    var b := UpTo(t.kids[i], p[1..], jk, d + 1);
    ListingAllDeep(t.kids[..i], j + 1 + |t.props|, d + 1);
    ListingReaches(t.kids[i], p[1..], jk, d + 1);
    ListingDeep(t.kids[i], jk, d + 1);
    LastAtNone(a + b, d);
    LastAtConcat([Visit(j, d)], a + b, d);
    assert UpTo(t, p, j, d) == [Visit(j, d)] + (a + b);
    assert [Visit(j, d)][..0] == [];
  }

  // ----- the visits of a whole tree

  predicate Increasing(vs: seq<Visit>)
  {
    forall a, b :: 0 <= a < b < |vs| ==> vs[a].at < vs[b].at
  }

  predicate Between(vs: seq<Visit>, i: nat, j: nat)
  {
    forall v :: v in vs ==> i <= v.at < j
  }

  lemma IncreasingConcat(a: seq<Visit>, b: seq<Visit>, i: nat, j: nat, k: nat)
    requires Increasing(a) && Increasing(b) && Between(a, i, j) && Between(b, j, k) && i <= j <= k
    ensures Increasing(a + b) && Between(a + b, i, k)
  {
    var c := a + b;
    forall x, y | 0 <= x < y < |c| ensures c[x].at < c[y].at {
      if x < |a| && |a| <= y { assert c[x] in a && c[y] in b; }
    }
  }

  /** Preorder visits nodes in the order of their items. */
  lemma {:induction false} ListingIncreasing(t: Tree, j: nat, d: int)
    ensures Increasing(Listing(t, j, d)) && Between(Listing(t, j, d), j, j + Size(t))
    decreases t, 1
  {
    var k := j + 1 + |t.props|;
    ListingAllIncreasing(t.kids, k, d + 1);
    IncreasingConcat([Visit(j, d)], ListingAll(t.kids, k, d + 1), j, k, k + |FlattenAll(t.kids)|);
    assert Size(t) == 2 + |t.props| + |FlattenAll(t.kids)|;
    hide Flatten, FlattenAll, ListingAll;
  }

  lemma {:induction false} ListingAllIncreasing(ts: seq<Tree>, j: nat, d: int)
    ensures Increasing(ListingAll(ts, j, d)) && Between(ListingAll(ts, j, d), j, j + |FlattenAll(ts)|)
    decreases ts, 0
  {
    hide Flatten, Listing;
    if ts != [] {
      ListingIncreasing(ts[0], j, d);
      ListingAllIncreasing(ts[1..], j + Size(ts[0]), d);
      IncreasingConcat(Listing(ts[0], j, d), ListingAll(ts[1..], j + Size(ts[0]), d), j, j + Size(ts[0]), j + |FlattenAll(ts)|);
    }
  }

  /** Repeated fdt_next_node from the root visits the whole tree in preorder. */
  lemma VisitsRoot(t: Tree)
    ensures Size(t) > 0
    ensures [Visit(0, 0)] + Visits(Flatten(t), 1, 0) == Listing(t, 0, 0)
    ensures LastScan(Flatten(t), 1, 0) == Closed(Size(t), -1)
  {
    hide Flatten, Visits, LastScan;
    assert Here(Flatten(t), 0, Flatten(t));
    VisitsNode(Flatten(t), 0, t);
  }

  // ----- siblings

  /** The first visit at depth 1 or less. */
  function FirstTop(vs: seq<Visit>): Option<nat>
  {
    if vs == [] then None else if vs[0].depth <= 1 then Some(vs[0].at) else FirstTop(vs[1..])
  }

  lemma {:induction false} TopAfterDeep(a: seq<Visit>, b: seq<Visit>)
    requires forall v :: v in a ==> v.depth > 1
    ensures FirstTop(a + b) == FirstTop(b)
  {
    if a == [] {
      assert a + b == b;
    } else {
      assert a[0] in a && (a + b)[1..] == a[1..] + b;
      TopAfterDeep(a[1..], b);
    }
  }

  /** From a node counted at depth 1, the next visit that is not below it is its next sibling, if any. */
  lemma NextOfKid(n: seq<Item>, j: nat, t: Tree, i: nat)
    requires Here(n, j, Flatten(t)) && i < |t.kids|
    ensures KidAt(t, i, j) + 1 <= |n|
    ensures FirstTop(Visits(n, KidAt(t, i, j) + 1, 1)) == if i + 1 < |t.kids| then Some(KidAt(t, i + 1, j)) else None
  {
    hide Flatten, Here, Visits, LastScan, FlattenAll, ListingAll, Listing, NextOpen;
    var k, jk := t.kids[i], KidAt(t, i, j);
    HereNode(n, j, t);
    KidsHere(n, j, t, i);
    VisitsInside(n, jk, 1, k);
    ListingAllDeep(k.kids, jk + 1 + |k.props|, 2);
    HereNode(n, jk, k);
    SkipClose(n, jk + Size(k) - 1, 1);
    TopAfterDeep(ListingAll(k.kids, jk + 1 + |k.props|, 2), Visits(n, jk + Size(k), 0));
    if i + 1 < |t.kids| {
      KidsHere(n, j, t, i + 1);
      HereNode(n, jk + Size(k), t.kids[i + 1]);
      VisitsOpen(n, jk + Size(k), 0);
    } else {
      VisitsClosed(n, jk + Size(k));
    }
  }

  lemma VisitsOpen(n: seq<Item>, j: nat, d: int)
    requires j < |n| && n[j].Open?
    ensures Visits(n, j, d) == [Visit(j, d + 1)] + Visits(n, j + 1, d + 1)
  {
  }

  lemma VisitsClosed(n: seq<Item>, j: nat)
    requires j < |n| && n[j].Close?
    ensures Visits(n, j, 0) == []
  {
  }

  /** Where a kid and what follows it lie among the items of a node. */
  lemma KidsHere(n: seq<Item>, j: nat, t: Tree, i: nat)
    requires Here(n, j, Flatten(t)) && i < |t.kids|
    ensures var jk := KidAt(t, i, j); var k := t.kids[i];
      && Here(n, jk, Flatten(k)) && jk + Size(k) < |n|
      && (if i + 1 < |t.kids| then jk + Size(k) == KidAt(t, i + 1, j) else n[jk + Size(k)] == Close)
  {
    hide Flatten, Here, PropItems;
    HereNode(n, j, t);
    var a, b := t.kids[..i], t.kids[i + 1..];
    assert t.kids == a + [t.kids[i]] + b && t.kids[..i + 1] == a + [t.kids[i]];
    FlattenAllConcat(a + [t.kids[i]], b);
    FlattenAllConcat(a, [t.kids[i]]);
    FlattenOne(t.kids[i]);
    HereConcat(n, j + 1 + |t.props|, FlattenAll(a) + Flatten(t.kids[i]), FlattenAll(b));
    HereConcat(n, j + 1 + |t.props|, FlattenAll(a), Flatten(t.kids[i]));
    if i + 1 == |t.kids| { assert b == [] && FlattenAll(b) == []; }
  }

  /** The first visit from inside a node with depth 0 is its first kid at depth 1, if any. */
  lemma FirstOfNode(n: seq<Item>, j: nat, t: Tree)
    requires Here(n, j, Flatten(t))
    ensures j + 1 <= |n|
    ensures if t.kids == [] then Visits(n, j + 1, 0) == [] else Visits(n, j + 1, 0) != [] && Visits(n, j + 1, 0)[0] == Visit(KidAt(t, 0, j), 1)
  {
    hide Flatten, Here, Visits, LastScan;
    VisitsNode(n, j, t);
    assert t.kids[..0] == [] && FlattenAll([]) == [];
  }

  /** From the root counted at depth 1 nothing at depth 1 follows. */
  lemma NextOfRoot(t: Tree)
    ensures Size(t) > 0 && FirstTop(Visits(Flatten(t), 1, 1)) == None
  {
    hide Flatten, Here, Visits, ListingAll;
    var n := Flatten(t);
    assert Here(n, 0, n) by { WholeHere(n); }
    HereNode(n, 0, t);
    VisitsInside(n, 0, 1, t);
    ListingAllDeep(t.kids, 1 + |t.props|, 2);
    SkipClose(n, Size(t) - 1, 1);
    VisitsEnd(n, 0);
    TopAfterDeep(ListingAll(t.kids, 1 + |t.props|, 2), []);
  }

  lemma WholeHere(n: seq<Item>)
    ensures Here(n, 0, n)
  {
  }

  lemma VisitsEnd(n: seq<Item>, d: int)
    ensures Visits(n, |n|, d) == []
  {
  }
}
