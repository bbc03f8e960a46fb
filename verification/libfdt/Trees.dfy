/** Device trees, the item stream that stands for one, and edits below a node. */
module Trees {

  import opened Bytes
  import opened Tokens

  datatype Field = Field(key: seq<byte>, val: seq<byte>)

  datatype Tree = Node(name: seq<byte>, props: seq<Field>, kids: seq<Tree>)

  /** Child numbers from the root. */
  type Path = seq<nat>

  function PropItems(ps: seq<Field>): (r: seq<Item>)
    ensures |r| == |ps| && forall i :: 0 <= i < |ps| ==> r[i] == Property(ps[i].key, ps[i].val)
  {
    seq(|ps|, i requires 0 <= i < |ps| => Property(ps[i].key, ps[i].val))
  }

  function Flatten(t: Tree): seq<Item>
    decreases t, 0
  {
    [Open(t.name)] + PropItems(t.props) + FlattenAll(t.kids) + [Close]
  }

  function FlattenAll(ts: seq<Tree>): seq<Item>
    decreases ts, 1
  {
    if ts == [] then [] else Flatten(ts[0]) + FlattenAll(ts[1..])
  }

  lemma Flattened(t: Tree)
    ensures Flatten(t) == [Open(t.name)] + PropItems(t.props) + (FlattenAll(t.kids) + [Close])
  {
  }

  lemma {:induction false} FlattenAllConcat(a: seq<Tree>, b: seq<Tree>)
    ensures FlattenAll(a + b) == FlattenAll(a) + FlattenAll(b)
  {
    if a == [] {
      assert a + b == b;
    } else {
      assert (a + b)[1..] == a[1..] + b;
      FlattenAllConcat(a[1..], b);
    }
  }

  lemma FlattenOne(t: Tree)
    ensures FlattenAll([t]) == Flatten(t)
  {
    assert [t][1..] == [] && FlattenAll([]) == [];
  }

  // ----- nodes named by a path

  predicate HasNode(t: Tree, p: Path)
  {
    p == [] || (p[0] < |t.kids| && HasNode(t.kids[p[0]], p[1..]))
  }

  function NodeOf(t: Tree, p: Path): Tree
    requires HasNode(t, p)
  {
    if p == [] then t else NodeOf(t.kids[p[0]], p[1..])
  }

  /** t with the node at p replaced. */
  function Replaced(t: Tree, p: Path, u: Tree): Tree
    requires HasNode(t, p)
  {
    if p == [] then u else t.(kids := t.kids[p[0] := Replaced(t.kids[p[0]], p[1..], u)])
  }

  /** t without the node at p. */
  function Removed(t: Tree, p: Path): Tree
    requires HasNode(t, p) && p != []
  {
    if |p| == 1 then t.(kids := t.kids[..p[0]] + t.kids[p[0] + 1..])
    else t.(kids := t.kids[p[0] := Removed(t.kids[p[0]], p[1..])])
  }

  /** The items of t before and after those of the node at p. */
  function ItemsBefore(t: Tree, p: Path): seq<Item>
    requires HasNode(t, p)
  {
    if p == [] then []
    else [Open(t.name)] + PropItems(t.props) + FlattenAll(t.kids[..p[0]]) + ItemsBefore(t.kids[p[0]], p[1..])
  }

  function ItemsAfter(t: Tree, p: Path): seq<Item>
    requires HasNode(t, p)
  {
    if p == [] then []
    else ItemsAfter(t.kids[p[0]], p[1..]) + FlattenAll(t.kids[p[0] + 1..]) + [Close]
  }

  /** One level: the items of t around those of its kids [i..j). */
  lemma FlattenLevel(t: Tree, i: nat, mid: seq<Tree>, rest: seq<Tree>)
    requires i <= |t.kids| && t.kids == t.kids[..i] + mid + rest
    ensures Flatten(t)
         == [Open(t.name)] + PropItems(t.props) + FlattenAll(t.kids[..i]) + FlattenAll(mid) + (FlattenAll(rest) + [Close])
  {
    FlattenAllConcat(t.kids[..i], mid);
    FlattenAllConcat(t.kids[..i] + mid, rest);
  }

  lemma {:induction false} FlattenAround(t: Tree, p: Path)
    requires HasNode(t, p)
    ensures Flatten(t) == ItemsBefore(t, p) + Flatten(NodeOf(t, p)) + ItemsAfter(t, p)
  {
    hide Flatten;
    if p != [] {
      var k := t.kids[p[0]];
      FlattenAround(k, p[1..]);
      FlattenOne(k);
      FlattenLevel(t, p[0], [k], t.kids[p[0] + 1..]);
    }
  }

  /** Replacing a node replaces exactly its own items. */
  lemma {:induction false} FlattenReplaced(t: Tree, p: Path, u: Tree)
    requires HasNode(t, p)
    ensures Flatten(Replaced(t, p, u)) == ItemsBefore(t, p) + Flatten(u) + ItemsAfter(t, p)
  {
    hide Flatten;
    if p != [] {
      FlattenReplaced(t.kids[p[0]], p[1..], u);
      FlattenWithKid(t, p[0], Replaced(t.kids[p[0]], p[1..], u));
    }
  }

  /** Removing a node removes exactly its own items. */
  lemma {:induction false} FlattenRemoved(t: Tree, p: Path)
    requires HasNode(t, p) && p != []
    ensures Flatten(Removed(t, p)) == ItemsBefore(t, p) + ItemsAfter(t, p)
  {
    hide Flatten, FlattenAll, PropItems;
    if |p| == 1 {
      FlattenWithoutKid(t, p[0]);
      BareNode(t.kids[p[0]], p[1..]);
    } else {
      var i := p[0];
      var k := Removed(t.kids[i], p[1..]);
      FlattenRemoved(t.kids[i], p[1..]);
      FlattenWithKid(t, i, k);
    }
  }

  lemma BareNode(t: Tree, p: Path)
    requires p == []
    ensures ItemsBefore(t, p) == [] && ItemsAfter(t, p) == []
  {
  }

  lemma FlattenWithoutKid(t: Tree, i: nat)
    requires i < |t.kids|
    ensures Flatten(t.(kids := t.kids[..i] + t.kids[i + 1..]))
         == [Open(t.name)] + PropItems(t.props) + FlattenAll(t.kids[..i]) + (FlattenAll(t.kids[i + 1..]) + [Close])
  {
    hide Flatten, PropItems;
    var t' := t.(kids := t.kids[..i] + t.kids[i + 1..]);
    assert t'.kids[..i] == t.kids[..i] && t'.kids == t'.kids[..i] + [] + t.kids[i + 1..];
    FlattenLevel(t', i, [], t.kids[i + 1..]);
  }

  lemma FlattenWithKid(t: Tree, i: nat, k: Tree)
    requires i < |t.kids|
    ensures Flatten(t.(kids := t.kids[i := k]))
         == [Open(t.name)] + PropItems(t.props) + FlattenAll(t.kids[..i]) + Flatten(k) + (FlattenAll(t.kids[i + 1..]) + [Close])
  {
    hide Flatten, PropItems, FlattenAll;
    var t' := t.(kids := t.kids[i := k]);
    FlattenOne(k);
    assert t'.kids[..i] == t.kids[..i] && t'.kids[i + 1..] == t.kids[i + 1..];
    FlattenLevel(t', i, [k], t.kids[i + 1..]);
  }

  /** What a replacement does to the tree as a whole: every node off the path keeps its name, its
      properties and its own place. */
  lemma {:induction false} ReplacedElsewhere(t: Tree, p: Path, u: Tree, q: Path)
    requires HasNode(t, p) && HasNode(t, q) && !(p <= q) && !(q <= p)
    ensures HasNode(Replaced(t, p, u), q) && NodeOf(Replaced(t, p, u), q) == NodeOf(t, q)
  {
    if p[0] == q[0] {
      assert p == [p[0]] + p[1..] && q == [q[0]] + q[1..];
      ReplacedElsewhere(t.kids[p[0]], p[1..], u, q[1..]);
    }
  }

  // ----- the item stream determines the tree

  /** Two item streams that start with trees start with the same tree. */
  lemma {:induction false} FlattenInjective(t: Tree, u: Tree, a: seq<Item>, b: seq<Item>)
    requires Flatten(t) + a == Flatten(u) + b
    ensures t == u && a == b
    decreases t, 1
  {
    var x, y := Flatten(t) + a, Flatten(u) + b;
    assert x[0] == Open(t.name) && y[0] == Open(u.name);
    var x', y' := FlattenAll(t.kids) + ([Close] + a), FlattenAll(u.kids) + ([Close] + b);
    assert x[1..] == PropItems(t.props) + x' && y[1..] == PropItems(u.props) + y';
    KidsStart(t.kids, a); KidsStart(u.kids, b);
    hide FlattenAll, Flatten;
    PropsInjective(t.props, u.props, x', y');
    KidsInjective(t.kids, u.kids, a, b);
  }

  predicate NoProperty(s: seq<Item>)
  {
    s != [] && !s[0].Property?
  }

  lemma KidsStart(ts: seq<Tree>, a: seq<Item>)
    ensures NoProperty(FlattenAll(ts) + ([Close] + a))
    ensures (FlattenAll(ts) + ([Close] + a))[0].Close? <==> ts == []
  {
  }

  lemma PropsInjective(ps: seq<Field>, qs: seq<Field>, a: seq<Item>, b: seq<Item>)
    requires PropItems(ps) + a == PropItems(qs) + b && NoProperty(a) && NoProperty(b)
    ensures ps == qs && a == b
  {
    var x, y := PropItems(ps) + a, PropItems(qs) + b;
    assert x[|ps|] == a[0] && y[|qs|] == b[0];
    forall i | 0 <= i < |ps| ensures ps[i] == qs[i] { assert x[i] == y[i]; }
    assert a == x[|ps|..] && b == y[|qs|..];
  }

  lemma {:induction false} KidsInjective(ts: seq<Tree>, us: seq<Tree>, a: seq<Item>, b: seq<Item>)
    requires FlattenAll(ts) + ([Close] + a) == FlattenAll(us) + ([Close] + b)
    ensures ts == us && a == b
    decreases ts, 0
  {
    KidsStart(ts, a); KidsStart(us, b);
    var x, y := FlattenAll(ts) + ([Close] + a), FlattenAll(us) + ([Close] + b);
    assert x[0] == y[0];
    if ts != [] {
      var a', b' := FlattenAll(ts[1..]) + ([Close] + a), FlattenAll(us[1..]) + ([Close] + b);
      assert FlattenAll(ts) + ([Close] + a) == Flatten(ts[0]) + a';
      assert FlattenAll(us) + ([Close] + b) == Flatten(us[0]) + b';
      FlattenInjective(ts[0], us[0], a', b');
      KidsInjective(ts[1..], us[1..], a, b);
      assert ts == [ts[0]] + ts[1..] && us == [us[0]] + us[1..];
    } else {
      assert FlattenAll(ts) == [] == FlattenAll(us);
      assert a == x[1..] && b == y[1..];
    }
  }
}
