/** The edits of a node that the read-write functions make, and what they do to its items. */
module TreeEdits {

  import opened Bytes
  import opened Tokens
  import opened Trees
  import opened Walk
  import opened Lookup

  // ----- the edits

  /** fdt_setprop: the first property of that name gets the value; a new one becomes the first property. */
  function WithProp(t: Tree, key: seq<byte>, val: seq<byte>): Tree
  {
    var i := FirstKey(t.props, key);
    if i < |t.props| then t.(props := t.props[i := Field(key, val)]) else t.(props := [Field(key, val)] + t.props)
  }

  /** fdt_delprop */
  function WithoutProp(t: Tree, key: seq<byte>): Tree
    requires FirstKey(t.props, key) < |t.props|
  {
    var i := FirstKey(t.props, key);
    t.(props := t.props[..i] + t.props[i + 1..])
  }

  /** fdt_add_subnode: an empty node becomes the first child. */
  function WithKid(t: Tree, name: seq<byte>): Tree
  {
    t.(kids := [Node(name, [], [])] + t.kids)
  }

  // ----- what they mean to a reader

  /** After setting a property the node has that value for it and the old one for every other. */
  lemma SetThenGet(t: Tree, key: seq<byte>, val: seq<byte>, other: seq<byte>)
    ensures var t' := WithProp(t, key, val); var i, i' := FirstKey(t.props, other), FirstKey(t'.props, other);
      && t'.name == t.name && t'.kids == t.kids
      && (other == key ==> i' < |t'.props| && t'.props[i'].val == val)
      && (other != key ==> (i' < |t'.props| <==> i < |t.props|) && (i < |t.props| ==> t'.props[i'] == t.props[i]))
  {
    var t' := WithProp(t, key, val);
    var k := FirstKey(t.props, key);
    var i := FirstKey(t.props, other);
    hide FirstKey;
    if k < |t.props| {
      FirstKeyIs(t'.props, other, if other == key then k else i);
    } else {
      FirstKeyIs(t'.props, other, if other == key then 0 else i + 1);
    }
  }

  lemma {:induction false} FirstKeyIs(ps: seq<Field>, key: seq<byte>, i: nat)
    requires i <= |ps| && (i < |ps| ==> ps[i].key == key) && forall k :: 0 <= k < i ==> ps[k].key != key
    ensures FirstKey(ps, key) == i
  {
    if i > 0 { FirstKeyIs(ps[1..], key, i - 1); }
  }

  /** Deleting a property keeps every property of another name, in order. */
  lemma DeleteThenGet(t: Tree, key: seq<byte>, other: seq<byte>)
    requires FirstKey(t.props, key) < |t.props| && other != key
    ensures var t' := WithoutProp(t, key); var i, i' := FirstKey(t.props, other), FirstKey(t'.props, other);
      && t'.name == t.name && t'.kids == t.kids
      && (i' < |t'.props| <==> i < |t.props|) && (i < |t.props| ==> t'.props[i'] == t.props[i])
  {
    var t' := WithoutProp(t, key);
    var k := FirstKey(t.props, key);
    var i := FirstKey(t.props, other);
    hide FirstKey;
    FirstKeyIs(t'.props, other, if i < k then i else i - 1);
  }

  // ----- what they do to the items

  lemma PropItemsConcat(a: seq<Field>, b: seq<Field>)
    ensures PropItems(a + b) == PropItems(a) + PropItems(b)
  {
  }

  /** Replacing the properties [i..k) of a node. */
  lemma FlattenProps(t: Tree, i: nat, k: nat, mid: seq<Field>)
    requires i <= k <= |t.props|
    ensures 1 + k < Size(t)
    ensures Flatten(t.(props := t.props[..i] + mid + t.props[k..])) == Flatten(t)[..1 + i] + PropItems(mid) + Flatten(t)[1 + k..]
  {
    hide Flatten, PropItems;
    var ps := t.props;
    PropItemsConcat(ps[..i] + mid, ps[k..]);
    PropItemsConcat(ps[..i], mid);
    PropItemsConcat(ps[..i] + ps[i..k], ps[k..]);
    PropItemsConcat(ps[..i], ps[i..k]);
    assert ps == ps[..i] + ps[i..k] + ps[k..];
    Flattened(t);
    Flattened(t.(props := ps[..i] + mid + ps[k..]));
    AroundMiddle([Open(t.name)], PropItems(ps[..i]), PropItems(ps[i..k]), PropItems(ps[k..]), FlattenAll(t.kids) + [Close]);
    assert |PropItems(ps[..i])| == i && |PropItems(ps[i..k])| == k - i;
  }

  lemma AroundMiddle<T>(h: seq<T>, x: seq<T>, m: seq<T>, y: seq<T>, r: seq<T>)
    ensures var f := h + (x + m + y) + r; f[..|h| + |x|] == h + x && f[|h| + |x| + |m|..] == y + r
  {
  }

  lemma FlattenKid(t: Tree, u: Tree)
    ensures 1 + |t.props| < Size(t)
    ensures Flatten(t.(kids := [u] + t.kids)) == Flatten(t)[..1 + |t.props|] + Flatten(u) + Flatten(t)[1 + |t.props|..]
  {
    Flattened(t);
    Flattened(t.(kids := [u] + t.kids));
    hide Flatten;
    assert ([u] + t.kids)[1..] == t.kids;
    assert Flatten(t)[..1 + |t.props|] == [Open(t.name)] + PropItems(t.props);
    assert Flatten(t)[1 + |t.props|..] == FlattenAll(t.kids) + [Close];
  }

  lemma FlattenName(t: Tree, name: seq<byte>)
    ensures 1 < Size(t)
    ensures Flatten(t.(name := name)) == Flatten(t)[..0] + [Open(name)] + Flatten(t)[1..]
  {
  }

  /** An edit of some items of one node, in the items of the whole tree. */
  lemma EditInTree(t: Tree, p: Path, u: Tree, a: nat, b: nat, x: seq<Item>)
    requires HasNode(t, p) && a <= b <= Size(NodeOf(t, p))
    requires Flatten(u) == Flatten(NodeOf(t, p))[..a] + x + Flatten(NodeOf(t, p))[b..]
    ensures var i := IndexOf(t, p);
      i + b <= Size(t) && Flatten(Replaced(t, p, u)) == Flatten(t)[..i + a] + x + Flatten(t)[i + b..]
  {
    hide Flatten;
    FlattenAround(t, p);
    FlattenReplaced(t, p, u);
    var m := Flatten(NodeOf(t, p));
    assert m == m[..a] + m[a..b] + m[b..];
    AroundMiddle(ItemsBefore(t, p), m[..a], m[a..b], m[b..], ItemsAfter(t, p));
  }

  /** Removing a node, in the items of the whole tree. */
  lemma RemoveInTree(t: Tree, p: Path)
    requires HasNode(t, p) && p != []
    ensures var i := IndexOf(t, p); var n := Size(NodeOf(t, p));
      i + n <= Size(t) && Flatten(Removed(t, p)) == Flatten(t)[..i] + Flatten(t)[i + n..]
  {
    hide Flatten;
    FlattenAround(t, p);
    FlattenRemoved(t, p);
  }
}
