/** Node offsets of a blob as nodes of the tree it stands for. */
module Nodes {

  import opened Bytes
  import opened Tokens
  import opened Trees
  import opened Blob
  import opened Cursor
  import opened Fdt
  import opened Walk
  import opened Lookup

  /** o is the offset of the node of t at p. */
  ghost predicate NodeAt(s: seq<byte>, t: Tree, p: Path, o: int)
  {
    HasNode(t, p) && ItemAt(s, o, IndexOf(t, p))
  }

  lemma DenotesText(s: seq<byte>, t: Tree)
    requires Denotes(s, t)
    ensures Sound(s) && Legible(s) && Content(s) == Flatten(t) && CheckHeader(s) == 0
  {
    hide U32, Streams, StreamLen, Region, Strings, RsvCount, Items, AllItems, HasAllItems;
  }

  /** A sound blob with the items of a tree stands for it. */
  lemma TextDenotes(s: seq<byte>, t: Tree)
    requires Sound(s) && Legible(s) && Content(s) == Flatten(t)
    ensures Denotes(s, t)
  {
    hide U32, Streams, StreamLen, Region, Strings, RsvCount, Items, AllItems, HasAllItems;
  }

  lemma NodeText(s: seq<byte>, t: Tree, p: Path, o: int)
    requires Denotes(s, t) && NodeAt(s, t, p, o)
    ensures Legible(s) && Content(s) == Flatten(t) && CheckHeader(s) == 0
    ensures var i, u := IndexOf(t, p), NodeOf(t, p);
      && i + Size(u) <= |Content(s)| && Here(Content(s), i, Flatten(u)) && Content(s)[i] == Open(u.name)
      && 0 <= o < LIMIT - 4 && OnItem(s, o, i) && ItemAt(s, o, i)
      && TagAt(Region(s), o) == Tag(BEGIN_NODE, o + 4 + Align4(|u.name| + 1))
      && OnItem(s, o + 4 + Align4(|u.name| + 1), i + 1)
  {
    hide Denotes, Legible, Content, OnItem, Region, TagAt, Flatten, Strings, ItemAt, ItemEnds, Here, IndexOf, FlattenAll, PropItems;
    DenotesText(s, t);
    NodeHere(t, p);
    HereNode(Flatten(t), IndexOf(t, p), NodeOf(t, p));
    ItemOnBoundary(s, o, IndexOf(t, p));
    TagTells(s, o, IndexOf(t, p));
    OpenBytes(s, o, IndexOf(t, p));
  }

  lemma ItemOnBoundary(s: seq<byte>, o: int, i: int)
    requires ItemAt(s, o, i)
    ensures OnItem(s, o, i)
  {
  }

  // ----- every node offset is the offset of exactly one node

  lemma {:induction false} PathOfItem(t: Tree, k: nat) returns (p: Path)
    requires k < Size(t) && Flatten(t)[k].Open?
    ensures HasNode(t, p) && IndexOf(t, p) == k
    decreases t, 1
  {
    OpenInside(t);
    if k == 0 {
      p := [];
    } else {
      var q := PathOfKid(t.kids, k - 1 - |t.props|);
      p := q;
      IndexBelow(t, p, 0);
    }
  }

  lemma OpenInside(t: Tree)
    ensures Size(t) == 2 + |t.props| + |FlattenAll(t.kids)|
    ensures forall k :: 0 < k < Size(t) && Flatten(t)[k].Open? ==> k > |t.props| && k < Size(t) - 1 && FlattenAll(t.kids)[k - 1 - |t.props|].Open?
  {
  }

  lemma {:induction false} PathOfKid(ts: seq<Tree>, k: nat) returns (p: Path)
    requires k < |FlattenAll(ts)| && FlattenAll(ts)[k].Open?
    ensures p != [] && p[0] < |ts| && HasNode(ts[p[0]], p[1..])
    ensures |FlattenAll(ts[..p[0]])| + IndexOf(ts[p[0]], p[1..]) == k
    decreases ts, 0
  {
    if k < Size(ts[0]) {
      var q := PathOfItem(ts[0], k);
      p := [0] + q;
      assert p[1..] == q && ts[..0] == [];
    } else {
      var q := PathOfKid(ts[1..], k - Size(ts[0]));
      p := [q[0] + 1] + q[1..];
      assert p[1..] == q[1..];
      assert ts[..p[0]][1..] == ts[1..][..q[0]] && ts[..p[0]][0] == ts[0];
    }
  }

  /** Whatever fdt_next_tag calls a node at a token boundary is a node of the tree. */
  lemma NodeOfOffset(s: seq<byte>, t: Tree, o: int, j: int) returns (p: Path)
    requires Denotes(s, t) && OnItem(s, o, j) && o >= 0 && TagAt(Region(s), o).tag == BEGIN_NODE
    ensures NodeAt(s, t, p, o)
  {
    hide Denotes, Content, OnItem, Region, TagAt, Flatten, Legible;
    DenotesText(s, t);
    TagTells(s, o, j);
    p := PathOfItem(t, j);
  }

  lemma {:induction false} PathsDiffer(t: Tree, p: Path, q: Path)
    requires HasNode(t, p) && HasNode(t, q) && IndexOf(t, p) == IndexOf(t, q)
    ensures p == q
  {
    if p != [] && q != [] {
      IndexBelow(t, p, 0); IndexBelow(t, q, 0);
      var i, j := p[0], q[0];
      if i < j { KidsDiffer(t, i, j, p[1..]); }
      if j < i { KidsDiffer(t, j, i, q[1..]); }
      PathsDiffer(t.kids[i], p[1..], q[1..]);
      assert p == [p[0]] + p[1..] && q == [q[0]] + q[1..];
    }
  }

  /** A node under kid i lies before kid j. */
  lemma KidsDiffer(t: Tree, i: nat, j: nat, r: Path)
    requires i < j < |t.kids| && HasNode(t.kids[i], r)
    ensures |FlattenAll(t.kids[..i])| + IndexOf(t.kids[i], r) < |FlattenAll(t.kids[..j])|
  {
    FlattenAround(t.kids[i], r);
    assert t.kids[..j] == t.kids[..i] + t.kids[i..j] && t.kids[i..j][0] == t.kids[i];
    FlattenAllConcat(t.kids[..i], t.kids[i..j]);
  }

  /** Two offsets of one node are equal, and one offset is of one node. */
  lemma NodeOffsetsUnique(s: seq<byte>, t: Tree, p: Path, o: int, q: Path, o': int)
    requires Denotes(s, t) && NodeAt(s, t, p, o) && NodeAt(s, t, q, o')
    ensures o == o' <==> p == q
  {
    StartsOrdered(Region(s), Strings(s), o, IndexOf(t, p), o', IndexOf(t, q));
    if o == o' { PathsDiffer(t, p, q); }
  }
}
