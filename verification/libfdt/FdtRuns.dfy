/** Runs of edits on one blob: each finds its node from the root and is made in the room the edits before it left. */
module FdtRuns {

  import opened Bytes
  import opened Tokens
  import opened Trees
  import opened TreeEdits
  import opened Blob
  import opened Cursor
  import opened Fdt
  import opened FdtRo
  import opened FdtRw
  import opened FdtPack
  import opened Edits
  import opened Walk
  import opened Lookup
  import opened Nodes

  // ----- a node stays where it is while only what is behind its tag changes

  /** Boundaries before the edit stay boundaries, with the same items before them. */
  lemma EarlierBoundary(s: seq<byte>, s': seq<byte>, o: nat, oldlen: nat, newlen: nat, more: seq<byte>, at: int, j: int)
    requires RelaidAt(s, s', o, oldlen, newlen, more) && OnItem(s, at, j) && at <= o
    ensures OnItem(s', at, j)
  {
    hide U32, Parses, Parse, Region, Strings, Head;
    var b, b' := Region(s), Region(s');
    assert b'[..at] == b'[..o][..at] && b[..at] == b[..o][..at];
    ResolveGrown(Parse(b[..at]), Strings(s), more);
  }

  /** A node before the edit has the same offset in the new blob, if it is the same item there. */
  lemma EarlierStays(s: seq<byte>, s': seq<byte>, t: Tree, t': Tree, q: Path, at: nat, o: nat, oldlen: nat, newlen: nat, more: seq<byte>)
    requires Denotes(s, t) && Denotes(s', t') && NodeAt(s, t, q, at) && at + 4 <= o && RelaidAt(s, s', o, oldlen, newlen, more)
    requires HasNode(t', q) && IndexOf(t', q) == IndexOf(t, q)
    ensures NodeAt(s', t', q, at)
  {
    hide Denotes, Legible, Content, OnItem, Region, U32, Strings, Head, Flatten, TagAt, Here;
    NodeText(s, t, q, at);
    Flattened(NodeOf(t, q));
    NodeTag(s, at, IndexOf(t, q));
    EarlierBoundary(s, s', o, oldlen, newlen, more, at, IndexOf(t, q));
    SameTag(s, s', o, oldlen, newlen, more, at);
    hide ItemAt;
    PieceTag(s', t', at, 4, IndexOf(t, q));
  }

  lemma SameTag(s: seq<byte>, s': seq<byte>, o: nat, oldlen: nat, newlen: nat, more: seq<byte>, at: nat)
    requires RelaidAt(s, s', o, oldlen, newlen, more) && at + 4 <= o
    ensures at + 4 <= |Region(s)| && at + 4 <= |Region(s')| && U32(Region(s')[at..at + 4], 0) == U32(Region(s), at)
  {
    hide U32, Region, Strings, Head;
    var b, b' := Region(s), Region(s');
    assert b'[at..at + 4] == b'[..o][at..at + 4] == b[..o][at..at + 4] == b[at..at + 4];
    assert b'[at..at + 4][0..4] == b[at..at + 4];
    SameWord(b'[at..at + 4], b, 0, at);
  }

  /** Neither the root nor the edited node itself moves. */
  lemma {:induction false} IndexKept(t: Tree, p: Path, u: Tree)
    requires HasNode(t, p)
    ensures HasNode(Replaced(t, p, u), p) && IndexOf(Replaced(t, p, u), p) == IndexOf(t, p) && NodeOf(Replaced(t, p, u), p) == u
  {
    hide Flatten, FlattenAll;
    if p != [] {
      IndexKept(t.kids[p[0]], p[1..], u);
      var t' := Replaced(t, p, u);
      assert t'.kids[..p[0]] == t.kids[..p[0]];
      IndexBelow(t, p, 0);
      IndexBelow(t', p, 0);
    }
  }

  /** The node edited keeps its offset, and so does the root. */
  lemma EditedStays(s: seq<byte>, s': seq<byte>, t: Tree, p: Path, u: Tree, node: nat, oldlen: nat, newlen: nat, more: seq<byte>)
    requires Denotes(s, t) && NodeAt(s, t, p, node) && Becomes(s, s', Replaced(t, p, u))
    requires Relaid(s, s', node + 4, oldlen, newlen, more)
    ensures NodeAt(s', Replaced(t, p, u), p, node)
    ensures ItemAt(s, 0, 0) ==> ItemAt(s', 0, 0)
  {
    hide Denotes, ItemAt, RelaidAt;
    var o: nat :| o >= node + 4 && RelaidAt(s, s', o, oldlen, newlen, more);
    BecomesDenotes(s, s', Replaced(t, p, u));
    IndexKept(t, p, u);
    EarlierStays(s, s', t, Replaced(t, p, u), p, node, o, oldlen, newlen, more);
    if ItemAt(s, 0, 0) {
      RootIndex(t);
      RootIndex(Replaced(t, p, u));
      EarlierStays(s, s', t, Replaced(t, p, u), [], 0, o, oldlen, newlen, more);
    }
  }

  // ----- finding a node by child numbers

  lemma {:induction false} KidExists(t: Tree, q: Path, i: nat)
    requires HasNode(t, q)
    ensures HasNode(t, q + [i]) <==> i < |NodeOf(t, q).kids|
  {
    if q == [] {
      assert [] + [i] == [i] && [i][1..] == [];
    } else {
      KidExists(t.kids[q[0]], q[1..], i);
      assert (q + [i])[1..] == q[1..] + [i];
    }
  }

  lemma {:induction false} PrefixExists(t: Tree, p: Path, i: nat)
    requires HasNode(t, p) && i <= |p|
    ensures HasNode(t, p[..i])
  {
    if i > 0 {
      PrefixExists(t.kids[p[0]], p[1..], i - 1);
      assert p[..i][1..] == p[1..][..i - 1];
    }
  }

  /** The k-th child, by fdt_first_subnode and fdt_next_subnode. */
  method NthKid(fdt: array<byte>, node: nat, k: nat, ghost t: Tree, ghost q: Path) returns (r: int)
    requires Denotes(fdt[..], t) && NodeAt(fdt[..], t, q, node)
    ensures HasNode(t, q) && if k < |NodeOf(t, q).kids| then HasNode(t, q + [k]) && NodeAt(fdt[..], t, q + [k], r) && r >= 0 else r == -NOTFOUND
  {
    hide Denotes, ItemAt, IndexOf;
    ghost var s := fdt[..];
    r := FirstSubnode(fdt, node, t, q);
    var i := 0;
    while i < k && r >= 0
      invariant i <= k && fdt[..] == s
      invariant if i < |NodeOf(t, q).kids| then HasNode(t, q + [i]) && NodeAt(s, t, q + [i], r) && r >= 0
                else r == -NOTFOUND
    {
      r := NextSubnode(fdt, r, t, q + [i]);
      assert Beside(q + [i]) == q + [i + 1];
      KidExists(t, q, i + 1);
      NodeIsThere(s, t, q + [i + 1], r);
      i := i + 1;
    }
  }

  lemma NodeIsThere(s: seq<byte>, t: Tree, p: Path, o: int)
    ensures NodeAt(s, t, p, o) ==> o >= 0
  {
  }

  /** The node at p, from the root at offset 0. */
  method Locate(fdt: array<byte>, p: Path, ghost t: Tree) returns (offset: int)
    requires Denotes(fdt[..], t) && ItemAt(fdt[..], 0, 0)
    ensures if HasNode(t, p) then NodeAt(fdt[..], t, p, offset) && offset >= 0 else offset == -NOTFOUND
  {
    hide Denotes, ItemAt, IndexOf;
    ghost var s := fdt[..];
    offset := 0;
    RootIndex(t);
    var i := 0;
    assert p[..0] == [];
    while i < |p|
      invariant i <= |p| && fdt[..] == s && offset >= 0 && HasNode(t, p[..i]) && NodeAt(s, t, p[..i], offset)
    {
      assert p[..i] + [p[i]] == p[..i + 1];
      KidExists(t, p[..i], p[i]);
      offset := NthKid(fdt, offset, p[i], t, p[..i]);
      if offset < 0 {
        if HasNode(t, p) { PrefixExists(t, p, i + 1); }
        return;
      }
      i := i + 1;
    }
    assert p[..i] == p;
  }

  // ----- what a list of edits does

  datatype Edit =
    | PropertySet(p: Path, key: seq<byte>, val: seq<byte>)
    | PropertyGone(p: Path, key: seq<byte>)
    | NameSet(p: Path, name: seq<byte>)
    | ChildAdded(p: Path, name: seq<byte>)

  /** The tree, the strings, and the bytes left behind them. */
  datatype State = State(tree: Tree, strs: seq<byte>, left: int)

  /** What a C caller can pass. */
  predicate Askable(e: Edit)
  {
    match e
    case PropertySet(_, key, val) => CString(key) && |val| < LIMIT - 16
    case PropertyGone(_, key) => true
    case NameSet(_, name) => CString(name) && |name| < LIMIT - 16
    case ChildAdded(_, name) => CString(name) && |name| < LIMIT - 16
  }

  /** n bytes more in the structure block and a string more, if there is room. */
  function Grow(st: State, t': Tree, n: int, more: seq<byte>): (int, State)
  {
    if n + |more| <= st.left then (0, State(t', st.strs + more, st.left - n - |more|)) else (-NOSPACE, st)
  }

  ghost function Effect(st: State, e: Edit): (int, State)
  {
    if !HasNode(st.tree, e.p) then (-NOTFOUND, st)
    else
      var t, u := st.tree, NodeOf(st.tree, e.p);
      match e
      case PropertySet(p, key, val) =>
        Grow(st, Replaced(t, p, WithProp(u, key, val)), PropRoom(|val|) - OldPropRoom(u, key), SetPropName(st.strs, u, key))
      case PropertyGone(p, key) =>
        if FirstKey(u.props, key) < |u.props| then Grow(st, Replaced(t, p, WithoutProp(u, key)), 0 - OldPropRoom(u, key), []) else (-NOTFOUND, st)
      case NameSet(p, name) =>
        Grow(st, Replaced(t, p, u.(name := name)), Align4(|name| + 1) - Align4(|u.name| + 1), [])
      case ChildAdded(p, name) =>
        if FirstKid(u.kids, name) < |u.kids| then (-EXISTS, st) else Grow(st, Replaced(t, p, WithKid(u, name)), NodeRoom(name), [])
  }

  /** One edit after the other, up to the first that fails. */
  ghost function Effects(st: State, es: seq<Edit>): (int, State)
    decreases |es|
  {
    if es == [] then (0, st)
    else
      var (err, st') := Effect(st, es[0]);
      if err != 0 then (err, st) else Effects(st', es[1..])
  }

  /** s can be edited and stands for the tree, with these strings and this room; its root is at offset 0. */
  ghost predicate Holds(s: seq<byte>, st: State)
  {
    && Denotes(s, st.tree) && |s| >= HEADER_SIZE && RwError(Head(s)) == 0 && Strings(s) == st.strs && ItemAt(s, 0, 0)
    && forall n: int :: Room(s, n) <==> n <= st.left
  }

  /** After one edit. */
  ghost predicate Done(s: seq<byte>, s': seq<byte>, st: State, r: (int, State), err: int)
  {
    && err == r.0 && Sound(s) && Sound(s') && Reserved(s') == Reserved(s) && Denotes(s', r.1.tree)
    && (err == 0 ==> Holds(s', r.1)) && (err != 0 ==> r.1 == st)
  }

  lemma GrownHolds(s: seq<byte>, s': seq<byte>, st: State, p: Path, u: Tree, node: nat, oldlen: nat, newlen: nat, more: seq<byte>, err: int)
    requires Holds(s, st) && NodeAt(s, st.tree, p, node) && HasNode(st.tree, p)
    requires EditResult(s, s', st.tree, Replaced(st.tree, p, u), node + 4, oldlen, newlen, more, err)
    ensures Done(s, s', st, Grow(st, Replaced(st.tree, p, u), newlen - oldlen, more), err)
  {
    hide Denotes, ItemAt, NodeAt, Sound, RelaidAt, RwError, Room, Strings, Head;
    BecomesParts(s, s', if err == 0 then Replaced(st.tree, p, u) else st.tree);
    if err == 0 {
      EditedStays(s, s', st.tree, p, u, node, oldlen, newlen, more);
      RoomLeft(s, s', node + 4, oldlen, newlen, more);
      StringsAfter(s, s', node + 4, oldlen, newlen, more);
    }
  }

  lemma BecomesParts(s: seq<byte>, s': seq<byte>, t: Tree)
    requires Becomes(s, s', t)
    ensures Sound(s) && Sound(s') && Reserved(s') == Reserved(s) && Denotes(s', t)
  {
  }

  lemma StringsAfter(s: seq<byte>, s': seq<byte>, from: int, oldlen: nat, newlen: nat, more: seq<byte>)
    requires Relaid(s, s', from, oldlen, newlen, more)
    ensures Strings(s') == Strings(s) + more && |s'| >= HEADER_SIZE
  {
    hide Strings, Region, Head;
  }

  /** One edit of a blob. */
  method Apply(fdt: array<byte>, e: Edit, ghost st: State) returns (err: int)
    requires Holds(fdt[..], st) && Askable(e)
    modifies fdt
    ensures Done(old(fdt[..]), fdt[..], st, Effect(st, e), err)
  {
    hide Denotes, ItemAt, Sound, RelaidAt, RwError, Room, Strings, Head, Relaid, NodeAt, Becomes, SetPropName, FirstKey, FirstKid, WithProp, WithoutProp;
    ghost var s, t := fdt[..], st.tree;
    var node := Locate(fdt, e.p, t);
    assert fdt[..] == s;
    SoundThere(s, t);
    if node < 0 {
      return node;
    }
    ghost var u := NodeOf(t, e.p);
    match e {
      case PropertySet(p, key, val) =>
        err := SetProp(fdt, node, key, val, t, p);
        GrownHolds(s, fdt[..], st, p, WithProp(u, key, val), node, OldPropRoom(u, key), PropRoom(|val|), SetPropName(Strings(s), u, key), err);
      case PropertyGone(p, key) =>
        err := DelProp(fdt, node, key, t, p);
        DeletedHolds(s, fdt[..], st, p, key, node, err);
      case NameSet(p, name) =>
        err := SetName(fdt, node, name, t, p);
        GrownHolds(s, fdt[..], st, p, u.(name := name), node, Align4(|u.name| + 1), Align4(|name| + 1), [], err);
      case ChildAdded(p, name) =>
        var r := AddSubnode(fdt, node, name, t, p);
        err := if r >= 0 then 0 else r;
        KidHolds(s, fdt[..], st, p, node, name, r);
    }
  }

  lemma SoundThere(s: seq<byte>, t: Tree)
    requires Denotes(s, t)
    ensures Sound(s)
  {
  }

  lemma DeletedHolds(s: seq<byte>, s': seq<byte>, st: State, p: Path, key: seq<byte>, node: nat, err: int)
    requires Holds(s, st) && NodeAt(s, st.tree, p, node) && HasNode(st.tree, p)
    requires var t, u := st.tree, NodeOf(st.tree, p); var found := FirstKey(u.props, key) < |u.props|;
      DeleteResult(s, s', t, found, if found then Replaced(t, p, WithoutProp(u, key)) else t, node + 4, OldPropRoom(u, key), err)
    ensures Done(s, s', st, Effect(st, PropertyGone(p, key)), err)
  {
    hide Denotes, ItemAt, NodeAt, Sound, RelaidAt, RwError, Strings, Head, FirstKey, WithoutProp, Becomes, Room;
    SoundThere(s, st.tree);
    var u := NodeOf(st.tree, p);
    var found := FirstKey(u.props, key) < |u.props|;
    EditableRoom(s);
    if found {
      assert EditResult(s, s', st.tree, Replaced(st.tree, p, WithoutProp(u, key)), node + 4, OldPropRoom(u, key), 0, [], err);
      GrownHolds(s, s', st, p, WithoutProp(u, key), node, OldPropRoom(u, key), 0, [], err);
    } else {
      BecomesParts(s, s', st.tree);
    }
  }

  /** What takes no room always fits. */
  lemma EditableRoom(s: seq<byte>)
    requires |s| >= HEADER_SIZE && RwError(Head(s)) == 0 && Sound(s)
    ensures forall n: int :: n <= 0 ==> Room(s, n)
  {
    hide U32, Streams, RsvCount, StreamLen, Region;
  }

  lemma KidHolds(s: seq<byte>, s': seq<byte>, st: State, p: Path, node: nat, name: seq<byte>, r: int)
    requires Holds(s, st) && NodeAt(s, st.tree, p, node) && HasNode(st.tree, p)
    requires AddNodeResult(s, s', st.tree, p, node, name, r)
    ensures Done(s, s', st, Effect(st, ChildAdded(p, name)), if r >= 0 then 0 else r)
  {
    hide Denotes, ItemAt, NodeAt, Sound, RelaidAt, RwError, Strings, Head, FirstKid, Becomes, Room, Relaid;
    var t, u := st.tree, NodeOf(st.tree, p);
    if FirstKid(u.kids, name) < |u.kids| {
      BecomesParts(s, s', t);
    } else if Room(s, NodeRoom(name)) {
      assert EditResult(s, s', t, Replaced(t, p, WithKid(u, name)), node + 4, 0, NodeRoom(name), [], 0);
      GrownHolds(s, s', st, p, WithKid(u, name), node, 0, NodeRoom(name), [], 0);
    } else {
      BecomesParts(s, s', t);
    }
  }

  lemma EffectsStep(st: State, es: seq<Edit>, i: nat)
    requires i < |es|
    ensures Effects(st, es[i..]) == if Effect(st, es[i]).0 != 0 then (Effect(st, es[i]).0, st) else Effects(Effect(st, es[i]).1, es[i + 1..])
  {
    hide Effect;
    assert es[i..][0] == es[i] && es[i..][1..] == es[i + 1..];
  }

  /** Any list of edits: each is made exactly if what it names exists and what it needs is left by the edits before it; the blob
      then stands for the tree with all of them made, and holds the room that is left. After a failure it stands for the tree
      with those before it. */
  method Replay(fdt: array<byte>, es: seq<Edit>, ghost st: State) returns (err: int)
    requires Holds(fdt[..], st) && forall i :: 0 <= i < |es| ==> Askable(es[i])
    modifies fdt
    ensures var s, s' := old(fdt[..]), fdt[..]; var r := Effects(st, es);
      && err == r.0 && Sound(s) && Sound(s') && Reserved(s') == Reserved(s) && Denotes(s', r.1.tree)
      && (err == 0 ==> Holds(s', r.1))
  {
    hide Holds, Effect, Askable, Denotes, Sound, Reserved, Effects;
    ghost var s, now := fdt[..], st;
    HoldsTree(s, st);
    var i := 0;
    assert es[0..] == es;
    while i < |es|
      invariant 0 <= i <= |es| && Holds(fdt[..], now) && Effects(st, es) == Effects(now, es[i..])
      invariant Sound(fdt[..]) && Reserved(fdt[..]) == Reserved(s) && Denotes(fdt[..], now.tree)
    {
      EffectsStep(now, es, i);
      err := Apply(fdt, es[i], now);
      if err != 0 {
        return;
      }
      now := Effect(now, es[i]).1;
      i := i + 1;
    }
    assert es[i..] == [];
    NoEffects(now);
    return 0;
  }

  lemma NoEffects(st: State)
    ensures Effects(st, []) == (0, st)
  {
  }

  lemma HoldsTree(s: seq<byte>, st: State)
    requires Holds(s, st)
    ensures Sound(s) && Denotes(s, st.tree)
  {
    hide ItemAt, Room, Strings;
  }

  // ----- a blob opened with room to spare, and then edited

  /** The first token is in the structure block that is kept. */
  lemma FirstKept(b: seq<byte>, n: nat, strs: seq<byte>)
    requires Streams(b) && StreamLen(b) <= n <= |b| && Starts(b, strs, 0, 0)
    ensures Starts(b[..n], strs, 0, 0)
  {
    hide First, Items, HasItems;
    var c := b[..n];
    assert b[0..] == b && c[0..] == c;
    FirstWithin(b);
    FirstLocal(b, n);
    AtStart(c, strs);
  }

  lemma FirstWithin(b: seq<byte>)
    requires Streams(b) && Steps(b)
    ensures First(b).value.len <= StreamLen(b)
  {
    hide First;
  }

  lemma BlockLength(s: seq<byte>)
    requires Sound(s)
    ensures Readable(s) && Streams(Region(s)) && StreamLen(Region(s)) <= StructLen(s) <= |Region(s)|
  {
    hide Terminated, Entries, RsvCount, RsvLen, U32;
    SizeOfRegion(s);
    hide Region;
  }

  lemma SizeOfRegion(s: seq<byte>)
    requires Readable(s)
    ensures Head(s).version >= 17 ==> |Region(s)| == Head(s).sizeStruct
  {
    hide U32;
  }

  lemma OpenedHolds(s: seq<byte>, b': seq<byte>, t: Tree, size: int)
    requires Denotes(s, t) && ItemAt(s, 0, 0) && Sound(s) && Denotes(b', t) && Sound(b') && Ordered(b') && Opened(s, b', size)
    ensures Holds(b', State(t, Strings(s), size - UsedEnd(s)))
  {
    hide Denotes, Sound, Region, Strings, UsedEnd, StructLen, InOrder, PackedText, Ordered, Starts, RwError;
    OpenedIsEditable(b');
    BlockLength(s);
    FirstKept(Region(s), StructLen(s), Strings(s));
  }

  /** fdt_open_into and then any list of edits: each has the room that the buffer leaves behind the blob's own blocks and the edits
      before it. */
  method OpenAndEdit(fdt: array<byte>, buf: array<byte>, size: nat, es: seq<Edit>, ghost t: Tree) returns (err: int)
    requires Denotes(fdt[..], t) && ItemAt(fdt[..], 0, 0) && size <= buf.Length < LIMIT && forall i :: 0 <= i < |es| ==> Askable(es[i])
    modifies buf
    ensures var s, b := old(fdt[..]), buf[..];
      && Sound(s)
      && if OpenNeeds(s, fdt == buf) > size then err == -NOSPACE && b == old(buf[..])
         else
           var r := Effects(State(t, Strings(s), size - UsedEnd(s)), es);
           && err == r.0 && Sound(b) && Reserved(b) == Reserved(s) && Denotes(b, r.1.tree)
           && (err == 0 ==> Holds(b, r.1))
  {
    hide Denotes, ItemAt, Holds, Effects, Sound, Opened, Ordered, OpenNeeds, UsedEnd, Askable, Reserved, Strings;
    ghost var s := fdt[..];
    SoundThere(s, t);
    err := OpenInto(fdt, buf, size, t);
    if err != 0 {
      return;
    }
    OpenedHolds(s, buf[..], t, size);
    err := Replay(buf, es, State(t, Strings(s), size - UsedEnd(s)));
  }
}
