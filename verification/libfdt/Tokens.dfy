/** The structure block as a stream of tokens (section 5.4 of the Devicetree Specification). */
module Tokens {

  import opened Bytes

  const BEGIN_NODE: Word := 1
  const END_NODE: Word := 2
  const PROP: Word := 3
  const NOP: Word := 4
  const END: Word := 9

  datatype Token =
    | Begin(name: seq<byte>)
    | EndNode
    | Prop(nameoff: Word, val: seq<byte>)
    | Nop
    | End

  function TagOf(t: Token): Word {
    match t
    case Begin(_) => BEGIN_NODE
    case EndNode => END_NODE
    case Prop(_, _) => PROP
    case Nop => NOP
    case End => END
  }

  datatype Lexeme = Lexeme(tok: Token, len: nat)

  /** The token that starts b and the room it takes, padding included. */
  function First(b: seq<byte>): (r: Option<Lexeme>)
    ensures r.Some? ==> |b| >= 4 && U32(b, 0) == TagOf(r.value.tok)
    ensures r.Some? ==> r.value.len >= 4 && r.value.len % 4 == 0
  {
    if |b| < 4 then None
    else if U32(b, 0) == BEGIN_NODE then
      var k := Nul(b, 4);
      if k == |b| then None else Some(Lexeme(Begin(b[4..k]), Align4(k + 1)))
    else if U32(b, 0) == PROP then
      if |b| < 12 || 12 + U32(b, 4) > |b| then None
      else Some(Lexeme(Prop(U32(b, 8), b[12..12 + U32(b, 4)]), Align4(12 + U32(b, 4))))
    else if U32(b, 0) == END_NODE then Some(Lexeme(EndNode, 4))
    else if U32(b, 0) == NOP then Some(Lexeme(Nop, 4))
    else if U32(b, 0) == END then Some(Lexeme(End, 4))
    else None
  }

  /** b starts with a whole token other than END. */
  predicate Steps(b: seq<byte>)
  {
    First(b).Some? && First(b).value.tok != End && First(b).value.len <= |b|
  }

  /** b is a sequence of whole tokens without an END. */
  predicate Parses(b: seq<byte>)
    decreases |b|
  {
    b == [] || (Steps(b) && Parses(b[First(b).value.len..]))
  }

  function Parse(b: seq<byte>): seq<Token>
    requires Parses(b)
    decreases |b|
  {
    if b == [] then [] else [First(b).value.tok] + Parse(b[First(b).value.len..])
  }

  predicate Ends(b: seq<byte>)
    ensures Ends(b) ==> |b| >= 4
  {
    First(b).Some? && First(b).value.tok == End
  }

  /** b is a sequence of whole tokens, an END, and anything after it. */
  predicate Streams(b: seq<byte>)
    decreases |b|
  {
    Ends(b) || (Steps(b) && Streams(b[First(b).value.len..]))
  }

  /** The tokens before the first END. */
  function Stream(b: seq<byte>): seq<Token>
    requires Streams(b)
    decreases |b|
  {
    if Ends(b) then [] else [First(b).value.tok] + Stream(b[First(b).value.len..])
  }

  /** Where the first END stops. */
  function StreamLen(b: seq<byte>): (n: nat)
    requires Streams(b)
    ensures 4 <= n <= |b|
    decreases |b|
  {
    if Ends(b) then 4 else First(b).value.len + StreamLen(b[First(b).value.len..])
  }

  // ----- a token depends on its own bytes only

  lemma FirstExtends(b: seq<byte>, rest: seq<byte>)
    requires First(b).Some? && First(b).value.len <= |b|
    ensures First(b + rest) == First(b)
  {
    var c := b + rest;
    assert U32(c, 0) == U32(b, 0);
    if U32(b, 0) == BEGIN_NODE {
      NulUnique(c, 4, Nul(b, 4));
      assert c[4..Nul(b, 4)] == b[4..Nul(b, 4)];
    } else if U32(b, 0) == PROP {
      assert U32(c, 4) == U32(b, 4) && U32(c, 8) == U32(b, 8);
      assert c[12..12 + U32(b, 4)] == b[12..12 + U32(b, 4)];
    }
  }

  lemma FirstLocal(b: seq<byte>, n: nat)
    requires First(b).Some? && First(b).value.len <= n <= |b|
    ensures First(b[..n]) == First(b)
  {
    var c := b[..n];
    assert U32(c, 0) == U32(b, 0);
    if U32(b, 0) == BEGIN_NODE {
      NulUnique(c, 4, Nul(b, 4));
      assert c[4..Nul(b, 4)] == b[4..Nul(b, 4)];
    } else if U32(b, 0) == PROP {
      assert U32(c, 4) == U32(b, 4) && U32(c, 8) == U32(b, 8);
      assert c[12..12 + U32(b, 4)] == b[12..12 + U32(b, 4)];
    }
  }

  // ----- concatenation

  lemma {:induction false} ParseConcat(a: seq<byte>, b: seq<byte>)
    requires Parses(a) && Parses(b)
    ensures Parses(a + b) && Parse(a + b) == Parse(a) + Parse(b)
    decreases |a|
  {
    hide First;
    if a == [] {
      assert a + b == b;
    } else {
      var n := First(a).value.len;
      FirstExtends(a, b);
      assert (a + b)[n..] == a[n..] + b;
      ParseConcat(a[n..], b);
    }
  }

  lemma {:induction false} StreamConcat(a: seq<byte>, b: seq<byte>)
    requires Parses(a)
    ensures Streams(a + b) <==> Streams(b)
    ensures Streams(b) ==> Stream(a + b) == Parse(a) + Stream(b) && StreamLen(a + b) == |a| + StreamLen(b)
    decreases |a|
  {
    hide First;
    if a == [] {
      assert a + b == b;
    } else {
      var n := First(a).value.len;
      FirstExtends(a, b);
      assert (a + b)[n..] == a[n..] + b;
      StreamConcat(a[n..], b);
    }
  }

  lemma {:induction false} ParseAligned(a: seq<byte>)
    requires Parses(a)
    ensures |a| % 4 == 0 && 4 * |Parse(a)| <= |a|
    decreases |a|
  {
    hide First;
    if a != [] { ParseAligned(a[First(a).value.len..]); }
  }

  lemma ParseTail(a: seq<byte>)
    requires Parses(a) && a != []
    ensures First(a).Some? && First(a).value.len <= |a| && Parses(a[First(a).value.len..])
    ensures Parse(a) == [First(a).value.tok] + Parse(a[First(a).value.len..])
  {
    hide First;
  }

  /** What follows a boundary parses if the whole does. */
  lemma {:induction false} ParseRest(a: seq<byte>, c: seq<byte>)
    requires Parses(a) && Parses(a + c)
    ensures Parses(c) && Parse(a + c) == Parse(a) + Parse(c)
    decreases |a|
  {
    hide First, Parses, Parse;
    if a == [] {
      assert a + c == c;
      EmptyParses();
    } else {
      ParseTail(a);
      ParseTail(a + c);
      var n := First(a).value.len;
      FirstExtends(a, c);
      assert (a + c)[n..] == a[n..] + c;
      ParseRest(a[n..], c);
    }
  }

  lemma EmptyParses()
    ensures Parses([]) && Parse([]) == []
  {
  }

  /** Two token boundaries: the piece between them parses. */
  lemma ParseBetween(b: seq<byte>, i: nat, j: nat)
    requires i <= j <= |b| && Parses(b[..i]) && Parses(b[..j])
    ensures Parses(b[i..j]) && Parse(b[..j]) == Parse(b[..i]) + Parse(b[i..j])
  {
    hide Parses, Parse;
    assert b[..i] + b[i..j] == b[..j];
    ParseRest(b[..i], b[i..j]);
  }

  /** A token boundary inside a block that streams: the rest streams. */
  lemma StreamFrom(b: seq<byte>, i: nat)
    requires i <= |b| && Parses(b[..i]) && Streams(b)
    ensures Streams(b[i..]) && Stream(b) == Parse(b[..i]) + Stream(b[i..]) && StreamLen(b) == i + StreamLen(b[i..])
  {
    assert b[..i] + b[i..] == b;
    StreamConcat(b[..i], b[i..]);
  }

  lemma EndIsBare(b: seq<byte>)
    requires Ends(b)
    ensures First(b).value.len == 4
  {
  }

  /** What comes after the first END does not matter. */
  lemma {:induction false} StreamPrefix(b: seq<byte>, m: nat)
    requires Streams(b) && StreamLen(b) <= m <= |b|
    ensures Streams(b[..m]) && Stream(b[..m]) == Stream(b) && StreamLen(b[..m]) == StreamLen(b)
    decreases |b|
  {
    hide First;
    if Ends(b) {
      EndIsBare(b);
      FirstLocal(b, m);
    } else {
      var n := First(b).value.len;
      StreamPrefix(b[n..], m - n);
      FirstLocal(b, m);
      assert b[..m][n..] == b[n..][..m - n];
    }
  }

  // ----- the bytes of single tokens

  lemma ParseOne(b: seq<byte>)
    requires First(b).Some? && First(b).value.len == |b| && First(b).value.tok != End
    ensures Parses(b) && Parse(b) == [First(b).value.tok]
  {
    hide First;
    assert b[|b|..] == [];
  }

  /** A boundary and the token after it. */
  lemma ParseNext(b: seq<byte>, o: nat, x: Lexeme)
    requires o <= |b| && Parses(b[..o]) && First(b[o..]) == Some(x) && x.len <= |b[o..]| && x.tok != End
    ensures o + x.len <= |b| && Parses(b[..o + x.len]) && Parse(b[..o + x.len]) == Parse(b[..o]) + [x.tok]
  {
    hide First, Parses, Parse;
    var c := b[o..][..x.len];
    FirstLocal(b[o..], x.len);
    ParseOne(c);
    ParseConcat(b[..o], c);
    assert b[..o] + c == b[..o + x.len];
  }

  lemma BeginBytes(name: seq<byte>, pad: seq<byte>)
    requires CString(name) && |name| + 1 + |pad| == Align4(|name| + 1)
    ensures First(Be32(BEGIN_NODE) + name + [0] + pad) == Some(Lexeme(Begin(name), 4 + Align4(|name| + 1)))
  {
    var b := Be32(BEGIN_NODE) + name + [0] + pad;
    WordReadBack(BEGIN_NODE);
    SameWord(b, Be32(BEGIN_NODE), 0, 0);
    forall j | 4 <= j < 4 + |name| ensures b[j] != 0 { assert b[j] == name[j - 4]; }
    NulUnique(b, 4, 4 + |name|);
    assert b[4..4 + |name|] == name;
    AlignSum(4, |name| + 1);
  }

  lemma PropBytes(nameoff: Word, val: seq<byte>, pad: seq<byte>)
    requires |val| < W32 && |val| + |pad| == Align4(|val|)
    ensures First(Be32(PROP) + Be32(|val|) + Be32(nameoff) + val + pad) == Some(Lexeme(Prop(nameoff, val), 12 + Align4(|val|)))
  {
    var b := Be32(PROP) + Be32(|val|) + Be32(nameoff) + val + pad;
    WordReadBack(PROP); WordReadBack(|val|); WordReadBack(nameoff);
    SameWord(b, Be32(PROP), 0, 0);
    SameWord(b, Be32(|val|), 4, 0);
    SameWord(b, Be32(nameoff), 8, 0);
    assert b[12..12 + |val|] == val;
    AlignSum(12, |val|);
  }

  lemma BareBytes(t: Token)
    requires t == EndNode || t == Nop || t == End
    ensures First(Be32(TagOf(t))) == Some(Lexeme(t, 4))
  {
    WordReadBack(TagOf(t));
  }

  // ----- names resolved, no-ops dropped

  /** Tokens as a reader sees them: property names looked up, NOPs passed over. */
  datatype Item = Open(name: seq<byte>) | Close | Property(key: seq<byte>, val: seq<byte>)

  predicate Named(t: Token, strs: seq<byte>)
  {
    t != End && (t.Prop? ==> StringAt(strs, t.nameoff).Some?)
  }

  function ItemOf(t: Token, strs: seq<byte>): seq<Item>
    requires Named(t, strs)
  {
    match t
    case Begin(name) => [Open(name)]
    case EndNode => [Close]
    case Nop => []
    case Prop(at, v) => [Property(StringAt(strs, at).value, v)]
  }

  /** Every property name is a string of the strings block. */
  ghost predicate Resolves(ts: seq<Token>, strs: seq<byte>)
  {
    forall t :: t in ts ==> Named(t, strs)
  }

  ghost function Resolve(ts: seq<Token>, strs: seq<byte>): seq<Item>
    requires Resolves(ts, strs)
  {
    if ts == [] then [] else ItemOf(ts[0], strs) + Resolve(ts[1..], strs)
  }

  lemma {:induction false} ResolveConcat(a: seq<Token>, b: seq<Token>, strs: seq<byte>)
    requires Resolves(a, strs) && Resolves(b, strs)
    ensures Resolves(a + b, strs) && Resolve(a + b, strs) == Resolve(a, strs) + Resolve(b, strs)
  {
    hide Named, ItemOf;
    if a == [] {
      assert a + b == b;
    } else {
      assert (a + b)[1..] == a[1..] + b;
      ResolveConcat(a[1..], b, strs);
    }
  }

  /** Strings appended to the strings block disturb no name. */
  lemma {:induction false} ResolveGrown(ts: seq<Token>, strs: seq<byte>, more: seq<byte>)
    requires Resolves(ts, strs)
    ensures Resolves(ts, strs + more) && Resolve(ts, strs + more) == Resolve(ts, strs)
  {
    if ts != [] {
      assert Named(ts[0], strs);
      ResolveGrown(ts[1..], strs, more);
      if ts[0].Prop? {
        StringStays([], strs, more, ts[0].nameoff);
        assert [] + strs + more == strs + more;
      }
    }
  }

  lemma ResolveOne(t: Token, strs: seq<byte>)
    requires Named(t, strs)
    ensures Resolves([t], strs) && Resolve([t], strs) == ItemOf(t, strs)
  {
    assert [t][1..] == [];
  }

  // ----- items of a piece of the structure block, and of a whole block up to its END

  ghost predicate HasItems(b: seq<byte>, strs: seq<byte>)
  {
    Parses(b) && Resolves(Parse(b), strs)
  }

  ghost function Items(b: seq<byte>, strs: seq<byte>): seq<Item>
    requires HasItems(b, strs)
  {
    Resolve(Parse(b), strs)
  }

  ghost predicate HasAllItems(b: seq<byte>, strs: seq<byte>)
  {
    Streams(b) && Resolves(Stream(b), strs)
  }

  ghost function AllItems(b: seq<byte>, strs: seq<byte>): seq<Item>
    requires HasAllItems(b, strs)
  {
    Resolve(Stream(b), strs)
  }

  lemma ItemsConcat(a: seq<byte>, b: seq<byte>, strs: seq<byte>)
    requires HasItems(a, strs) && HasItems(b, strs)
    ensures HasItems(a + b, strs) && Items(a + b, strs) == Items(a, strs) + Items(b, strs)
  {
    ParseConcat(a, b);
    ResolveConcat(Parse(a), Parse(b), strs);
  }

  lemma AllItemsConcat(a: seq<byte>, b: seq<byte>, strs: seq<byte>)
    requires HasItems(a, strs)
    ensures HasAllItems(a + b, strs) <==> HasAllItems(b, strs)
    ensures HasAllItems(b, strs) ==> AllItems(a + b, strs) == Items(a, strs) + AllItems(b, strs)
  {
    StreamConcat(a, b);
    if HasAllItems(b, strs) {
      ResolveConcat(Parse(a), Stream(b), strs);
    }
  }

  /** Replacing a piece of the block that consists of whole tokens replaces its items. */
  lemma SpliceItems(a: seq<byte>, was: seq<byte>, now: seq<byte>, b: seq<byte>, strs: seq<byte>)
    requires HasItems(a, strs) && HasItems(was, strs) && HasItems(now, strs)
    requires HasAllItems(a + was + b, strs)
    ensures HasAllItems(b, strs)
    ensures AllItems(a + was + b, strs) == Items(a, strs) + Items(was, strs) + AllItems(b, strs)
    ensures HasAllItems(a + now + b, strs)
    ensures AllItems(a + now + b, strs) == Items(a, strs) + Items(now, strs) + AllItems(b, strs)
  {
    hide HasItems, HasAllItems, Items, AllItems;
    ItemsConcat(a, was, strs);
    ItemsConcat(a, now, strs);
    AllItemsConcat(a + was, b, strs);
    AllItemsConcat(a + now, b, strs);
  }

  // ----- the items of pieces written token by token

  lemma ChunkItems(c: seq<byte>, strs: seq<byte>)
    requires First(c).Some? && First(c).value.len == |c| && Named(First(c).value.tok, strs)
    ensures HasItems(c, strs) && Items(c, strs) == ItemOf(First(c).value.tok, strs)
  {
    hide First, Named, ItemOf;
    var t := First(c).value.tok;
    assert t != End by { NamedNotEnd(t, strs); }
    ParseOne(c);
    ResolveOne(t, strs);
  }

  lemma NamedNotEnd(t: Token, strs: seq<byte>)
    requires Named(t, strs)
    ensures t != End
  {
  }

  /** A property as it lies in the block, whatever its padding. */
  ghost predicate PropChunk(c: seq<byte>, strs: seq<byte>, key: seq<byte>, len: int)
  {
    && 0 <= len < W32 - 16 && |c| == 12 + Align4(len) && U32(c, 0) == PROP && U32(c, 4) == len
    && StringAt(strs, U32(c, 8)) == Some(key)
  }

  lemma PropChunkToken(c: seq<byte>, len: nat)
    requires len < W32 - 16 && |c| == 12 + Align4(len) && U32(c, 0) == PROP && U32(c, 4) == len
    ensures First(c) == Some(Lexeme(Prop(U32(c, 8), c[12..12 + len]), |c|))
  {
    hide U32;
    AlignSum(12, len);
  }

  lemma PropChunkItems(c: seq<byte>, strs: seq<byte>, key: seq<byte>, len: nat)
    requires PropChunk(c, strs, key, len)
    ensures HasItems(c, strs) && Items(c, strs) == [Property(key, c[12..12 + len])]
  {
    hide U32, StringAt;
    PropChunkToken(c, len);
    ChunkItems(c, strs);
  }

  /** A BEGIN_NODE tag and a name as they lie in the block, whatever the padding. */
  ghost predicate OpenChunk(c: seq<byte>, name: seq<byte>)
  {
    && CString(name) && |c| == 4 + Align4(|name| + 1) && U32(c, 0) == BEGIN_NODE
    && c[4..4 + |name|] == name && c[4 + |name|] == 0
  }

  lemma OpenChunkToken(c: seq<byte>, name: seq<byte>)
    requires OpenChunk(c, name)
    ensures First(c) == Some(Lexeme(Begin(name), |c|))
  {
    hide U32;
    AlignSum(4, |name| + 1);
    forall j | 4 <= j < 4 + |name| ensures c[j] != 0 { assert c[j] == c[4..4 + |name|][j - 4]; }
    NulUnique(c, 4, 4 + |name|);
  }

  lemma OpenChunkItems(c: seq<byte>, strs: seq<byte>, name: seq<byte>)
    requires OpenChunk(c, name)
    ensures HasItems(c, strs) && Items(c, strs) == [Open(name)]
  {
    OpenChunkToken(c, name);
    ChunkItems(c, strs);
  }

  lemma CloseChunkItems(c: seq<byte>, strs: seq<byte>)
    requires |c| == 4 && U32(c, 0) == END_NODE
    ensures HasItems(c, strs) && Items(c, strs) == [Close]
  {
    ChunkItems(c, strs);
  }

  /** NOPs all the way. */
  ghost predicate AllNops(c: seq<byte>)
  {
    |c| % 4 == 0 && forall i: nat {:trigger U32(c, i)} :: i % 4 == 0 && i + 4 <= |c| ==> U32(c, i) == NOP
  }

  lemma {:induction false} NopsHaveNoItems(c: seq<byte>, strs: seq<byte>)
    requires AllNops(c)
    ensures HasItems(c, strs) && Items(c, strs) == []
    decreases |c|
  {
    if c != [] {
      var a, r := c[..4], c[4..];
      assert U32(a, 0) == U32(c, 0) == NOP;
      forall i: nat | i % 4 == 0 && i + 4 <= |r| ensures U32(r, i) == NOP {
        assert U32(r, i) == U32(c, i + 4);
      }
      hide U32;
      ChunkItems(a, strs);
      NopsHaveNoItems(r, strs);
      ItemsConcat(a, r, strs);
      assert c == a + r;
    }
  }
}
