/** A blob whose root is preceded by a NOP: well formed, but the queries that start at offset 0 miss its root. */
module LeadingNop {

  import opened Bytes
  import opened Tokens
  import opened Trees
  import opened Walk
  import opened Lookup
  import opened Blob
  import opened Cursor
  import opened Fdt
  import opened Nodes
  import opened FdtRo
  import opened FdtPath
  import opened Paths

  function WithHead(s: seq<byte>, h: Header): (t: seq<byte>)
    requires |s| >= HEADER_SIZE
    ensures |t| == |s|
  {
    var s := Put(s, 0, Be32(h.magic));
    var s := Put(s, 4, Be32(h.totalSize));
    var s := Put(s, 8, Be32(h.offStruct));
    var s := Put(s, 12, Be32(h.offStrings));
    var s := Put(s, 16, Be32(h.offRsv));
    var s := Put(s, 20, Be32(h.version));
    var s := Put(s, 24, Be32(h.lastComp));
    var s := Put(s, 28, Be32(h.bootCpu));
    var s := Put(s, 32, Be32(h.sizeStrings));
    Put(s, 36, Be32(h.sizeStruct))
  }

  lemma HeadWritten(s: seq<byte>, h: Header)
    requires |s| >= HEADER_SIZE
    ensures Head(WithHead(s, h)) == h && WithHead(s, h)[HEADER_SIZE..] == s[HEADER_SIZE..]
  {
    hide Head, Put, Be32;
    var s0 := Put(s, 0, Be32(h.magic)); HeadPut(s, 0, h.magic); TailOfPut(s, 0, Be32(h.magic));
    var s1 := Put(s0, 4, Be32(h.totalSize)); HeadPut(s0, 1, h.totalSize); TailOfPut(s0, 4, Be32(h.totalSize));
    var s2 := Put(s1, 8, Be32(h.offStruct)); HeadPut(s1, 2, h.offStruct); TailOfPut(s1, 8, Be32(h.offStruct));
    var s3 := Put(s2, 12, Be32(h.offStrings)); HeadPut(s2, 3, h.offStrings); TailOfPut(s2, 12, Be32(h.offStrings));
    var s4 := Put(s3, 16, Be32(h.offRsv)); HeadPut(s3, 4, h.offRsv); TailOfPut(s3, 16, Be32(h.offRsv));
    var s5 := Put(s4, 20, Be32(h.version)); HeadPut(s4, 5, h.version); TailOfPut(s4, 20, Be32(h.version));
    var s6 := Put(s5, 24, Be32(h.lastComp)); HeadPut(s5, 6, h.lastComp); TailOfPut(s5, 24, Be32(h.lastComp));
    var s7 := Put(s6, 28, Be32(h.bootCpu)); HeadPut(s6, 7, h.bootCpu); TailOfPut(s6, 28, Be32(h.bootCpu));
    var s8 := Put(s7, 32, Be32(h.sizeStrings)); HeadPut(s7, 8, h.sizeStrings); TailOfPut(s7, 32, Be32(h.sizeStrings));
    HeadPut(s8, 9, h.sizeStruct); TailOfPut(s8, 36, Be32(h.sizeStruct));
  }

  // ----- the structure block

  function RootBytes(): seq<byte>
  {
    Be32(BEGIN_NODE) + [0, 0, 0, 0] + Be32(END_NODE)
  }

  /** NOP, a nameless node, END. */
  function Block(): seq<byte>
  {
    Be32(NOP) + (RootBytes() + Be32(END))
  }

  function Root(): Tree
  {
    Node([], [], [])
  }

  lemma RootItems(strs: seq<byte>)
    ensures HasItems(RootBytes(), strs) && Items(RootBytes(), strs) == Flatten(Root())
  {
    hide Items, HasItems, Be32, U32;
    var a, b := Be32(BEGIN_NODE) + [0, 0, 0, 0], Be32(END_NODE);
    WordReadBack(BEGIN_NODE); WordReadBack(END_NODE);
    assert a[0..4] == Be32(BEGIN_NODE) == Be32(BEGIN_NODE)[0..4];
    SameWord(a, Be32(BEGIN_NODE), 0, 0);
    OpenChunkItems(a, strs, []);
    CloseChunkItems(b, strs);
    ItemsConcat(a, b, strs);
    assert Flatten(Root()) == [Open([])] + [Close];
  }

  lemma EndItems(strs: seq<byte>)
    ensures HasAllItems(Be32(END), strs) && AllItems(Be32(END), strs) == []
  {
    hide Be32;
    BareBytes(End);
  }

  lemma NopItems(strs: seq<byte>)
    ensures HasItems(Be32(NOP), strs) && Items(Be32(NOP), strs) == [] && First(Be32(NOP)) == Some(Lexeme(Nop, 4))
  {
    hide Be32;
    BareBytes(Nop);
    ChunkItems(Be32(NOP), strs);
  }

  lemma BlockItems(strs: seq<byte>)
    ensures HasAllItems(Block(), strs) && AllItems(Block(), strs) == Flatten(Root()) && |Block()| == 20
  {
    hide Items, HasItems, AllItems, HasAllItems, Be32, RootBytes, Flatten;
    NopItems(strs);
    RootItems(strs);
    EndItems(strs);
    AllItemsConcat(RootBytes(), Be32(END), strs);
    AllItemsConcat(Be32(NOP), RootBytes() + Be32(END), strs);
    assert |RootBytes()| == 12 by { RootSize(); }
  }

  lemma RootSize()
    ensures |RootBytes()| == 12
  {
    hide Be32;
  }

  /** The root is the token at offset 4, the NOP the one at offset 0. */
  lemma BlockOffsets(strs: seq<byte>)
    ensures Starts(Block(), strs, 4, 0) && !Starts(Block(), strs, 0, 0)
  {
    hide Items, HasItems, Be32, RootBytes;
    NopItems(strs);
    var b := Block();
    assert b[..4] == Be32(NOP) && b[4..] == RootBytes() + Be32(END);
    RootStarts();
    FirstExtends(Be32(NOP), RootBytes() + Be32(END));
    assert b[0..] == b;
  }

  lemma RootStarts()
    ensures First(RootBytes() + Be32(END)) == Some(Lexeme(Begin([]), 8)) && |RootBytes() + Be32(END)| == 16
  {
    hide Be32;
    RootSize();
    BeginBytes([], [0, 0, 0]);
    var a := Be32(BEGIN_NODE) + [] + [0] + [0, 0, 0];
    assert RootBytes() + Be32(END) == a + (Be32(END_NODE) + Be32(END));
    FirstExtends(a, Be32(END_NODE) + Be32(END));
  }

  // ----- the blob

  /** Header, terminating reservation, structure block, no strings. */
  function Nopped(): seq<byte>
  {
    WithHead(seq(56, i => 0) + Block(), Header(MAGIC, 76, 56, 76, 40, LAST_VERSION, FIRST_VERSION, 0, 0, 20))
  }

  lemma NoppedParts()
    ensures |Nopped()| == 76 && Head(Nopped()) == Header(MAGIC, 76, 56, 76, 40, LAST_VERSION, FIRST_VERSION, 0, 0, 20)
    ensures Nopped()[40..76] == seq(16, i => 0) + Block() && Nopped()[56..76] == Block() && Nopped()[76..76] == []
  {
    hide Block, WithHead, Head;
    BlockItems([]);
    var z: seq<byte> := seq(56, i => 0);
    var s := z + Block();
    var h := Header(MAGIC, 76, 56, 76, 40, LAST_VERSION, FIRST_VERSION, 0, 0, 20);
    HeadWritten(s, h);
    var t := WithHead(s, h);
    assert s[40..] == seq(16, i => 0) + Block();
    TailParts(t, Block());
  }

  lemma TailParts(t: seq<byte>, b: seq<byte>)
    requires |t| == 76 && |b| == 20 && t[40..] == seq(16, i => 0) + b
    ensures t[40..76] == seq(16, i => 0) + b && t[56..76] == b && t[76..76] == []
  {
    assert t[40..76] == t[40..];
    assert t[56..76] == t[40..][16..36];
  }

  lemma NoReservations(r: seq<byte>)
    ensures var t := seq(16, i => 0) + r; Terminated(t) && RsvCount(t) == 0
  {
  }

  /** It stands for the tree of one node, whose offset is 4; what is at offset 0 is no node. */
  lemma NoppedDenotes()
    ensures Denotes(Nopped(), Root()) && NodeAt(Nopped(), Root(), [], 4) && !ItemAt(Nopped(), 0, 0)
  {
    hide Head, Nopped, Block, HasAllItems, AllItems, Starts, Terminated, RsvCount, Flatten;
    NoppedParts();
    var s := Nopped();
    assert Region(s) == Block() && Strings(s) == [];
    BlockItems([]);
    BlockOffsets([]);
    NoReservations(Block());
    assert Streams(Block()) by { Streaming(Block(), []); }
    RootIndex(Root());
  }

  lemma Streaming(b: seq<byte>, strs: seq<byte>)
    requires HasAllItems(b, strs)
    ensures Streams(b)
  {
  }

  /** The depth of its root is not found, nor is any node by its path; the path of the root gives the NOP. */
  method QueriesMiss(fdt: array<byte>) returns (depth: int, named: int, root: int)
    requires fdt[..] == Nopped()
    ensures depth == -BADSTRUCTURE && named == -BADOFFSET && root == 0 && !NodeAt(fdt[..], Root(), [], root)
  {
    hide Denotes, NodeAt, ItemAt, Find, Nopped, Root;
    NoppedDenotes();
    depth := NodeDepth(fdt, 4, Root(), []);
    PathsRead();
    named := PathOffset(fdt, [SLASH, 97], Root());
    root := PathOffset(fdt, [SLASH], Root());
    NotTheRoot(fdt[..]);
  }

  lemma PathsRead()
    ensures DropSlashes([SLASH, 97]) == [97] && DropSlashes([SLASH]) == [] && CString([SLASH, 97]) && CString([SLASH])
  {
    assert [SLASH, 97][1..] == [97] && [SLASH][1..] == [];
  }

  lemma NotTheRoot(s: seq<byte>)
    requires !ItemAt(s, 0, 0)
    ensures !NodeAt(s, Root(), [], 0)
  {
    RootIndex(Root());
  }
}
