/** A complete blob byte by byte, and the tree and reservation it stands for (sections 5.2 to 5.4 of the Devicetree
    Specification). */
module SampleBlob {

  import opened Bytes
  import opened Tokens
  import opened Trees
  import opened Blob
  import opened Cursor
  import opened Fdt
  import opened FdtRo
  import opened Walk
  import opened Nodes
  import opened Lookup

  /** Magic, total size 126, structure at 72, strings at 124, reservations at 40, versions 17 and 16, boot CPU 0, and the sizes 2
      and 52. */
  function HeaderBytes(): seq<byte>
  {
    Offsets() + Numbers()
  }

  function Offsets(): (s: seq<byte>)
    ensures |s| == 20
  {
    [0xd0, 0x0d, 0xfe, 0xed, 0, 0, 0, 126, 0, 0, 0, 72, 0, 0, 0, 124, 0, 0, 0, 40]
  }

  function Numbers(): (s: seq<byte>)
    ensures |s| == 20
  {
    [0, 0, 0, 17, 0, 0, 0, 16, 0, 0, 0, 0, 0, 0, 0, 2, 0, 0, 0, 52]
  }

  /** 0x20 bytes at 0x1000, and the terminator. */
  function RsvBytes(): seq<byte>
  {
    [0, 0, 0, 0, 0, 0, 0x10, 0, 0, 0, 0, 0, 0, 0, 0, 0x20] + [0, 0, 0, 0, 0, 0, 0, 0, 0, 0, 0, 0, 0, 0, 0, 0]
  }

  /** The nameless root. */
  function RootOpens(): seq<byte>
  {
    [0, 0, 0, 1, 0, 0, 0, 0]
  }

  /** Its property "a" of five bytes, padded to eight. */
  function PropBytes(): seq<byte>
  {
    [0, 0, 0, 3, 0, 0, 0, 5, 0, 0, 0, 0, 1, 2, 3, 4, 5, 0, 0, 0]
  }

  /** A NOP, the child "b", and the ends of both nodes. */
  function NopBytes(): seq<byte>
  {
    [0, 0, 0, 4]
  }

  function KidOpens(): seq<byte>
  {
    [0, 0, 0, 1, 98, 0, 0, 0]
  }

  function CloseBytes(): seq<byte>
  {
    [0, 0, 0, 2]
  }

  function EndBytes(): seq<byte>
  {
    [0, 0, 0, 9]
  }

  function StructBytes(): seq<byte>
  {
    RootOpens() + (PropBytes() + (NopBytes() + (KidOpens() + (CloseBytes() + (CloseBytes() + EndBytes())))))
  }

  function NameBytes(): seq<byte>
  {
    [97, 0]
  }

  function SampleBytes(): seq<byte>
  {
    HeaderBytes() + (RsvBytes() + (StructBytes() + NameBytes()))
  }

  function SampleTree(): Tree
  {
    Node([], [Field([97], [1, 2, 3, 4, 5])], [Node([98], [], [])])
  }

  lemma Sizes()
    ensures |HeaderBytes()| == 40 && |RsvBytes()| == 32 && |StructBytes()| == 52 && |NameBytes()| == 2 && |SampleBytes()| == 126
  {
  }

  // ----- the structure block

  lemma Pieces()
    ensures HasItems(RootOpens(), NameBytes()) && Items(RootOpens(), NameBytes()) == [Open([])]
    ensures HasItems(PropBytes(), NameBytes()) && Items(PropBytes(), NameBytes()) == [Property([97], [1, 2, 3, 4, 5])]
    ensures HasItems(NopBytes(), NameBytes()) && Items(NopBytes(), NameBytes()) == []
    ensures HasItems(KidOpens(), NameBytes()) && Items(KidOpens(), NameBytes()) == [Open([98])]
    ensures HasItems(CloseBytes(), NameBytes()) && Items(CloseBytes(), NameBytes()) == [Close]
  {
    hide HasItems, Items, RootOpens, PropBytes, NopBytes, KidOpens, CloseBytes, NameBytes;
    RootPiece(); PropPiece(); NopPiece(); KidPiece(); ClosePiece();
  }

  lemma ClosePiece()
    ensures HasItems(CloseBytes(), NameBytes()) && Items(CloseBytes(), NameBytes()) == [Close]
  {
    CloseChunkItems(CloseBytes(), NameBytes());
  }

  lemma RootPiece()
    ensures HasItems(RootOpens(), NameBytes()) && Items(RootOpens(), NameBytes()) == [Open([])]
  {
    assert RootOpens()[4..4] == [];
    OpenChunkItems(RootOpens(), NameBytes(), []);
  }

  lemma KidPiece()
    ensures HasItems(KidOpens(), NameBytes()) && Items(KidOpens(), NameBytes()) == [Open([98])]
  {
    assert KidOpens()[4..5] == [98];
    OpenChunkItems(KidOpens(), NameBytes(), [98]);
  }

  lemma PropPiece()
    ensures HasItems(PropBytes(), NameBytes()) && Items(PropBytes(), NameBytes()) == [Property([97], [1, 2, 3, 4, 5])]
  {
    assert PropBytes()[12..17] == [1, 2, 3, 4, 5];
    NameAtZero();
    PropChunkItems(PropBytes(), NameBytes(), [97], 5);
  }

  lemma NameAtZero()
    ensures StringAt(NameBytes(), 0) == Some([97])
  {
    assert NameBytes()[0..1] == [97];
  }

  lemma NopPiece()
    ensures HasItems(NopBytes(), NameBytes()) && Items(NopBytes(), NameBytes()) == []
  {
    NopsHaveNoItems(NopBytes(), NameBytes());
  }

  lemma EndPiece()
    ensures HasAllItems(EndBytes(), NameBytes()) && AllItems(EndBytes(), NameBytes()) == []
  {
    assert First(EndBytes()) == Some(Lexeme(End, 4));
  }

  lemma StructItems()
    ensures HasAllItems(StructBytes(), NameBytes())
    ensures AllItems(StructBytes(), NameBytes()) == [Open([]), Property([97], [1, 2, 3, 4, 5]), Open([98]), Close, Close]
  {
    hide HasItems, Items, HasAllItems, AllItems, RootOpens, PropBytes, NopBytes, KidOpens, CloseBytes, EndBytes, NameBytes;
    Pieces(); EndPiece();
    var strs := NameBytes();
    var r5 := CloseBytes() + EndBytes();
    AllItemsConcat(CloseBytes(), EndBytes(), strs);
    var r4 := CloseBytes() + r5;
    AllItemsConcat(CloseBytes(), r5, strs);
    var r3 := KidOpens() + r4;
    AllItemsConcat(KidOpens(), r4, strs);
    var r2 := NopBytes() + r3;
    AllItemsConcat(NopBytes(), r3, strs);
    var r1 := PropBytes() + r2;
    AllItemsConcat(PropBytes(), r2, strs);
    AllItemsConcat(RootOpens(), r1, strs);
  }

  lemma SampleItems()
    ensures Flatten(SampleTree()) == [Open([]), Property([97], [1, 2, 3, 4, 5]), Open([98]), Close, Close]
  {
    var b := Node([98], [], []);
    assert PropItems(b.props) == [] && FlattenAll([]) == [] && Flatten(b) == [Open([98]), Close];
    FlattenOne(b);
    assert PropItems(SampleTree().props) == [Property([97], [1, 2, 3, 4, 5])];
  }

  // ----- the blob

  lemma SampleHead()
    ensures |SampleBytes()| == 126 && Head(SampleBytes()) == Header(0xd00d_feed, 126, 72, 124, 40, 17, 16, 0, 2, 52)
  {
    Sizes();
    var s := SampleBytes();
    assert s[..40] == HeaderBytes()[..40];
    HeadOfPrefix(s, HeaderBytes());
    hide SampleBytes;
    HeadWords();
  }

  lemma HeadWords()
    ensures Head(HeaderBytes()) == Header(0xd00d_feed, 126, 72, 124, 40, 17, 16, 0, 2, 52)
  {
    hide U32, Offsets, Numbers;
    OffsetWords(); NumberWords();
    var h, a, b := HeaderBytes(), Offsets(), Numbers();
    forall i: nat | i + 4 <= 20 ensures U32(h, i) == U32(a, i) && U32(h, 20 + i) == U32(b, i) {
      assert h[i..i + 4] == a[i..i + 4] && h[20 + i..20 + i + 4] == b[i..i + 4];
      SameWord(h, a, i, i);
      SameWord(h, b, 20 + i, i);
    }
  }

  lemma OffsetWords()
    ensures var a := Offsets(); U32(a, 0) == 0xd00d_feed && U32(a, 4) == 126 && U32(a, 8) == 72 && U32(a, 12) == 124 && U32(a, 16) == 40
  {
  }

  lemma NumberWords()
    ensures var b := Numbers(); U32(b, 0) == 17 && U32(b, 4) == 16 && U32(b, 8) == 0 && U32(b, 12) == 2 && U32(b, 16) == 52
  {
  }

  lemma SampleParts()
    ensures |SampleBytes()| == 126
    ensures var s := SampleBytes(); s[40..126] == RsvBytes() + (StructBytes() + NameBytes()) && s[72..124] == StructBytes() && s[124..126] == NameBytes()
  {
    Sizes();
    hide HeaderBytes, RsvBytes, StructBytes, NameBytes;
  }

  lemma SampleRsv(rest: seq<byte>)
    ensures var r := RsvBytes() + rest; RsvCount(r) == 1 && Terminated(r) && Entries(r, 1) == [Reserve(0x1000, 0x20)]
  {
    var r := RsvBytes() + rest;
    assert U64(r, 0) == 0x1000 && U64(r, 8) == 0x20;
    assert U64(r[16..], 8) == 0;
    assert Entries(r[16..], 0) == [];
  }

  /** These bytes stand for that tree and that reservation. */
  lemma SampleDenotes()
    ensures Denotes(SampleBytes(), SampleTree()) && Sound(SampleBytes()) && Reserved(SampleBytes()) == [Reserve(0x1000, 0x20)]
    ensures NodeAt(SampleBytes(), SampleTree(), [], 0)
  {
    hide Head, SampleBytes, SampleTree, HeaderBytes, RsvBytes, StructBytes, NameBytes, HasAllItems, AllItems, Terminated, RsvCount, Entries,
         Flatten, Starts;
    Sizes();
    SampleHead(); SampleParts(); SampleItems(); StructItems();
    SampleRsv(StructBytes() + NameBytes());
    var s := SampleBytes();
    assert Region(s) == StructBytes() && Strings(s) == NameBytes();
    assert Streams(StructBytes()) by { Streaming(StructBytes(), NameBytes()); }
    RootHere(SampleTree());
  }

  lemma Streaming(b: seq<byte>, strs: seq<byte>)
    requires HasAllItems(b, strs)
    ensures Streams(b)
  {
  }

  lemma RootHere(t: Tree)
    ensures HasNode(t, []) && IndexOf(t, []) == 0 && Starts(StructBytes(), NameBytes(), 0, 0)
  {
    RootIndex(t);
    AtStart(StructBytes(), NameBytes());
    var b := StructBytes();
    assert b[0..] == b;
    RootFirst();
  }

  lemma RootFirst()
    ensures First(StructBytes()) == Some(Lexeme(Begin([]), 8))
  {
    hide First, PropBytes, NopBytes, KidOpens, CloseBytes, EndBytes;
    assert RootOpens()[4..4] == [];
    OpenChunkToken(RootOpens(), []);
    FirstExtends(RootOpens(), PropBytes() + (NopBytes() + (KidOpens() + (CloseBytes() + (CloseBytes() + EndBytes())))));
  }
}
