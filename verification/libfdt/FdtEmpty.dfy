/** fdt_empty_tree.c: the smallest tree, written and opened for editing in the same buffer. */
module FdtEmpty {

  import opened Bytes
  import opened Tokens
  import opened Trees
  import opened Blob
  import opened Fdt
  import opened Edits
  import opened FdtRw
  import opened FdtSw
  import opened FdtPack

  /** fdt_create_empty_tree: works exactly from 80 bytes on, and the blob then fills the buffer and can be edited. */
  method CreateEmptyTree(buf: array<byte>, size: nat) returns (err: int)
    requires size <= buf.Length < LIMIT
    modifies buf
    ensures err == if size >= 80 then 0 else -NOSPACE
    ensures err == 0 ==> Sound(buf[..]) && Denotes(buf[..], Node([], [], [])) && Reserved(buf[..]) == []
    ensures err == 0 ==> Head(buf[..]).totalSize == size && RwError(Head(buf[..])) == 0 && Strings(buf[..]) == []
    ensures err == 0 ==> forall n: int :: FdtRw.Room(buf[..], n) <==> 80 + n <= size
  {
    hide Writing, Finished, Sound, Denotes, U32, Flatten, OpenNeeds, UsedEnd, Strings, InOrder, PackedText, Ordered, Space, RwError, Left, StringPart, Took, Head, Closed, FdtSw.Room, Names,
         StepResult;
    err := Create(buf, size);
    if err != 0 {
      return;
    }
    ghost var s0 := buf[..];
    Created(s0, size);
    EntriesStarted(s0, size, []);
    ghost var rs := [Reserve(0, 0)];
    err := FinishReservemap(buf, []);
    if err != 0 {
      return;
    }
    assert [] + rs == rs;
    ghost var s1 := buf[..];
    MapFinished(s0, s1, size, []);
    err := BeginNode(buf, [], rs, []);
    StepLeft(s1, buf[..], rs, [], 8, Open([]), err);
    if err != 0 {
      return;
    }
    ghost var s2 := buf[..];
    err := FdtSw.EndNode(buf, rs, [] + [Open([])]);
    StepLeft(s2, buf[..], rs, [] + [Open([])], 4, Close, err);
    if err != 0 {
      return;
    }
    ghost var s3 := buf[..];
    EmptyNodeItems([]);
    assert [] + [Open([])] + [Close] == Flatten(Node([], [], []));
    SpaceIsLeft(s3, 4);
    err := Finish(buf, rs, Flatten(Node([], [], [])));
    if err != 0 {
      return;
    }
    assert rs[0].size == 0;
    ghost var s := buf[..];
    FinishedSound(s, rs, Flatten(Node([], [], [])));
    WriterRoundTrip(s, rs, Node([], [], []));
    ClosedNeeds(s3, s, rs, Flatten(Node([], [], [])), size);
    NoStrings(s);
    err := OpenInto(buf, buf, size, Node([], [], []));
    if err == 0 { OpenedIsEditable(buf[..]); }
  }

  lemma StepLeft(s: seq<byte>, s': seq<byte>, rs: seq<Reserve>, items: seq<Item>, n: nat, item: Item, err: int)
    requires HEADER_SIZE <= |s| && StepResult(s, s', rs, items, n, item, err) && !item.Property? && n == ItemRoom(StringPart(s), item)
    ensures err == if n <= Left(s) then 0 else -NOSPACE
    ensures err == 0 ==> HEADER_SIZE <= |s'| && Writing(s', rs, items + [item]) && Left(s') == Left(s) - n
    ensures err == 0 ==> Head(s').totalSize == Head(s).totalSize && StringPart(s') == StringPart(s)
  {
    hide Writing, Left, StringPart, FdtSw.Room, Names, Space;
    SpaceIsLeft(s, n);
    RoomOfOne(StringPart(s), item);
  }

  lemma NoStrings(s: seq<byte>)
    requires |s| >= HEADER_SIZE && Head(s).sizeStrings == 0
    ensures Strings(s) == []
  {
    hide U32;
  }

  /** A finished blob is in order, so it is opened where it is if the buffer holds it. */
  lemma ClosedNeeds(s: seq<byte>, s': seq<byte>, rs: seq<Reserve>, items: seq<Item>, size: nat)
    requires Writing(s, rs, items) && Closed(s, s') && Sound(s') && Reserved(s') == [] && |rs| == 1
    requires HEADER_SIZE <= |s| && Head(s).totalSize == size && Left(s) >= 4
    ensures OpenNeeds(s', true) == UsedEnd(s') == size - Left(s) + 4 <= size
    ensures StringPart(s) == [] ==> Head(s').sizeStrings == 0
  {
    hide U32, Streams, RsvCount, Entries, Region, StructPart, StringPart, Written, BlocksOf, Total;
    WritingRoomy(s, rs, items);
  }
}
