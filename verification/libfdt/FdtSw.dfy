/** fdt_sw.c: writing a blob front to back, with the strings growing down from the end of the buffer. */
module FdtSw {

  import opened Bytes
  import opened Tokens
  import opened Trees
  import opened Blob
  import opened Copy
  import opened Fdt
  import opened Edits

  const RSV_START: nat := 48

  // ----- names counted from the end of the strings

  /** The offset that lies n bytes further on, in 32-bit arithmetic. */
  function Moved(at: Word, n: nat): Word
  {
    (at + n) % W32
  }

  function Shifted(t: Token, n: nat): Token
  {
    if t.Prop? then Prop(Moved(t.nameoff, n), t.val) else t
  }

  /** The tokens with their name offsets counted from the start of n bytes of strings instead of from the end. */
  function Shift(ts: seq<Token>, n: nat): (r: seq<Token>)
    ensures |r| == |ts| && forall i :: 0 <= i < |ts| ==> r[i] == Shifted(ts[i], n)
  {
    seq(|ts|, i requires 0 <= i < |ts| => Shifted(ts[i], n))
  }

  lemma ShiftConcat(a: seq<Token>, b: seq<Token>, n: nat)
    ensures Shift(a + b, n) == Shift(a, n) + Shift(b, n)
  {
  }

  lemma MovedFurther(at: Word, n: nat, m: nat, size: nat)
    requires Moved(at, n) < size && size + m < W32
    ensures Moved(at, m + n) == m + Moved(at, n)
  {
    var k := (at + n) / W32;
    assert at + n == W32 * k + Moved(at, n);
    assert at + (m + n) == W32 * k + (m + Moved(at, n));
    QuotientUnique(at + (m + n), k, m + Moved(at, n));
  }

  lemma QuotientUnique(x: nat, k: nat, r: nat)
    requires x == W32 * k + r && r < W32
    ensures x % W32 == r
  {
  }

  /** Strings put in front of the others disturb no name counted from the end. */
  lemma {:induction false} ShiftGrown(ts: seq<Token>, strs: seq<byte>, more: seq<byte>)
    requires Resolves(Shift(ts, |strs|), strs) && |more| + |strs| < W32
    ensures var ts' := Shift(ts, |more| + |strs|); var strs' := more + strs;
      Resolves(ts', strs') && Resolve(ts', strs') == Resolve(Shift(ts, |strs|), strs)
  {
    var a, b := Shift(ts, |strs|), Shift(ts, |more| + |strs|);
    if ts != [] {
      assert a[1..] == Shift(ts[1..], |strs|) && b[1..] == Shift(ts[1..], |more| + |strs|);
      assert Resolves(a[1..], strs);
      ShiftGrown(ts[1..], strs, more);
      assert Named(a[0], strs);
      TokenGrown(ts[0], strs, more);
      hide Named, ItemOf;
      forall t | t in b ensures Named(t, more + strs) {
        if t != b[0] { assert t in b[1..]; }
      }
    } else {
      assert a == [] && b == [];
    }
  }

  lemma TokenGrown(t: Token, strs: seq<byte>, more: seq<byte>)
    requires Named(Shifted(t, |strs|), strs) && |more| + |strs| < W32
    ensures Named(Shifted(t, |more| + |strs|), more + strs)
    ensures ItemOf(Shifted(t, |more| + |strs|), more + strs) == ItemOf(Shifted(t, |strs|), strs)
  {
    if t.Prop? {
      var i := Moved(t.nameoff, |strs|);
      StringInside(strs, i);
      MovedFurther(t.nameoff, |strs|, |more|, |strs|);
      StringStays(more, strs, [], i);
      assert more + strs + [] == more + strs;
      hide Moved, StringAt;
    }
  }

  // ----- the state of a blob being written

  function StructPart(s: seq<byte>): seq<byte>
  {
    if |s| < HEADER_SIZE || Head(s).offStruct + Head(s).sizeStruct > |s| then []
    else s[Head(s).offStruct..Head(s).offStruct + Head(s).sizeStruct]
  }

  function StringPart(s: seq<byte>): seq<byte>
  {
    if |s| < HEADER_SIZE || Head(s).sizeStrings > Head(s).totalSize || Head(s).totalSize > |s| then []
    else s[Head(s).totalSize - Head(s).sizeStrings..Head(s).totalSize]
  }

  /** Struct and strings do not meet. */
  ghost predicate Roomy(s: seq<byte>)
  {
    && HEADER_SIZE <= |s| < LIMIT
    && var h := Head(s);
    && h.totalSize <= |s| && RSV_START <= h.offStruct && h.offStruct + h.sizeStruct + h.sizeStrings <= h.totalSize
  }

  /** A blob that fdt_create began, with the reservation entries rs and the items written so far. */
  ghost predicate Writing(s: seq<byte>, rs: seq<Reserve>, items: seq<Item>)
  {
    && Roomy(s)
    && var h := Head(s);
    && h.magic == SW_MAGIC && h.version == LAST_VERSION && h.lastComp == FIRST_VERSION && h.offRsv == RSV_START
    && h.offStruct == RSV_START + 16 * |rs| && Entries(s[RSV_START..h.offStruct], |rs|) == rs
    && Written(StructPart(s), StringPart(s), items)
  }

  /** The tokens of a structure block under construction, and the items they will be. */
  ghost predicate Written(b: seq<byte>, strs: seq<byte>, items: seq<Item>)
  {
    && Parses(b) && Resolves(Shift(Parse(b), |strs|), strs)
    && Resolve(Shift(Parse(b), |strs|), strs) == items
  }

  // ----- fdt_create

  /** The header fdt_create leaves. */
  function NewHeader(size: Word): Header
  {
    Header(SW_MAGIC, size, RSV_START, size, RSV_START, LAST_VERSION, FIRST_VERSION, 0, 0, 0)
  }

  lemma ZeroHead(s: seq<byte>)
    requires |s| >= HEADER_SIZE && forall i :: 0 <= i < HEADER_SIZE ==> s[i] == 0
    ensures Head(s) == Header(0, 0, 0, 0, 0, 0, 0, 0, 0, 0)
  {
  }

  /** A new blob can be written to exactly when its buffer reaches beyond the header and its padding. */
  lemma NewBlob(s: seq<byte>, size: nat)
    requires HEADER_SIZE <= size <= |s| < LIMIT && Head(s) == NewHeader(size)
    ensures Writing(s, [], []) <==> size >= RSV_START
  {
    hide U32;
    if size >= RSV_START {
      assert StructPart(s) == [] && Shift([], |StringPart(s)|) == [];
      assert s[RSV_START..RSV_START] == [];
    }
  }

  /** fdt_create: a buffer of 40 to 47 bytes is accepted although the reservations would start behind it. */
  method Create(buf: array<byte>, size: nat) returns (err: int)
    requires size <= buf.Length < LIMIT
    modifies buf
    ensures size < HEADER_SIZE ==> err == -NOSPACE && buf[..] == old(buf[..])
    ensures size >= HEADER_SIZE ==> err == 0 && (Writing(buf[..], [], []) <==> size >= RSV_START) && Head(buf[..]) == NewHeader(size)
                                    && Head(buf[..]).magic == 0x2ff2_0112 && Head(buf[..]).offRsv == Head(buf[..]).offStruct == 48
  {
    hide U32, Head, Put, Writing;
    if size < HEADER_SIZE {
      return -NOSPACE;
    }
    FillZero(buf, size);
    ghost var s0 := buf[..];
    ZeroHead(s0);
    SetWord(buf, 0, SW_MAGIC);
    ghost var s1 := buf[..];
    HeadPut(s0, 0, SW_MAGIC);
    SetWord(buf, 5, LAST_VERSION);
    ghost var s2 := buf[..];
    HeadPut(s1, 5, LAST_VERSION);
    SetWord(buf, 6, FIRST_VERSION);
    ghost var s3 := buf[..];
    HeadPut(s2, 6, FIRST_VERSION);
    SetWord(buf, 1, size);
    ghost var s4 := buf[..];
    HeadPut(s3, 1, size);
    SetWord(buf, 4, RSV_START);
    ghost var s5 := buf[..];
    HeadPut(s4, 4, RSV_START);
    SetWord(buf, 2, RSV_START);
    ghost var s6 := buf[..];
    HeadPut(s5, 2, RSV_START);
    SetWord(buf, 3, size);
    HeadPut(s6, 3, size);
    NewBlob(buf[..], size);
    return 0;
  }

  /** memset */
  method FillZero(a: array<byte>, n: nat)
    requires n <= a.Length
    modifies a
    ensures forall i :: 0 <= i < n ==> a[i] == 0
    ensures forall i :: n <= i < a.Length ==> a[i] == old(a[i])
  {
    forall i | 0 <= i < n { a[i] := 0; }
  }

  // ----- _fdt_grab_space

  /** n more bytes fit between the structure block and the strings. */
  ghost predicate Space(s: seq<byte>, n: nat)
  {
    HEADER_SIZE <= |s| && Head(s).offStruct + Head(s).sizeStruct + n + Head(s).sizeStrings <= Head(s).totalSize
  }

  /** s' is s with n bytes more in the structure block. */
  ghost predicate Grabbed(s: seq<byte>, s': seq<byte>, n: nat)
  {
    && Roomy(s) && Roomy(s') && |s'| == |s| && Head(s).sizeStruct + n < W32 && Head(s') == Head(s).(sizeStruct := Head(s).sizeStruct + n)
    && s'[HEADER_SIZE..] == s[HEADER_SIZE..]
  }

  /** The test of _fdt_grab_space on any header, in 32-bit arithmetic. */
  predicate Accepts(h: Header, len: nat)
  {
    (h.sizeStruct + len) % W32 >= h.sizeStruct && (h.sizeStruct + len) % W32 <= (h.totalSize - h.offStruct - h.sizeStrings) % W32
  }

  predicate Fits(h: Header, len: nat)
  {
    h.offStruct + h.sizeStruct + len + h.sizeStrings <= h.totalSize
  }

  /** The test accepts what fits; and it accepts bytes that do not fit exactly when the blob ends before its strings
      could start and the wrapped difference is large enough. */
  lemma AcceptsExactly(h: Header, len: nat)
    requires h.sizeStruct + len < W32 && h.offStruct + h.sizeStrings <= W32
    ensures Fits(h, len) ==> Accepts(h, len)
    ensures Accepts(h, len) && !Fits(h, len) <==>
            && h.totalSize < h.offStruct + h.sizeStrings
            && h.sizeStruct + len <= W32 - (h.offStruct + h.sizeStrings - h.totalSize)
  {
    var d := h.totalSize - h.offStruct - h.sizeStrings;
    assert d % W32 == if d >= 0 then d else d + W32;
  }

  /** In a new blob of 40 to 47 bytes any node is accepted, and it would start behind the buffer. */
  lemma AcceptsPastEnd(size: nat, name: seq<byte>)
    requires HEADER_SIZE <= size < RSV_START && |name| < LIMIT - 16
    ensures var h := NewHeader(size); var len := 4 + Align4(|name| + 1);
      Accepts(h, len) && !Fits(h, len) && h.offStruct + h.sizeStruct >= size
  {
    AcceptsExactly(NewHeader(size), 4 + Align4(|name| + 1));
  }

  /** _fdt_grab_space, on any header; in a blob whose parts do not meet the test is exactly whether the bytes fit. */
  method GrabSpace(fdt: array<byte>, len: nat) returns (at: int)
    requires HEADER_SIZE <= fdt.Length && len < LIMIT
    modifies fdt
    ensures var s, h := old(fdt[..]), Head(old(fdt[..]));
      if Accepts(h, len)
      then at == h.offStruct + h.sizeStruct && h.sizeStruct + len < W32
           && Head(fdt[..]) == h.(sizeStruct := h.sizeStruct + len) && fdt[..][HEADER_SIZE..] == s[HEADER_SIZE..]
      else at == -1 && fdt[..] == s
    ensures Roomy(old(fdt[..])) ==>
              && (Accepts(Head(old(fdt[..])), len) <==> Space(old(fdt[..]), len))
              && (Space(old(fdt[..]), len) ==> Grabbed(old(fdt[..]), fdt[..], len))
  {
    hide U32, Put;
    ghost var s := fdt[..];
    var h := Head(fdt[..]);
    var offset := h.sizeStruct;
    var spaceleft := (h.totalSize - h.offStruct - h.sizeStrings) % W32;
    if Roomy(s) && offset + len < W32 { AcceptsExactly(h, len); }
    if (offset + len) % W32 < offset || (offset + len) % W32 > spaceleft {
      return -1;
    }
    HeadPut(fdt[..], 9, offset + len);
    SetWord(fdt, 9, offset + len);
    TailOfPut(s, 36, Be32(offset + len));
    return h.offStruct + offset;
  }

  // ----- one token more

  /** s' is s with the bytes of chunk more in the structure block. */
  ghost predicate Appended(s: seq<byte>, s': seq<byte>, chunk: seq<byte>)
  {
    && Roomy(s) && Roomy(s') && |s'| == |s| && Head(s).sizeStruct + |chunk| < W32
    && Head(s') == Head(s).(sizeStruct := Head(s).sizeStruct + |chunk|)
    && s'[RSV_START..Head(s).offStruct] == s[RSV_START..Head(s).offStruct]
    && StructPart(s') == StructPart(s) + chunk && StringPart(s') == StringPart(s)
  }

  lemma GrabbedAppends(s: seq<byte>, s': seq<byte>, n: nat)
    requires Grabbed(s, s', n)
    ensures |StructPart(s')| == Head(s).sizeStruct + n
    ensures Appended(s, s', StructPart(s')[Head(s).sizeStruct..])
  {
    hide U32;
    var h := Head(s);
    SameTail(s', s, HEADER_SIZE, RSV_START, h.offStruct);
    SameTail(s', s, HEADER_SIZE, h.offStruct, h.offStruct + h.sizeStruct);
    SameTail(s', s, HEADER_SIZE, h.totalSize - h.sizeStrings, h.totalSize);
    hide Head;
    var b := StructPart(s');
    assert b == b[..h.sizeStruct] + b[h.sizeStruct..];
    assert b[..h.sizeStruct] == s'[h.offStruct..h.offStruct + h.sizeStruct];
  }

  /** Writing inside the new bytes changes only them. */
  lemma AppendedPut(s: seq<byte>, s': seq<byte>, chunk: seq<byte>, k: nat, v: seq<byte>)
    requires Appended(s, s', chunk) && k + |v| <= |chunk|
    ensures var at := Head(s).offStruct + Head(s).sizeStruct + k; at + |v| <= |s'| && Appended(s, Put(s', at, v), Put(chunk, k, v))
  {
    hide U32, Put, Head, StringPart, StructPart;
    var h := Head(s);
    AppendedSize(s, s', chunk);
    PartSizes(s);
    PutInStructPart(s', h.sizeStruct + k, v);
    PutInMiddle(StructPart(s), chunk, [], k, v);
    assert StructPart(s) + chunk + [] == StructPart(s) + chunk;
    assert StructPart(s) + Put(chunk, k, v) + [] == StructPart(s) + Put(chunk, k, v);
  }

  /** Writing inside the structure block of a blob under construction. */
  lemma PutInStructPart(s: seq<byte>, k: nat, v: seq<byte>)
    requires Roomy(s) && k + |v| <= Head(s).sizeStruct
    ensures |StructPart(s)| == Head(s).sizeStruct && Head(s).offStruct + k + |v| <= |s|
    ensures var t := Put(s, Head(s).offStruct + k, v);
      && Roomy(t) && Head(t) == Head(s) && t[RSV_START..Head(s).offStruct] == s[RSV_START..Head(s).offStruct]
      && StructPart(t) == Put(StructPart(s), k, v) && StringPart(t) == StringPart(s)
  {
    hide U32, Put;
    var h := Head(s);
    var at := h.offStruct + k;
    var t := Put(s, at, v);
    PutReads(s, at, v, 0, HEADER_SIZE);
    assert t[..HEADER_SIZE] == t[0..HEADER_SIZE] && s[..HEADER_SIZE] == s[0..HEADER_SIZE];
    HeadOfPrefix(s, t);
    hide Head;
    PutReads(s, at, v, RSV_START, h.offStruct);
    PutReads(s, at, v, h.totalSize - h.sizeStrings, h.totalSize);
    PutInSlice(s, at, v, h.offStruct, h.offStruct + h.sizeStruct);
  }

  /** A whole token more in the structure block is its item more. */
  lemma AppendWrites(s: seq<byte>, s': seq<byte>, rs: seq<Reserve>, items: seq<Item>, chunk: seq<byte>, t: Token)
    requires Writing(s, rs, items) && Appended(s, s', chunk) && First(chunk) == Some(Lexeme(t, |chunk|)) && t != End
    requires Named(Shifted(t, |StringPart(s)|), StringPart(s))
    ensures Writing(s', rs, items + ItemOf(Shifted(t, |StringPart(s)|), StringPart(s)))
  {
    hide U32, First, Named, ItemOf, StructPart, StringPart, Parses, Parse;
    var b, strs := StructPart(s), StringPart(s);
    ParseOne(chunk);
    ParseConcat(b, chunk);
    var n := |strs|;
    ShiftConcat(Parse(b), [t], n);
    assert Shift([t], n) == [Shifted(t, n)];
    ResolveOne(Shifted(t, n), strs);
    ResolveConcat(Shift(Parse(b), n), [Shifted(t, n)], strs);
  }

  lemma WritingRoomy(s: seq<byte>, rs: seq<Reserve>, items: seq<Item>)
    requires Writing(s, rs, items)
    ensures Roomy(s) && HEADER_SIZE <= |s| && Head(s).magic == SW_MAGIC
    ensures |StructPart(s)| == Head(s).sizeStruct && |StringPart(s)| == Head(s).sizeStrings && Left(s) >= 0
  {
  }

  // ----- the room that is left

  ghost predicate Has(strs: seq<byte>, key: seq<byte>)
  {
    exists q: nat :: StringAt(strs, q) == Some(key)
  }

  /** The strings once key is among them: a string that is already there, if only as the end of another, is shared. */
  ghost function WithName(strs: seq<byte>, key: seq<byte>): seq<byte>
  {
    if Has(strs, key) then strs else key + [0] + strs
  }

  /** The bytes an item takes, with its name if that is new. */
  ghost function ItemRoom(strs: seq<byte>, i: Item): nat
  {
    match i
    case Open(name) => 4 + Align4(|name| + 1)
    case Property(key, val) => 12 + Align4(|val|) + if Has(strs, key) then 0 else |key| + 1
    case Close => 4
  }

  ghost function ItemStrings(strs: seq<byte>, i: Item): seq<byte>
  {
    if i.Property? then WithName(strs, i.key) else strs
  }

  /** The bytes and the strings of items written one after another. */
  ghost function Room(strs: seq<byte>, items: seq<Item>): nat
    decreases |items|
  {
    if items == [] then 0 else ItemRoom(strs, items[0]) + Room(ItemStrings(strs, items[0]), items[1..])
  }

  ghost function Names(strs: seq<byte>, items: seq<Item>): seq<byte>
    decreases |items|
  {
    if items == [] then strs else Names(ItemStrings(strs, items[0]), items[1..])
  }

  lemma {:induction false} RoomConcat(strs: seq<byte>, a: seq<Item>, b: seq<Item>)
    ensures Room(strs, a + b) == Room(strs, a) + Room(Names(strs, a), b)
    ensures Names(strs, a + b) == Names(Names(strs, a), b)
    decreases |a|
  {
    hide ItemRoom, ItemStrings;
    if a == [] {
      assert a + b == b;
    } else {
      assert (a + b)[1..] == a[1..] + b;
      RoomConcat(ItemStrings(strs, a[0]), a[1..], b);
    }
  }

  /** A name is paid for once: whatever it cost, it then is among the strings, and the next property of that name takes its own
      bytes only. */
  lemma NamePaidOnce(strs: seq<byte>, key: seq<byte>, val: seq<byte>)
    requires CString(key)
    ensures exists q: nat :: StringAt(WithName(strs, key), q) == Some(key)
    ensures ItemRoom(WithName(strs, key), Item.Property(key, val)) == 12 + Align4(|val|) && WithName(WithName(strs, key), key) == WithName(strs, key)
    ensures (exists q: nat :: StringAt(strs, q) == Some(key)) ==> WithName(strs, key) == strs
  {
    hide StringAt, Align4;
    if Has(strs, key) {
      var q: nat :| StringAt(strs, q) == Some(key);
      assert StringAt(WithName(strs, key), q) == Some(key);
    } else {
      var s := WithName(strs, key);
      assert s[0..|key| + 1] == key + [0];
      MatchIsString(s, 0, key);
      assert StringAt(WithName(strs, key), 0) == Some(key);
    }
  }

  lemma RoomOfOne(strs: seq<byte>, i: Item)
    ensures Room(strs, [i]) == ItemRoom(strs, i) && Names(strs, [i]) == ItemStrings(strs, i)
  {
    hide ItemRoom, ItemStrings;
    assert [i][1..] == [];
  }

  /** The bytes between the structure block and the strings. */
  function Left(s: seq<byte>): int
    requires HEADER_SIZE <= |s|
  {
    Head(s).totalSize - Head(s).offStruct - Head(s).sizeStruct - Head(s).sizeStrings
  }

  /** Writing these items took exactly their room. */
  ghost predicate Took(s: seq<byte>, s': seq<byte>, items: seq<Item>)
  {
    && HEADER_SIZE <= |s| == |s'| && Head(s').totalSize == Head(s).totalSize
    && Left(s') == Left(s) - Room(StringPart(s), items) && StringPart(s') == Names(StringPart(s), items)
  }

  lemma TookNothing(s: seq<byte>)
    requires HEADER_SIZE <= |s|
    ensures Took(s, s, [])
  {
    hide StringPart, Left;
  }

  lemma TookMore(s: seq<byte>, s': seq<byte>, s'': seq<byte>, a: seq<Item>, b: seq<Item>)
    requires Took(s, s', a) && Took(s', s'', b)
    ensures Took(s, s'', a + b)
  {
    hide StringPart, Left, Room, Names;
    RoomConcat(StringPart(s), a, b);
  }

  lemma SpaceIsLeft(s: seq<byte>, n: nat)
    requires HEADER_SIZE <= |s|
    ensures Space(s, n) <==> n <= Left(s)
  {
    hide Head;
  }

  /** A chunk more in the structure block, with no new string. */
  lemma AppendedTook(s: seq<byte>, s': seq<byte>, chunk: seq<byte>, i: Item)
    requires Appended(s, s', chunk) && |chunk| == ItemRoom(StringPart(s), i) && ItemStrings(StringPart(s), i) == StringPart(s)
    ensures Took(s, s', [i])
  {
    hide StringPart, StructPart, Room, Names, ItemRoom, ItemStrings;
    RoomOfOne(StringPart(s), i);
    hide Head;
  }

  /** A property whose name is new: its string, then its bytes. */
  lemma NamedTook(s: seq<byte>, s0: seq<byte>, s': seq<byte>, chunk: seq<byte>, key: seq<byte>, val: seq<byte>)
    requires if Has(StringPart(s), key) then s0 == s else StringAdded(s, s0, key)
    requires Appended(s0, s', chunk) && |chunk| == 12 + Align4(|val|)
    ensures Took(s, s', [Item.Property(key, val)])
  {
    hide StringPart, StructPart, Room, Names, Align4, Has, U32;
    RoomOfOne(StringPart(s), Item.Property(key, val));
  }

  // ----- fdt_begin_node, fdt_end_node

  /** What a writing step leaves: the item more, or no space and nothing changed. */
  ghost predicate StepResult(s: seq<byte>, s': seq<byte>, rs: seq<Reserve>, items: seq<Item>, n: nat, item: Item, err: int)
  {
    if Space(s, n) then err == 0 && Writing(s', rs, items + [item]) && Took(s, s', [item]) else err == -NOSPACE && s' == s
  }

  /** fdt_begin_node */
  method BeginNode(fdt: array<byte>, name: seq<byte>, ghost rs: seq<Reserve>, ghost items: seq<Item>) returns (err: int)
    requires Writing(fdt[..], rs, items) && CString(name) && |name| < LIMIT - 16
    modifies fdt
    ensures StepResult(old(fdt[..]), fdt[..], rs, items, 4 + Align4(|name| + 1), Open(name), err)
  {
    hide U32, Put, Writing, Head, Roomy, Space, Grabbed, Appended, StructPart, StringPart;
    ghost var s := fdt[..];
    WritingRoomy(s, rs, items);
    if Head(fdt[..]).magic != SW_MAGIC {
      return -BADMAGIC;
    }
    var n := 4 + Align4(|name| + 1);
    var at := GrabSpace(fdt, n);
    if at < 0 {
      return -NOSPACE;
    }
    ghost var s1 := fdt[..];
    GrabbedAppends(s, s1, n);
    ghost var c := StructPart(s1)[Head(s).sizeStruct..];
    AppendedPut(s, s1, c, 0, Be32(BEGIN_NODE));
    PutBytes(fdt, at, Be32(BEGIN_NODE));
    ghost var c1 := Put(c, 0, Be32(BEGIN_NODE));
    AppendedPut(s, fdt[..], c1, 4, name + [0]);
    PutBytes(fdt, at + 4, name + [0]);
    ghost var c2 := Put(c1, 4, name + [0]);
    OpenWritten(c, name);
    OpenChunkToken(c2, name);
    AppendWrites(s, fdt[..], rs, items, c2, Begin(name));
    AppendedTook(s, fdt[..], c2, Open(name));
    return 0;
  }

  lemma OpenWritten(c: seq<byte>, name: seq<byte>)
    requires |c| == 4 + Align4(|name| + 1) && CString(name)
    ensures OpenChunk(Put(Put(c, 0, Be32(BEGIN_NODE)), 4, name + [0]), name)
  {
    hide U32, Be32, Put;
    var b := Be32(BEGIN_NODE);
    var c1 := Put(c, 0, b);
    var c2 := Put(c1, 4, name + [0]);
    WordReadBack(BEGIN_NODE);
    PutWord(c, 0, b, 0);
    PutWord(c1, 4, name + [0], 0);
    PutReads(c1, 4, name + [0], 4, 4);
    var m := c2[4..4 + |name| + 1];
    assert m == name + [0];
    SubSlice(c2, 4, 4 + |name| + 1, 0, |name|);
    assert m[0..|name|] == name && c2[4 + |name|] == m[|name|];
  }

  /** fdt_end_node */
  method EndNode(fdt: array<byte>, ghost rs: seq<Reserve>, ghost items: seq<Item>) returns (err: int)
    requires Writing(fdt[..], rs, items)
    modifies fdt
    ensures StepResult(old(fdt[..]), fdt[..], rs, items, 4, Close, err)
  {
    hide U32, Put, Writing, Head, Roomy, Space, Grabbed, Appended, StructPart, StringPart, Be32, First;
    ghost var s := fdt[..];
    WritingRoomy(s, rs, items);
    if Head(fdt[..]).magic != SW_MAGIC {
      return -BADMAGIC;
    }
    var at := GrabSpace(fdt, 4);
    if at < 0 {
      return -NOSPACE;
    }
    ghost var s1 := fdt[..];
    GrabbedAppends(s, s1, 4);
    ghost var c := StructPart(s1)[Head(s).sizeStruct..];
    AppendedPut(s, s1, c, 0, Be32(END_NODE));
    PutBytes(fdt, at, Be32(END_NODE));
    WholePut(c, Be32(END_NODE));
    BareBytes(Token.EndNode);
    AppendWrites(s, fdt[..], rs, items, Be32(END_NODE), Token.EndNode);
    AppendedTook(s, fdt[..], Be32(END_NODE), Close);
    return 0;
  }

  lemma WholePut(c: seq<byte>, v: seq<byte>)
    requires |c| == |v|
    ensures Put(c, 0, v) == v
  {
  }

  // ----- fdt_add_reservemap_entry

  function Be64(v: nat): (s: seq<byte>)
    requires v < W32 * W32
    ensures |s| == 8
  {
    Be32(v / W32) + Be32(v % W32)
  }

  lemma Read64Back(v: nat)
    requires v < W32 * W32
    ensures U64(Be64(v), 0) == v
  {
    var hi, lo := Be32(v / W32), Be32(v % W32);
    WordReadBack(v / W32); WordReadBack(v % W32);
    var s := Be64(v);
    assert s[0..4] == hi[0..4] && s[4..8] == lo[0..4];
    SameWord(s, hi, 0, 0); SameWord(s, lo, 4, 0);
    hide U32, Be32;
    assert v == W32 * (v / W32) + v % W32;
  }

  /** The bytes of an entry. */
  function EntryBytes(r: Reserve): (s: seq<byte>)
    requires 0 <= r.address < W32 * W32 && 0 <= r.size < W32 * W32
    ensures |s| == 16
  {
    Be64(r.address) + Be64(r.size)
  }

  lemma {:induction false} EntriesPush(s: seq<byte>, n: nat, r: Reserve)
    requires |s| == 16 * n && 0 <= r.address < W32 * W32 && 0 <= r.size < W32 * W32
    ensures Entries(s + EntryBytes(r), n + 1) == Entries(s, n) + [r]
  {
    hide U32, Be64, U64;
    var e := EntryBytes(r);
    if n == 0 {
      assert s + e == e;
      EntryReadBack(r);
      assert Entries(e[16..], 0) == [];
    } else {
      assert (s + e)[16..] == s[16..] + e;
      EntriesPush(s[16..], n - 1, r);
      FirstEntry(s, e);
      assert [Reserve(U64(s, 0), U64(s, 8))] + (Entries(s[16..], n - 1) + [r]) == Entries(s, n) + [r];
    }
  }

  lemma FirstEntry(s: seq<byte>, e: seq<byte>)
    requires |s| >= 16
    ensures U64(s + e, 0) == U64(s, 0) && U64(s + e, 8) == U64(s, 8)
  {
    forall o: nat | o + 4 <= 16 ensures U32(s + e, o) == U32(s, o) {
      assert (s + e)[o..o + 4] == s[o..o + 4];
      SameWord(s + e, s, o, o);
    }
    hide U32;
  }

  lemma EntryReadBack(r: Reserve)
    requires 0 <= r.address < W32 * W32 && 0 <= r.size < W32 * W32
    ensures U64(EntryBytes(r), 0) == r.address && U64(EntryBytes(r), 8) == r.size
  {
    hide Be64;
    var e, a, b := EntryBytes(r), Be64(r.address), Be64(r.size);
    Read64Back(r.address); Read64Back(r.size);
    assert e[0..4] == a[0..4] && e[4..8] == a[4..8] && e[8..12] == b[0..4] && e[12..16] == b[4..8];
    SameWord(e, a, 0, 0); SameWord(e, a, 4, 4); SameWord(e, b, 8, 0); SameWord(e, b, 12, 4);
    hide U32;
  }

  /** The test of fdt_add_reservemap_entry, in 32-bit arithmetic. */
  predicate EntryAccepts(h: Header)
  {
    (h.offStruct + 16) % W32 <= h.totalSize
  }

  /** A blob in which a further reservation entry, if there is room for one, continues the entries rs. */
  ghost predicate Opening(s: seq<byte>, rs: seq<Reserve>)
  {
    && HEADER_SIZE <= |s| < LIMIT
    && var h := Head(s);
    && (h.magic == SW_MAGIC && h.sizeStruct == 0 && EntryAccepts(h) ==> Writing(s, rs, []) && h.sizeStrings == 0)
  }

  /** fdt_add_reservemap_entry: only before the first node, and before any string. */
  method AddReservemapEntry(fdt: array<byte>, address: nat, size: nat, ghost rs: seq<Reserve>) returns (err: int)
    requires Opening(fdt[..], rs) && address < W32 * W32 && size < W32 * W32
    modifies fdt
    ensures var s := old(fdt[..]); var h := Head(s);
      if h.magic != SW_MAGIC then err == -BADMAGIC && fdt[..] == s
      else if h.sizeStruct != 0 then err == -BADSTATE && fdt[..] == s
      else if !EntryAccepts(h) then err == -NOSPACE && fdt[..] == s
      else err == 0 && Writing(fdt[..], rs + [Reserve(address, size)], []) && Head(fdt[..]) == h.(offStruct := h.offStruct + 16)
  {
    hide U32, Put, Writing, Be64;
    ghost var s := fdt[..];
    var h := Head(fdt[..]);
    if h.magic != SW_MAGIC {
      return -BADMAGIC;
    }
    if h.sizeStruct != 0 {
      return -BADSTATE;
    }
    if (h.offStruct + 16) % W32 > h.totalSize {
      return -NOSPACE;
    }
    WritingRoomy(s, rs, []);
    EntryAdded(s, rs, Reserve(address, size));
    PutBytes(fdt, h.offStruct, EntryBytes(Reserve(address, size)));
    SetWord(fdt, 2, h.offStruct + 16);
    return 0;
  }

  lemma EntryAdded(s: seq<byte>, rs: seq<Reserve>, r: Reserve)
    requires Writing(s, rs, []) && 0 <= r.address < W32 * W32 && 0 <= r.size < W32 * W32
    requires Head(s).sizeStruct == 0 && Head(s).sizeStrings == 0 && Head(s).offStruct + 16 <= Head(s).totalSize
    ensures var s' := Put(Put(s, Head(s).offStruct, EntryBytes(r)), 4 * 2, Be32(Head(s).offStruct + 16));
      Writing(s', rs + [r], []) && Head(s') == Head(s).(offStruct := Head(s).offStruct + 16)
  {
    hide U32, Put, EntryBytes, Entries;
    var h := Head(s);
    var t := Put(s, h.offStruct, EntryBytes(r));
    PutReads(s, h.offStruct, EntryBytes(r), 0, HEADER_SIZE);
    assert t[..HEADER_SIZE] == t[0..HEADER_SIZE] && s[..HEADER_SIZE] == s[0..HEADER_SIZE];
    HeadOfPrefix(s, t);
    HeadPut(t, 2, h.offStruct + 16);
    var s' := Put(t, 4 * 2, Be32(h.offStruct + 16));
    hide Head;
    PutReads(s, h.offStruct, EntryBytes(r), RSV_START, h.offStruct);
    PutReads(t, 8, Be32(h.offStruct + 16), RSV_START, h.offStruct + 16);
    var a := s[RSV_START..h.offStruct];
    PutReads(s, h.offStruct, EntryBytes(r), h.offStruct, h.offStruct);
    assert t[RSV_START..h.offStruct + 16] == t[RSV_START..h.offStruct] + t[h.offStruct..h.offStruct + 16];
    assert s'[RSV_START..h.offStruct + 16] == a + EntryBytes(r);
    EntriesPush(a, |rs|, r);
    NothingWritten(StructPart(s'), StringPart(s'));
  }

  lemma NothingWritten(b: seq<byte>, strs: seq<byte>)
    requires b == []
    ensures Written(b, strs, [])
  {
    assert Shift([], |strs|) == [];
  }

  /** fdt_finish_reservemap */
  method FinishReservemap(fdt: array<byte>, ghost rs: seq<Reserve>) returns (err: int)
    requires Opening(fdt[..], rs)
    modifies fdt
    ensures var s := old(fdt[..]); var h := Head(s);
      if h.magic != SW_MAGIC then err == -BADMAGIC && fdt[..] == s
      else if h.sizeStruct != 0 then err == -BADSTATE && fdt[..] == s
      else if !EntryAccepts(h) then err == -NOSPACE && fdt[..] == s
      else err == 0 && Writing(fdt[..], rs + [Reserve(0, 0)], []) && Head(fdt[..]) == h.(offStruct := h.offStruct + 16)
  {
    err := AddReservemapEntry(fdt, 0, 0, rs);
  }

  // ----- names

  /** A string was put in front of the others. */
  ghost predicate StringAdded(s: seq<byte>, s': seq<byte>, key: seq<byte>)
  {
    && Roomy(s) && Roomy(s') && |s'| == |s| && Head(s).sizeStrings + |key| + 1 < W32
    && Head(s') == Head(s).(sizeStrings := Head(s).sizeStrings + |key| + 1)
    && s'[RSV_START..Head(s).offStruct] == s[RSV_START..Head(s).offStruct]
    && StructPart(s') == StructPart(s) && StringPart(s') == key + [0] + StringPart(s)
  }

  lemma StringAddedWrites(s: seq<byte>, s': seq<byte>, key: seq<byte>, rs: seq<Reserve>, items: seq<Item>)
    requires Writing(s, rs, items) && StringAdded(s, s', key)
    ensures Writing(s', rs, items)
  {
    hide U32, StructPart, StringPart, Parses, Parse;
    RoomyParts(s);
    ShiftGrown(Parse(StructPart(s)), StringPart(s), key + [0]);
  }

  lemma StringPut(s: seq<byte>, key: seq<byte>)
    requires Roomy(s) && Space(s, |key| + 1)
    ensures var h := Head(s); var at := h.totalSize - h.sizeStrings - |key| - 1;
      && HEADER_SIZE <= at && at + |key| + 1 <= |s| && h.sizeStrings + |key| + 1 < W32
      && StringAdded(s, Put(Put(s, at, key + [0]), 4 * 8, Be32(h.sizeStrings + |key| + 1)), key)
  {
    hide U32, Put;
    var h := Head(s);
    var v, at := key + [0], h.totalSize - h.sizeStrings - |key| - 1;
    var t := Put(s, at, v);
    PutReads(s, at, v, 0, HEADER_SIZE);
    assert t[..HEADER_SIZE] == t[0..HEADER_SIZE] && s[..HEADER_SIZE] == s[0..HEADER_SIZE];
    HeadOfPrefix(s, t);
    var w := Be32(h.sizeStrings + |key| + 1);
    var s' := Put(t, 4 * 8, w);
    HeadPut(t, 8, h.sizeStrings + |key| + 1);
    hide Head;
    PutReads(s, at, v, RSV_START, h.offStruct);
    PutReads(t, 32, w, RSV_START, h.offStruct);
    PutReads(s, at, v, h.offStruct, h.offStruct + h.sizeStruct);
    PutReads(t, 32, w, h.offStruct, h.offStruct + h.sizeStruct);
    PutReads(t, 32, w, at, h.totalSize);
    PutReads(s, at, v, at, at);
    PutReads(s, at, v, at + |v|, h.totalSize);
    assert t[at..h.totalSize] == t[at..at + |v|] + t[at + |v|..h.totalSize];
  }

  /** The name offset of key, counted from the end of the strings. */
  ghost predicate NameOffset(s: seq<byte>, key: seq<byte>, at: int)
  {
    -|StringPart(s)| <= at < 0 && StringAt(StringPart(s), |StringPart(s)| + at) == Some(key)
  }

  ghost predicate Known(s: seq<byte>, key: seq<byte>)
  {
    Has(StringPart(s), key)
  }

  /** The test of _fdt_find_add_string on any header, in 32-bit arithmetic. */
  predicate NameAccepts(h: Header, len: nat)
  {
    (h.totalSize - h.sizeStrings - len) % W32 >= (h.offStruct + h.sizeStruct) % W32
  }

  /** The test accepts a string that fits; and it accepts one that does not fit exactly when the string is longer than
      all the blob before the other strings. */
  lemma NameAcceptsExactly(h: Header, len: nat)
    requires h.offStruct + h.sizeStruct < LIMIT && h.totalSize < LIMIT && h.sizeStrings <= h.totalSize && len < LIMIT
    ensures Fits(h, len) ==> NameAccepts(h, len)
    ensures NameAccepts(h, len) && !Fits(h, len) <==> h.sizeStrings + len > h.totalSize
  {
    var d := h.totalSize - h.sizeStrings - len;
    assert d % W32 == if d >= 0 then d else d + W32;
  }

  /** What stands for the first write that would start before the blob: the model ends there. */
  const OUTSIDE: int := 1

  /** A new name longer than all the blob before the other strings. */
  ghost predicate Before(s: seq<byte>, key: seq<byte>)
  {
    HEADER_SIZE <= |s| && !Known(s, key) && Head(s).sizeStrings + |key| + 1 > Head(s).totalSize
  }

  /** The copy of such a name is accepted, starts before the blob and covers its header. */
  lemma BeforeTheBlob(s: seq<byte>, key: seq<byte>)
    requires Roomy(s) && Before(s, key) && |key| < LIMIT - 16
    ensures var h := Head(s); var at := h.totalSize - h.sizeStrings - |key| - 1;
      NameAccepts(h, |key| + 1) && at < 0 && at + |key| + 1 >= RSV_START
  {
    NameAcceptsExactly(Head(s), |key| + 1);
  }

  /** The name's offset, with the name in front of the strings if it is new; 0 if there is no room. */
  ghost predicate NameResult(s: seq<byte>, s': seq<byte>, key: seq<byte>, at: int)
  {
    if Known(s, key) then NameOffset(s', key, at) && s' == s
    else if Before(s, key) then at == OUTSIDE && s' == s
    else if Space(s, |key| + 1) then NameOffset(s', key, at) && StringAdded(s, s', key)
    else at == 0 && s' == s
  }

  /** _fdt_find_add_string, in the writer. */
  method FindAddString(fdt: array<byte>, key: seq<byte>, ghost rs: seq<Reserve>, ghost items: seq<Item>) returns (at: int)
    requires Writing(fdt[..], rs, items) && CString(key) && |key| < LIMIT - 16
    modifies fdt
    ensures Writing(fdt[..], rs, items) && NameResult(old(fdt[..]), fdt[..], key, at)
  {
    hide U32, Put, Writing, StringAdded, Roomy, StringPart, StringAt;
    ghost var s := fdt[..];
    WritingRoomy(s, rs, items);
    RoomyParts(s);
    var h := Head(fdt[..]);
    var base := h.totalSize - h.sizeStrings;
    var p := FindString(fdt, base, h.sizeStrings, key);
    ghost var strs := fdt[..][base..base + h.sizeStrings];
    assert fdt[..] == s && strs == StringPart(s);
    if p >= 0 {
      MatchIsString(StringPart(s), p, key);
      MatchInside(StringPart(s), p, key);
      return p - h.sizeStrings;
    }
    forall q: nat ensures StringAt(StringPart(s), q) != Some(key) { MatchIsString(StringPart(s), q, key); }
    at := 0 - h.sizeStrings - (|key| + 1);
    NameAcceptsExactly(h, |key| + 1);
    var structTop := h.offStruct + h.sizeStruct;
    if (h.totalSize + at) % W32 < structTop {
      return 0;
    }
    if h.totalSize + at < 0 {
      return OUTSIDE;
    }
    StringPut(s, key);
    PutBytes(fdt, h.totalSize + at, key + [0]);
    SetWord(fdt, 8, h.sizeStrings + |key| + 1);
    StringAddedWrites(s, fdt[..], key, rs, items);
    AddedOffset(s, fdt[..], key);
  }

  lemma RoomyParts(s: seq<byte>)
    requires Roomy(s)
    ensures var h := Head(s); h.sizeStrings <= h.totalSize <= |s| && StringPart(s) == s[h.totalSize - h.sizeStrings..h.totalSize]
    ensures |StringPart(s)| == Head(s).sizeStrings && Head(s).offStruct + Head(s).sizeStruct + Head(s).sizeStrings <= Head(s).totalSize
  {
  }

  lemma AddedOffset(s: seq<byte>, s': seq<byte>, key: seq<byte>)
    requires StringAdded(s, s', key) && CString(key)
    ensures NameOffset(s', key, 0 - Head(s).sizeStrings - (|key| + 1))
  {
    hide StringAt, U32;
    var strs := StringPart(s');
    RoomyParts(s);
    RoomyParts(s');
    hide Roomy, StringPart;
    assert strs[0..|key| + 1] == key + [0];
    MatchIsString(strs, 0, key);
  }

  // ----- fdt_property

  /** The room a property takes, with its name if that is new. */
  ghost function PropSpace(s: seq<byte>, key: seq<byte>, len: nat): nat
  {
    12 + Align4(len) + if Known(s, key) then 0 else |key| + 1
  }

  ghost function PropAnswer(s: seq<byte>, key: seq<byte>, len: nat): int
  {
    if Space(s, PropSpace(s, key, len)) then 0 else if Before(s, key) then OUTSIDE else -NOSPACE
  }

  /** fdt_property: a failure may leave the name in the strings, but nothing in the structure. */
  method Property(fdt: array<byte>, key: seq<byte>, val: seq<byte>, ghost rs: seq<Reserve>, ghost items: seq<Item>) returns (err: int)
    requires Writing(fdt[..], rs, items) && CString(key) && |key| < LIMIT - 16 && |val| < LIMIT - 16
    modifies fdt
    ensures err == PropAnswer(old(fdt[..]), key, |val|)
    ensures Writing(fdt[..], rs, if err == 0 then items + [Item.Property(key, val)] else items)
    ensures err == 0 ==> Took(old(fdt[..]), fdt[..], [Item.Property(key, val)])
    ensures err != 0 ==> fdt[..] == old(fdt[..]) || StringAdded(old(fdt[..]), fdt[..], key)
  {
    hide U32, Put, Writing, Head, Roomy, Grabbed, Appended, StructPart, StringPart, StringAdded, Known, NameOffset, Space, First;
    ghost var s := fdt[..];
    WritingRoomy(s, rs, items);
    if Head(fdt[..]).magic != SW_MAGIC {
      return -BADMAGIC;
    }
    var at := FindAddString(fdt, key, rs, items);
    ghost var s0 := fdt[..];
    SpaceForName(s, s0, key, |val|, at);
    if at == 0 {
      return -NOSPACE;
    }
    if at == OUTSIDE {
      return OUTSIDE;
    }
    WritingRoomy(s0, rs, items);
    var n := 12 + Align4(|val|);
    var p := GrabSpace(fdt, n);
    if p < 0 {
      return -NOSPACE;
    }
    ghost var s1 := fdt[..];
    GrabbedAppends(s0, s1, n);
    ghost var c := StructPart(s1)[Head(s0).sizeStruct..];
    NameWord(s0, key, at);
    PropPuts(s0, s1, c, W32 + at, val);
    PutBytes(fdt, p, Be32(PROP));
    PutBytes(fdt, p + 8, Be32(W32 + at));
    PutBytes(fdt, p + 4, Be32(|val|));
    PutBytes(fdt, p + 12, val);
    ghost var c' := PropBytesOf(c, W32 + at, val);
    PropTokenOf(c, W32 + at, val);
    AppendWrites(s0, fdt[..], rs, items, c', Prop(W32 + at, val));
    assert Known(s, key) <==> Has(StringPart(s), key) by { KnownIs(s, key); }
    NamedTook(s, s0, fdt[..], c', key, val);
    return 0;
  }

  lemma KnownIs(s: seq<byte>, key: seq<byte>)
    ensures Known(s, key) <==> Has(StringPart(s), key)
  {
  }

  lemma SpaceForName(s: seq<byte>, s0: seq<byte>, key: seq<byte>, len: nat, at: int)
    requires Roomy(s) && NameResult(s, s0, key, at)
    ensures if at == 0 then PropAnswer(s, key, len) == -NOSPACE && s0 == s
            else if at == OUTSIDE then PropAnswer(s, key, len) == OUTSIDE && s0 == s
            else && PropAnswer(s, key, len) == (if Space(s0, 12 + Align4(len)) then 0 else -NOSPACE)
                 && NameOffset(s0, key, at) && if Known(s, key) then s0 == s else StringAdded(s, s0, key)
  {
    hide U32, Known, StringPart, StructPart, StringAt;
  }

  /** The name offset as a word, and what it is counted from the start. */
  lemma NameWord(s: seq<byte>, key: seq<byte>, at: int)
    requires NameOffset(s, key, at) && |StringPart(s)| < W32
    ensures 0 <= W32 + at < W32 && Moved(W32 + at, |StringPart(s)|) == |StringPart(s)| + at
    ensures StringAt(StringPart(s), Moved(W32 + at, |StringPart(s)|)) == Some(key)
  {
    hide StringPart, StringAt;
  }

  /** The four writes of a property into its bytes. */
  function PropBytesOf(c: seq<byte>, at: Word, val: seq<byte>): seq<byte>
    requires |val| < LIMIT - 16 && |c| == 12 + Align4(|val|)
  {
    Put(Put(Put(Put(c, 0, Be32(PROP)), 8, Be32(at)), 4, Be32(|val|)), 12, val)
  }

  lemma PropTokenOf(c: seq<byte>, at: Word, val: seq<byte>)
    requires |val| < LIMIT - 16 && |c| == 12 + Align4(|val|)
    ensures First(PropBytesOf(c, at, val)) == Some(Lexeme(Prop(at, val), |c|)) && |PropBytesOf(c, at, val)| == |c|
  {
    hide U32, Put, Be32, First;
    var n := |val|;
    var c1 := Put(c, 0, Be32(PROP));
    var c2 := Put(c1, 8, Be32(at));
    var c3 := Put(c2, 4, Be32(n));
    WordReadBack(PROP); WordReadBack(at); WordReadBack(n);
    PutWord(c, 0, Be32(PROP), 0);
    PutWord(c1, 8, Be32(at), 0); PutWord(c1, 8, Be32(at), 8);
    PutWord(c2, 4, Be32(n), 0); PutWord(c2, 4, Be32(n), 4); PutWord(c2, 4, Be32(n), 8);
    PutWord(c3, 12, val, 0); PutWord(c3, 12, val, 4); PutWord(c3, 12, val, 8);
    PutReads(c3, 12, val, 12, 12);
    PropChunkToken(PropBytesOf(c, at, val), n);
  }

  lemma PropPuts(s: seq<byte>, s1: seq<byte>, c: seq<byte>, at: Word, val: seq<byte>)
    requires |val| < LIMIT - 16 && |c| == 12 + Align4(|val|) && Appended(s, s1, c)
    ensures HEADER_SIZE <= |s| && Head(s).offStruct + Head(s).sizeStruct + |c| <= |s1|
    ensures var p := Head(s).offStruct + Head(s).sizeStruct;
      Appended(s, Put(Put(Put(Put(s1, p, Be32(PROP)), p + 8, Be32(at)), p + 4, Be32(|val|)), p + 12, val), PropBytesOf(c, at, val))
  {
    hide U32, Put, Be32, Appended, Head, Align4;
    AppendedSize(s, s1, c);
    var p := Head(s).offStruct + Head(s).sizeStruct;
    var s2, c2 := Put(s1, p, Be32(PROP)), Put(c, 0, Be32(PROP));
    AppendedPut(s, s1, c, 0, Be32(PROP));
    var s3, c3 := Put(s2, p + 8, Be32(at)), Put(c2, 8, Be32(at));
    AppendedPut(s, s2, c2, 8, Be32(at));
    var s4, c4 := Put(s3, p + 4, Be32(|val|)), Put(c3, 4, Be32(|val|));
    AppendedPut(s, s3, c3, 4, Be32(|val|));
    AppendedPut(s, s4, c4, 12, val);
  }

  lemma AppendedSize(s: seq<byte>, s1: seq<byte>, c: seq<byte>)
    requires Appended(s, s1, c)
    ensures HEADER_SIZE <= |s| && Head(s).offStruct + Head(s).sizeStruct + |c| <= |s1|
  {
    hide U32;
  }

  // ----- fdt_finish

  /** The entries before the first of size 0. */
  function UntilZero(rs: seq<Reserve>): seq<Reserve>
  {
    if rs == [] || rs[0].size == 0 then [] else [rs[0]] + UntilZero(rs[1..])
  }

  ghost predicate HasTerminator(rs: seq<Reserve>)
  {
    exists i :: 0 <= i < |rs| && rs[i].size == 0
  }

  /** A table of entries, one of size 0, read back. */
  lemma {:induction false} TableReadBack(r: seq<byte>, rs: seq<Reserve>)
    requires 16 * |rs| <= |r| && Entries(r, |rs|) == rs && HasTerminator(rs)
    ensures Terminated(r) && 16 * RsvCount(r) + 16 <= 16 * |rs| && Entries(r, RsvCount(r)) == UntilZero(rs)
    decreases |rs|
  {
    hide U64;
    assert rs[0] == Reserve(U64(r, 0), U64(r, 8)) && rs[1..] == Entries(r[16..], |rs| - 1);
    if rs[0].size != 0 {
      var i :| 0 <= i < |rs| && rs[i].size == 0;
      assert rs[1..][i - 1].size == 0;
      TableReadBack(r[16..], rs[1..]);
    }
  }

  lemma {:induction false} EntriesLocal(r: seq<byte>, r': seq<byte>, n: nat)
    requires 16 * n <= |r| && 16 * n <= |r'| && r[..16 * n] == r'[..16 * n]
    ensures Entries(r, n) == Entries(r', n)
  {
    if n > 0 {
      forall o: nat | o + 4 <= 16 ensures U32(r, o) == U32(r', o) {
        assert r[o..o + 4] == r[..16 * n][o..o + 4] && r'[o..o + 4] == r'[..16 * n][o..o + 4];
        SameWord(r, r', o, o);
      }
      hide U32;
      assert r[16..][..16 * n - 16] == r[..16 * n][16..] && r'[16..][..16 * n - 16] == r'[..16 * n][16..];
      EntriesLocal(r[16..], r'[16..], n - 1);
    }
  }

  /** Finished blobs: complete, with the items written and, if the reservations were terminated, those before the terminator. */
  ghost predicate Finished(s: seq<byte>, rs: seq<Reserve>, items: seq<Item>)
  {
    && Legible(s) && Content(s) == items && Head(s).magic == MAGIC
    && (HasTerminator(rs) ==> Sound(s) && Reserved(s) == UntilZero(rs))
  }

  /** The header of a finished blob: no byte is left between its blocks or behind them; and its strings. */
  ghost predicate Closed(s: seq<byte>, s': seq<byte>)
  {
    && HEADER_SIZE <= |s| == |s'|
    && var h, h' := Head(s), Head(s');
    && h'.offRsv == h.offRsv && h'.offStruct == h.offStruct && h'.sizeStrings == h.sizeStrings && h'.version == h.version
    && h'.lastComp == h.lastComp && h'.bootCpu == h.bootCpu
    && h'.sizeStruct == h.sizeStruct + 4 && h'.offStrings == h'.offStruct + h'.sizeStruct && h'.totalSize == h'.offStrings + h'.sizeStrings
    && Strings(s') == StringPart(s)
  }

  /** The round trip: writing the items of a tree gives a blob that stands for that tree. */
  lemma WriterRoundTrip(s: seq<byte>, rs: seq<Reserve>, t: Tree)
    requires Finished(s, rs, Flatten(t)) && HasTerminator(rs)
    ensures Denotes(s, t) && Reserved(s) == UntilZero(rs)
  {
    hide U32, Flatten, Streams, StreamLen, RsvCount, Strings, Region, Items, AllItems, Resolves;
  }

  /** The walk of fdt_finish: tokens before the offset have their names counted from the start, the rest do not yet. */
  ghost predicate Walked(b: seq<byte>, b': seq<byte>, n: nat, o: int)
  {
    && 0 <= o <= |b| == |b'| && b'[o..] == b[o..] && Parses(b[..o]) && Parses(b'[..o])
    && Parse(b'[..o]) == Shift(Parse(b[..o]), n)
  }

  lemma WalkBegins(b: seq<byte>, n: nat)
    ensures Walked(b, b, n, 0)
  {
    assert b[..0] == [] && Shift([], n) == [];
  }

  /** One token on; a property's name offset is rewritten. */
  lemma WalkStep(b: seq<byte>, b': seq<byte>, n: nat, o: nat, b'': seq<byte>)
    requires Walked(b, b', n, o) && Steps(b[o..])
    requires var x := First(b[o..]).value;
      if x.tok.Prop? then o + 12 <= |b'| && b'' == Put(b', o + 8, Be32(Moved(U32(b', o + 8), n))) else b'' == b'
    ensures Walked(b, b'', n, o + First(b[o..]).value.len)
  {
    hide First, Parses, Parse, U32, Put, Be32, Moved;
    var x := First(b[o..]).value;
    var m := o + x.len;
    RewriteToken(b[o..], b''[o..], n, x, b', o, b'');
    ParseNext(b, o, x);
    ParseNext(b'', o, Lexeme(Shifted(x.tok, n), x.len));
    ShiftConcat(Parse(b[..o]), [x.tok], n);
    assert Shift([x.tok], n) == [Shifted(x.tok, n)];
  }

  lemma RewriteToken(r: seq<byte>, r'': seq<byte>, n: nat, x: Lexeme, b': seq<byte>, o: nat, b'': seq<byte>)
    requires o <= |b'| && r == b'[o..] && First(r) == Some(x) && x.len <= |r| && x.tok != End
    requires if x.tok.Prop? then o + 12 <= |b'| && b'' == Put(b', o + 8, Be32(Moved(U32(b', o + 8), n))) else b'' == b'
    requires o <= |b''| && r'' == b''[o..]
    ensures |b''| == |b'| && b''[..o] == b'[..o] && b''[o + x.len..] == b'[o + x.len..]
    ensures First(r'') == Some(Lexeme(Shifted(x.tok, n), x.len))
  {
    hide Moved, Be32;
    if x.tok.Prop? {
      PropIsLong(r);
      var w := Moved(U32(b', o + 8), n);
      TailWord(b', o, 8);
      assert r'' == Put(r, 8, Be32(w));
      RewriteProp(r, w);
    }
  }

  lemma PropIsLong(r: seq<byte>)
    requires First(r).Some? && First(r).value.tok.Prop?
    ensures |r| >= 12 && First(r).value.len >= 12 && First(r).value.tok.nameoff == U32(r, 8)
  {
    hide U32;
  }

  /** Rewriting the name offset of a property. */
  lemma RewriteProp(r: seq<byte>, w: Word)
    requires First(r).Some? && First(r).value.tok.Prop? && |r| >= 12
    ensures First(Put(r, 8, Be32(w))) == Some(Lexeme(Prop(w, First(r).value.tok.val), First(r).value.len))
  {
    hide U32, Be32;
    var r' := Put(r, 8, Be32(w));
    WordReadBack(w);
    PutWord(r, 8, Be32(w), 0); PutWord(r, 8, Be32(w), 4); PutWord(r, 8, Be32(w), 8);
    assert r'[12..] == r[12..];
    assert r'[12..12 + U32(r, 4)] == r[12..12 + U32(r, 4)];
    hide Put;
  }

  lemma WalkEnds(b: seq<byte>, b': seq<byte>, n: nat, o: nat, done: seq<byte>)
    requires Walked(b, b', n, o) && Ends(b[o..]) && Parses(done) && b == done + Be32(END)
    ensures Streams(b') && Stream(b') == Shift(Parse(done), n)
  {
    hide First, Parses, Parse, Be32;
    BareBytes(Token.End);
    assert Ends(Be32(END));
    StreamConcat(done, Be32(END));
    assert Stream(Be32(END)) == [];
    assert Stream(b) == Parse(done) + [] == Parse(done);
    StreamFrom(b, o);
    assert Stream(b[o..]) == [];
    assert b' == b'[..o] + b'[o..];
    StreamConcat(b'[..o], b'[o..]);
    assert Stream(b) == Parse(b[..o]) + [] == Parse(b[..o]);
  }

  /** The strings moved up behind the structure block. */
  ghost predicate StringsMoved(s: seq<byte>, s': seq<byte>)
  {
    && Roomy(s) && |s'| == |s| && Head(s).offStruct + Head(s).sizeStruct < W32
    && Head(s') == Head(s).(offStrings := Head(s).offStruct + Head(s).sizeStruct)
    && s'[RSV_START..Head(s).offStruct] == s[RSV_START..Head(s).offStruct]
    && StructPart(s') == StructPart(s) && Strings(s') == StringPart(s)
  }

  lemma MoveStrings(s: seq<byte>)
    requires Roomy(s)
    ensures var h := Head(s); var to, from := h.offStruct + h.sizeStruct, h.totalSize - h.sizeStrings;
      && from >= to && from + h.sizeStrings <= |s| && to + h.sizeStrings <= |s| && to < W32
      && StringsMoved(s, Put(Put(s, to, s[from..from + h.sizeStrings]), 4 * 3, Be32(to)))
  {
    hide U32, Put;
    var h := Head(s);
    var to, from := h.offStruct + h.sizeStruct, h.totalSize - h.sizeStrings;
    var v := s[from..from + h.sizeStrings];
    var t := Put(s, to, v);
    PutReads(s, to, v, 0, HEADER_SIZE);
    assert t[..HEADER_SIZE] == t[0..HEADER_SIZE] && s[..HEADER_SIZE] == s[0..HEADER_SIZE];
    HeadOfPrefix(s, t);
    HeadPut(t, 3, to);
    hide Head;
    PutReads(s, to, v, RSV_START, h.offStruct);
    PutReads(t, 12, Be32(to), RSV_START, h.offStruct);
    PutReads(s, to, v, h.offStruct, to);
    PutReads(t, 12, Be32(to), h.offStruct, to);
    PutReads(s, to, v, to, to);
    PutReads(t, 12, Be32(to), to, to + |v|);
  }

  /** During the walk only bytes of the structure block change. */
  ghost predicate Framed(s: seq<byte>, cur: seq<byte>)
  {
    && HEADER_SIZE <= |s| < LIMIT && |cur| == |s| && Head(cur) == Head(s) && RSV_START <= Head(s).offStruct
    && Head(s).version == LAST_VERSION && Head(s).offStruct + Head(s).sizeStruct <= Head(s).offStrings
    && Head(s).offStrings + Head(s).sizeStrings <= Head(s).totalSize <= |s|
    && cur[RSV_START..Head(s).offStruct] == s[RSV_START..Head(s).offStruct] && Strings(cur) == Strings(s)
  }

  lemma FramedRegion(s: seq<byte>, cur: seq<byte>)
    requires Framed(s, cur)
    ensures Readable(cur) && Region(cur) == StructPart(cur) && |Region(cur)| == Head(s).sizeStruct < LIMIT
    ensures U32(cur, 8) == Head(s).offStruct && U32(cur, 8) + |Region(cur)| <= |cur|
    ensures Region(cur) == cur[U32(cur, 8)..U32(cur, 8) + |Region(cur)|]
  {
    hide U32;
  }

  lemma FramedPut(s: seq<byte>, cur: seq<byte>, k: nat, v: seq<byte>)
    requires Framed(s, cur) && k + |v| <= Head(s).sizeStruct
    ensures U32(cur, 8) + k + |v| <= |cur| && |Region(cur)| == Head(s).sizeStruct
    ensures var t := Put(cur, U32(cur, 8) + k, v); Framed(s, t) && Region(t) == Put(Region(cur), k, v)
  {
    hide U32, Put;
    FramedRegion(s, cur);
    var h := Head(s);
    var p := h.offStruct + k;
    var t := Put(cur, p, v);
    PutReads(cur, p, v, 0, HEADER_SIZE);
    assert t[..HEADER_SIZE] == t[0..HEADER_SIZE] && cur[..HEADER_SIZE] == cur[0..HEADER_SIZE];
    HeadOfPrefix(cur, t);
    hide Head;
    PutReads(cur, p, v, RSV_START, h.offStruct);
    PutReads(cur, p, v, h.offStrings, h.offStrings + h.sizeStrings);
    PutInSlice(cur, p, v, h.offStruct, h.offStruct + h.sizeStruct);
    FramedRegion(s, t);
  }

  /** The walk at offset o of the block b, whose names are counted from the end of n bytes of strings. */
  ghost predicate Fixing(s: seq<byte>, cur: seq<byte>, b: seq<byte>, n: nat, o: int)
  {
    Framed(s, cur) && Streams(b) && |b| == Head(s).sizeStruct && Walked(b, Region(cur), n, o)
  }

  /** What the walk reads at its offset. */
  lemma FixingTag(s: seq<byte>, cur: seq<byte>, b: seq<byte>, n: nat, o: int)
    requires Fixing(s, cur, b, n, o)
    ensures Readable(cur) && 0 <= o < LIMIT - 4 && o <= |b| && First(b[o..]).Some? && (Ends(b[o..]) <==> !Steps(b[o..]))
    ensures TagAt(Region(cur), o) == Tag(TagOf(First(b[o..]).value.tok), o + First(b[o..]).value.len)
  {
    hide U32, First, Parses, Parse, TagAt, Streams, Stream, StreamLen, Region;
    FramedRegion(s, cur);
    ParseAligned(b[..o]);
    StreamFrom(b, o);
    StreamStarts(b[o..]);
    TagIsFirst(Region(cur), o);
  }

  /** One turn of the walk. */
  method FixToken(fdt: array<byte>, o: nat, ghost s: seq<byte>, ghost b: seq<byte>, n: nat) returns (tag: Word, next: int)
    requires Fixing(s, fdt[..], b, n, o)
    modifies fdt
    ensures o <= |b| && if tag == END then Ends(b[o..]) && fdt[..] == old(fdt[..]) && next >= 0 else next > o && Fixing(s, fdt[..], b, n, next)
  {
    hide U32, First, Parses, Parse, TagAt, Streams, Stream, StreamLen, Region, Walked, Framed, Put, Be32, Moved;
    ghost var cur := fdt[..];
    FixingTag(s, cur, b, n, o);
    ghost var x := First(b[o..]).value;
    TagsOfTokens(x.tok);
    tag, next := NextTag(fdt, o);
    assert fdt[..] == cur;
    if tag == PROP {
      PropFits(s, cur, b, n, o);
      var p := U32(fdt[..], 8) + o + 8;
      var nameoff := U32(fdt[..], p);
      FramedPut(s, cur, o + 8, Be32(Moved(nameoff, n)));
      PutBytes(fdt, p, Be32(Moved(nameoff, n)));
    }
    if tag != END {
      WalkStep(b, Region(cur), n, o, Region(fdt[..]));
    }
  }

  lemma TagsOfTokens(t: Token)
    ensures TagOf(t) == PROP <==> t.Prop?
    ensures TagOf(t) == END <==> t == End
  {
  }

  lemma PropFits(s: seq<byte>, cur: seq<byte>, b: seq<byte>, n: nat, o: nat)
    requires Fixing(s, cur, b, n, o) && First(b[o..]).Some? && First(b[o..]).value.tok.Prop?
    ensures o + 12 <= |Region(cur)| == Head(s).sizeStruct && |cur| >= HEADER_SIZE && U32(cur, 8) + o + 12 <= |cur|
    ensures U32(cur, U32(cur, 8) + o + 8) == U32(Region(cur), o + 8)
  {
    hide U32, First, Parses, Parse, Streams, Stream, StreamLen, Region;
    FramedRegion(s, cur);
    PropIsLong(b[o..]);
    WordOfSlice(cur, U32(cur, 8), U32(cur, 8) + |Region(cur)|, o + 8);
  }

  /** fdt_finish: the END tag, the strings moved up, every name offset made relative to their start. */
  method Finish(fdt: array<byte>, ghost rs: seq<Reserve>, ghost items: seq<Item>) returns (err: int)
    requires Writing(fdt[..], rs, items)
    modifies fdt
    ensures if Space(old(fdt[..]), 4) then err == 0 && Finished(fdt[..], rs, items) && Closed(old(fdt[..]), fdt[..])
            else err == -NOSPACE && fdt[..] == old(fdt[..])
  {
    hide Closed, U32, Put, Writing, Head, Roomy, Grabbed, Appended, StructPart, StringPart, Be32, First, Space, StringsMoved, Fixing, Finished, Streams;
    ghost var s := fdt[..];
    WritingRoomy(s, rs, items);
    if Head(fdt[..]).magic != SW_MAGIC {
      return -BADMAGIC;
    }
    var at := GrabSpace(fdt, 4);
    if at < 0 {
      return -NOSPACE;
    }
    ghost var s1 := fdt[..];
    GrabbedAppends(s, s1, 4);
    ghost var c := StructPart(s1)[Head(s).sizeStruct..];
    AppendedPut(s, s1, c, 0, Be32(END));
    WholePut(c, Be32(END));
    PutBytes(fdt, at, Be32(END));
    ghost var s2 := fdt[..];
    RoomyAfter(s, s2, Be32(END));
    var h := Head(fdt[..]);
    var to, from := h.offStruct + h.sizeStruct, h.totalSize - h.sizeStrings;
    MoveStrings(s2);
    MoveBytes(fdt, to, from, h.sizeStrings);
    SetWord(fdt, 3, to);
    ghost var s4 := fdt[..];
    ghost var b := StructPart(s2);
    FixingBegins(s, s2, s4, rs, items);
    var offset := 0;
    var tag, next := FixToken(fdt, offset, s4, b, h.sizeStrings);
    while tag != END
      invariant 0 <= offset <= |b| && |fdt[..]| == |s4|
      invariant tag == END ==> Fixing(s4, fdt[..], b, h.sizeStrings, offset) && Ends(b[offset..]) && next >= 0
      invariant tag != END ==> next > offset && Fixing(s4, fdt[..], b, h.sizeStrings, next)
      decreases |b| - offset, tag != END
    {
      offset := next;
      FixingInside(s4, fdt[..], b, h.sizeStrings, offset);
      tag, next := FixToken(fdt, offset, s4, b, h.sizeStrings);
    }
    if next < 0 {
      return next;
    }
    ghost var s5 := fdt[..];
    FinishedHead(s, s2, s4, s5, rs, items, offset);
    SetWord(fdt, 1, to + h.sizeStrings);
    SetWord(fdt, 0, MAGIC);
    return 0;
  }

  lemma RoomyAfter(s: seq<byte>, s': seq<byte>, c: seq<byte>)
    requires Appended(s, s', c)
    ensures Roomy(s') && HEADER_SIZE <= |s'|
  {
  }

  lemma FixingInside(s: seq<byte>, cur: seq<byte>, b: seq<byte>, n: nat, o: int)
    requires Fixing(s, cur, b, n, o)
    ensures 0 <= o <= |b|
  {
  }

  lemma FixingBegins(s: seq<byte>, s2: seq<byte>, s4: seq<byte>, rs: seq<Reserve>, items: seq<Item>)
    requires Writing(s, rs, items) && Appended(s, s2, Be32(END)) && StringsMoved(s2, s4)
    ensures Fixing(s4, s4, StructPart(s2), Head(s2).sizeStrings, 0)
  {
    hide U32, First, Parses, Parse, Streams, Stream, StreamLen, Be32, StructPart, StringPart, Strings, Region, Walked;
    var b := StructPart(s2);
    PartSizes(s2);
    MovedRegion(s2, s4);
    EndStreams(StructPart(s));
    WalkBegins(b, Head(s2).sizeStrings);
  }

  lemma PartSizes(s: seq<byte>)
    requires Roomy(s)
    ensures |StructPart(s)| == Head(s).sizeStruct && |StringPart(s)| == Head(s).sizeStrings
  {
    hide U32;
  }

  lemma MovedRegion(s: seq<byte>, s': seq<byte>)
    requires StringsMoved(s, s') && Head(s).version == LAST_VERSION
    ensures Region(s') == StructPart(s) && Readable(s')
  {
    hide U32;
  }

  lemma EndStreams(a: seq<byte>)
    requires Parses(a)
    ensures Streams(a + Be32(END))
  {
    hide First, Parses, Parse, Be32;
    BareBytes(Token.End);
    assert Ends(Be32(END));
    StreamConcat(a, Be32(END));
  }

  /** The last two header writes make the blob complete. */
  lemma FinishedHead(s: seq<byte>, s2: seq<byte>, s4: seq<byte>, s5: seq<byte>, rs: seq<Reserve>, items: seq<Item>, o: nat)
    requires Writing(s, rs, items) && Appended(s, s2, Be32(END)) && StringsMoved(s2, s4)
    requires Fixing(s4, s5, StructPart(s2), Head(s2).sizeStrings, o) && Ends(StructPart(s2)[o..])
    ensures HEADER_SIZE <= |s5| && Head(s4).offStrings + Head(s2).sizeStrings < W32
    ensures Head(s4).offStrings == Head(s2).offStruct + Head(s2).sizeStruct
    ensures var s' := Put(Put(s5, 4 * 1, Be32(Head(s4).offStrings + Head(s2).sizeStrings)), 4 * 0, Be32(MAGIC));
      Finished(s', rs, items) && Closed(s, s')
  {
    hide U32, First, Parses, Parse, Streams, Stream, StreamLen, Be32, StructPart, StringPart, Put, Ends, Shift, Resolves, Resolve, Entries;
    PartSizes(s); PartSizes(s2);
    var b := StructPart(s2);
    var total := Head(s4).offStrings + Head(s2).sizeStrings;
    WalkEnds(b, Region(s5), Head(s2).sizeStrings, o, StructPart(s));
    FramedRegion(s4, s5);
    var s' := Put(Put(s5, 4 * 1, Be32(total)), 4 * 0, Be32(MAGIC));
    LastHead(s4, s5, total);
    hide Region, Strings;
    FinishedText(s, s', rs, items);
    if HasTerminator(rs) { FinishedRsv(s, s', rs); }
  }

  /** The final header. */
  lemma LastHead(s4: seq<byte>, s5: seq<byte>, total: nat)
    requires Framed(s4, s5) && total == Head(s4).offStrings + Head(s4).sizeStrings
    ensures total < W32 && var s' := Put(Put(s5, 4 * 1, Be32(total)), 4 * 0, Be32(MAGIC));
      && |s'| == |s5| && Head(s') == Head(s4).(totalSize := total, magic := MAGIC) && Readable(s')
      && s'[RSV_START..Head(s4).offStruct] == s5[RSV_START..Head(s4).offStruct]
      && Region(s') == Region(s5) && Strings(s') == Strings(s5)
  {
    hide U32, Put, Be32;
    var t := Put(s5, 4 * 1, Be32(total));
    HeadPut(s5, 1, total);
    HeadPut(t, 0, MAGIC);
    var h := Head(s4);
    PutReads(s5, 4, Be32(total), RSV_START, h.offStruct);
    PutReads(t, 0, Be32(MAGIC), RSV_START, h.offStruct);
    PutReads(s5, 4, Be32(total), h.offStruct, h.offStruct + h.sizeStruct);
    PutReads(t, 0, Be32(MAGIC), h.offStruct, h.offStruct + h.sizeStruct);
    PutReads(s5, 4, Be32(total), h.offStrings, h.offStrings + h.sizeStrings);
    PutReads(t, 0, Be32(MAGIC), h.offStrings, h.offStrings + h.sizeStrings);
  }

  lemma FinishedText(s: seq<byte>, s': seq<byte>, rs: seq<Reserve>, items: seq<Item>)
    requires Writing(s, rs, items) && Readable(s') && Head(s').offStrings + Head(s').sizeStrings <= |s'|
    requires Streams(Region(s')) && Stream(Region(s')) == Shift(Parse(StructPart(s)), |StringPart(s)|) && Strings(s') == StringPart(s)
    ensures Legible(s') && Content(s') == items
  {
    hide U32, Parses, Parse, Streams, Stream, StreamLen, StructPart, StringPart, Shift, Resolves, Resolve, Entries, Head, Region, Strings;
  }

  lemma FinishedRsv(s: seq<byte>, s': seq<byte>, rs: seq<Reserve>)
    requires HasTerminator(rs) && HEADER_SIZE <= |s| && Head(s).offStruct == RSV_START + 16 * |rs| <= |s|
    requires Entries(s[RSV_START..Head(s).offStruct], |rs|) == rs
    requires Readable(s') && Streams(Region(s'))
    requires var h' := Head(s');
      && h'.magic == MAGIC && h'.version == LAST_VERSION && h'.lastComp == FIRST_VERSION && h'.offRsv == RSV_START
      && h'.offStruct == Head(s).offStruct && h'.offStrings == h'.offStruct + h'.sizeStruct && h'.totalSize == h'.offStrings + h'.sizeStrings
      && s'[RSV_START..h'.offStruct] == s[RSV_START..h'.offStruct]
    ensures Sound(s') && Reserved(s') == UntilZero(rs)
  {
    hide U32, Streams, StreamLen, RsvCount, Entries, Region, Strings, HasTerminator, UntilZero;
    var h' := Head(s');
    var r, e := s'[RSV_START..h'.totalSize], s[RSV_START..h'.offStruct];
    SubSlice(s', RSV_START, h'.totalSize, 0, 16 * |rs|);
    assert r[..16 * |rs|] == r[0..16 * |rs|] == e == e[..16 * |rs|];
    EntriesLocal(r, e, |rs|);
    TableReadBack(r, rs);
  }

  // ----- writing a whole tree with these calls

  /** Names that can be written, and values of a size fdt_property takes. */
  predicate Writable(t: Tree)
    decreases t, 1
  {
    && CString(t.name) && |t.name| < LIMIT - 16
    && (forall i :: 0 <= i < |t.props| ==> CString(t.props[i].key) && |t.props[i].key| < LIMIT - 16 && |t.props[i].val| < LIMIT - 16)
    && WritableAll(t.kids)
  }

  predicate WritableAll(ts: seq<Tree>)
    decreases ts, 0
  {
    ts == [] || (Writable(ts[0]) && WritableAll(ts[1..]))
  }

  /** The first item for which no room is left is a property whose name is longer than all the blob before the strings. */
  ghost predicate Overruns(strs: seq<byte>, total: nat, left: int, items: seq<Item>)
    decreases |items|
  {
    items != [] &&
    var i := items[0];
    if ItemRoom(strs, i) <= left then Overruns(ItemStrings(strs, i), total, left - ItemRoom(strs, i), items[1..])
    else i.Property? && !Has(strs, i.key) && |strs| + |i.key| + 1 > total
  }

  lemma {:induction false} OverrunsConcat(strs: seq<byte>, total: nat, left: nat, a: seq<Item>, b: seq<Item>)
    ensures Overruns(strs, total, left, a + b) <==>
            if Room(strs, a) <= left then Overruns(Names(strs, a), total, left - Room(strs, a), b) else Overruns(strs, total, left, a)
    decreases |a|
  {
    hide ItemRoom, ItemStrings, Has;
    if a == [] {
      assert a + b == b;
    } else {
      assert (a + b)[0] == a[0] && (a + b)[1..] == a[1..] + b;
      if ItemRoom(strs, a[0]) <= left {
        OverrunsConcat(ItemStrings(strs, a[0]), total, left - ItemRoom(strs, a[0]), a[1..], b);
      }
    }
  }

  lemma NoOverrun(strs: seq<byte>, total: nat, left: nat, items: seq<Item>)
    requires Room(strs, items) <= left
    ensures !Overruns(strs, total, left, items)
  {
    hide Room;
    OverrunsConcat(strs, total, left, items, []);
    assert items + [] == items;
  }

  /** Names that fit together into the blob never overrun it. */
  lemma {:induction false} OverrunNames(strs: seq<byte>, total: nat, left: int, items: seq<Item>)
    ensures |Names(strs, items)| >= |strs|
    ensures Overruns(strs, total, left, items) ==> |Names(strs, items)| > total
    decreases |items|
  {
    hide ItemRoom, Has;
    if items != [] {
      OverrunNames(ItemStrings(strs, items[0]), total, left - ItemRoom(strs, items[0]), items[1..]);
    }
  }

  /** What writing items answers. */
  ghost function Answer(strs: seq<byte>, total: nat, left: int, items: seq<Item>): int
  {
    if Room(strs, items) <= left then 0 else if Overruns(strs, total, left, items) then OUTSIDE else -NOSPACE
  }

  lemma AnswerConcat(strs: seq<byte>, total: nat, left: nat, a: seq<Item>, b: seq<Item>)
    ensures Answer(strs, total, left, a + b) ==
            if Room(strs, a) <= left then Answer(Names(strs, a), total, left - Room(strs, a), b) else Answer(strs, total, left, a)
  {
    hide Room, Names, Overruns;
    RoomConcat(strs, a, b);
    OverrunsConcat(strs, total, left, a, b);
  }

  /** The items its written, or the answer why not. */
  ghost predicate PartResult(s: seq<byte>, s': seq<byte>, rs: seq<Reserve>, items: seq<Item>, its: seq<Item>, err: int)
  {
    && HEADER_SIZE <= |s| && Left(s) >= 0 && err == Answer(StringPart(s), Head(s).totalSize, Left(s), its)
    && (err == 0 ==> Writing(s', rs, items + its) && Took(s, s', its))
  }

  lemma AnswerOfOne(strs: seq<byte>, total: nat, left: int, i: Item)
    ensures Answer(strs, total, left, [i]) ==
            if ItemRoom(strs, i) <= left then 0
            else if i.Property? && !Has(strs, i.key) && |strs| + |i.key| + 1 > total then OUTSIDE else -NOSPACE
  {
    hide ItemRoom, ItemStrings, Has;
    RoomOfOne(strs, i);
    assert [i][1..] == [];
  }

  lemma StepIsPart(s: seq<byte>, s': seq<byte>, rs: seq<Reserve>, items: seq<Item>, n: nat, item: Item, err: int)
    requires HEADER_SIZE <= |s| && Left(s) >= 0 && StepResult(s, s', rs, items, n, item, err)
    requires n == ItemRoom(StringPart(s), item) && !item.Property?
    ensures PartResult(s, s', rs, items, [item], err)
  {
    hide StringPart, ItemRoom, Writing, Took, Space, Left, Answer;
    AnswerOfOne(StringPart(s), Head(s).totalSize, Left(s), item);
    SpaceIsLeft(s, n);
  }

  lemma PropertyIsPart(s: seq<byte>, s': seq<byte>, rs: seq<Reserve>, items: seq<Item>, key: seq<byte>, val: seq<byte>, err: int)
    requires HEADER_SIZE <= |s| && Left(s) >= 0 && |StringPart(s)| == Head(s).sizeStrings && err == PropAnswer(s, key, |val|)
    requires err == 0 ==> Writing(s', rs, items + [Item.Property(key, val)]) && Took(s, s', [Item.Property(key, val)])
    ensures PartResult(s, s', rs, items, [Item.Property(key, val)], err)
  {
    hide StringPart, Writing, Took, Space, Left, Answer, Has, Head;
    AnswerOfOne(StringPart(s), Head(s).totalSize, Left(s), Item.Property(key, val));
    SpaceIsLeft(s, PropSpace(s, key, |val|));
  }

  lemma PartsJoin(s: seq<byte>, s': seq<byte>, s'': seq<byte>, rs: seq<Reserve>, items: seq<Item>, a: seq<Item>, b: seq<Item>, err: int)
    requires PartResult(s, s', rs, items, a, 0) && PartResult(s', s'', rs, items + a, b, err)
    ensures PartResult(s, s'', rs, items, a + b, err)
  {
    hide StringPart, Writing, Left, Room, Names, Overruns, Head;
    assert items + a + b == items + (a + b);
    AnswerConcat(StringPart(s), Head(s).totalSize, Left(s), a, b);
    if err == 0 { TookMore(s, s', s'', a, b); }
  }

  lemma PartFails(s: seq<byte>, s': seq<byte>, s'': seq<byte>, rs: seq<Reserve>, items: seq<Item>, a: seq<Item>, b: seq<Item>, err: int)
    requires PartResult(s, s', rs, items, a, err) && err != 0
    ensures PartResult(s, s'', rs, items, a + b, err)
  {
    hide StringPart, Writing, Took, Left, Room, Names, Overruns, Head;
    AnswerConcat(StringPart(s), Head(s).totalSize, Left(s), a, b);
  }

  lemma PartWriting(s: seq<byte>, s': seq<byte>, rs: seq<Reserve>, items: seq<Item>, its: seq<Item>)
    requires PartResult(s, s', rs, items, its, 0)
    ensures Writing(s', rs, items + its) && HEADER_SIZE <= |s'|
  {
    hide StringPart, Writing, Left, Room, Names;
  }

  /** The properties and children of a node between its begin and end calls: written exactly if there is room for all of it. */
  method WriteNode(fdt: array<byte>, t: Tree, ghost rs: seq<Reserve>, ghost items: seq<Item>) returns (err: int)
    requires Writing(fdt[..], rs, items) && Writable(t)
    modifies fdt
    ensures PartResult(old(fdt[..]), fdt[..], rs, items, Flatten(t), err)
    decreases t, 1
  {
    hide Writing, Space, PartResult, StepResult, Took, Left, StringPart, Room, PropSpace, Flatten, FlattenAll;
    ghost var s := fdt[..];
    WritingRoomy(s, rs, items);
    err := BeginNode(fdt, t.name, rs, items);
    ghost var begun := [Open(t.name)];
    StepIsPart(s, fdt[..], rs, items, 4 + Align4(|t.name| + 1), Open(t.name), err);
    ghost var rest := FlattenAll(t.kids) + [Close];
    assert Flatten(t) == begun + (PropItems(t.props) + rest) by { Flattened(t); }
    if err != 0 {
      PartFails(s, fdt[..], fdt[..], rs, items, begun, PropItems(t.props) + rest, err);
      return;
    }
    err := WriteProps(fdt, t, s, rs, items);
    if err != 0 {
      PartFails(s, fdt[..], fdt[..], rs, items, begun + PropItems(t.props), rest, err);
      assert begun + PropItems(t.props) + rest == Flatten(t);
      return;
    }
    ghost var its := begun + PropItems(t.props);
    PartWriting(s, fdt[..], rs, items, its);
    ghost var s1 := fdt[..];
    err := WriteNodes(fdt, t.kids, rs, items + its);
    PartsJoin(s, s1, fdt[..], rs, items, its, FlattenAll(t.kids), err);
    if err != 0 {
      PartFails(s, fdt[..], fdt[..], rs, items, its + FlattenAll(t.kids), [Close], err);
      assert its + FlattenAll(t.kids) + [Close] == Flatten(t);
      return;
    }
    ghost var s2 := fdt[..];
    its := its + FlattenAll(t.kids);
    PartWriting(s, s2, rs, items, its);
    WritingRoomy(s2, rs, items + its);
    err := EndNode(fdt, rs, items + its);
    StepIsPart(s2, fdt[..], rs, items + its, 4, Close, err);
    PartsJoin(s, s2, fdt[..], rs, items, its, [Close], err);
    assert its + [Close] == Flatten(t);
  }

  /** The properties of the node just begun. */
  method WriteProps(fdt: array<byte>, t: Tree, ghost s: seq<byte>, ghost rs: seq<Reserve>, ghost items: seq<Item>) returns (err: int)
    requires Writable(t) && PartResult(s, fdt[..], rs, items, [Open(t.name)], 0)
    modifies fdt
    ensures PartResult(s, fdt[..], rs, items, [Open(t.name)] + PropItems(t.props), err)
  {
    hide Writing, Space, PartResult, Took, Left, StringPart, Room, PropSpace, WritableAll;
    ghost var begun := [Open(t.name)];
    var i := 0;
    assert begun + PropItems(t.props[..0]) == begun;
    while i < |t.props|
      invariant 0 <= i <= |t.props| && PartResult(s, fdt[..], rs, items, begun + PropItems(t.props[..i]), 0)
    {
      ghost var its := begun + PropItems(t.props[..i]);
      ghost var s1 := fdt[..];
      PartWriting(s, s1, rs, items, its);
      WritingRoomy(s1, rs, items + its);
      err := Property(fdt, t.props[i].key, t.props[i].val, rs, items + its);
      ghost var p := [Item.Property(t.props[i].key, t.props[i].val)];
      PropertyIsPart(s1, fdt[..], rs, items + its, t.props[i].key, t.props[i].val, err);
      PartsJoin(s, s1, fdt[..], rs, items, its, p, err);
      assert begun + PropItems(t.props[..i + 1]) == its + p;
      if err != 0 {
        PartFails(s, fdt[..], fdt[..], rs, items, its + p, PropItems(t.props[i + 1..]), err);
        assert its + p + PropItems(t.props[i + 1..]) == begun + PropItems(t.props);
        return;
      }
      i := i + 1;
    }
    assert t.props[..i] == t.props;
    return 0;
  }

  method WriteNodes(fdt: array<byte>, ts: seq<Tree>, ghost rs: seq<Reserve>, ghost items: seq<Item>) returns (err: int)
    requires Writing(fdt[..], rs, items) && WritableAll(ts)
    modifies fdt
    ensures PartResult(old(fdt[..]), fdt[..], rs, items, FlattenAll(ts), err)
    decreases ts, 0
  {
    hide Writing, Flatten, PartResult, Took, Left, StringPart;
    ghost var s := fdt[..];
    WritingRoomy(s, rs, items);
    if ts == [] {
      NoPart(s, rs, items);
      return 0;
    }
    err := WriteNode(fdt, ts[0], rs, items);
    if err != 0 {
      PartFails(s, fdt[..], fdt[..], rs, items, Flatten(ts[0]), FlattenAll(ts[1..]), err);
      return;
    }
    ghost var s1 := fdt[..];
    PartWriting(s, s1, rs, items, Flatten(ts[0]));
    err := WriteNodes(fdt, ts[1..], rs, items + Flatten(ts[0]));
    PartsJoin(s, s1, fdt[..], rs, items, Flatten(ts[0]), FlattenAll(ts[1..]), err);
  }

  lemma NoPart(s: seq<byte>, rs: seq<Reserve>, items: seq<Item>)
    requires Writing(s, rs, items)
    ensures PartResult(s, s, rs, items, [], 0)
  {
    hide Writing, StringPart;
    WritingRoomy(s, rs, items);
    TookNothing(s);
    assert items + [] == items;
    hide Took;
  }

  /** The size of the blob for a tree: header, the reservations with their terminator, the items with their strings, END. */
  ghost function BlobSize(n: nat, t: Tree): nat
  {
    RSV_START + 16 * n + 16 + Room([], Flatten(t)) + 4
  }

  /** The first item for which the buffer has no room is a property whose name is longer than all before the strings. */
  ghost predicate TreeOverruns(size: nat, n: nat, t: Tree)
  {
    RSV_START + 16 * n + 16 <= size && Overruns([], size, size - RSV_START - 16 * n - 16, Flatten(t))
  }

  /** Names that are, each once and with its terminator, no longer than the buffer do not overrun it. */
  lemma NamesStayInside(size: nat, n: nat, t: Tree)
    requires |Names([], Flatten(t))| <= size
    ensures !TreeOverruns(size, n, t)
  {
    hide Overruns, Names, Flatten;
    OverrunNames([], size, size - RSV_START - 16 * n - 16, Flatten(t));
  }

  /** A property name of 200 bytes in a buffer of 100: after the root is begun the test accepts it. */
  lemma NameOverrunsBuffer(key: seq<byte>)
    requires |key| == 200
    ensures TreeOverruns(100, 0, Node([], [Field(key, [])], [])) && BlobSize(0, Node([], [Field(key, [])], [])) > 100
    ensures var h := Header(SW_MAGIC, 100, 64, 100, RSV_START, LAST_VERSION, FIRST_VERSION, 0, 0, 8);
      NameAccepts(h, |key| + 1) && !Fits(h, |key| + 1) && h.totalSize - h.sizeStrings - |key| - 1 == -101
  {
    var p := Item.Property(key, []);
    var t := Node([], [Field(key, [])], []);
    assert PropItems(t.props) == [p];
    assert Flatten(t) == [Open([]), p, Close] && Flatten(t)[1..] == [p, Close] && Flatten(t)[1..][1..] == [Close];
    assert !Has([], key);
    assert Room([], Flatten(t)[1..]) == ItemRoom([], p) + Room(ItemStrings([], p), [Close]);
  }

  /** Entries that can be told from the terminator. */
  predicate Listable(rs: seq<Reserve>)
  {
    forall i :: 0 <= i < |rs| ==> 0 <= rs[i].address < W32 * W32 && 0 < rs[i].size < W32 * W32
  }

  lemma {:induction false} BeforeTerminator(rs: seq<Reserve>)
    requires Listable(rs)
    ensures UntilZero(rs + [Reserve(0, 0)]) == rs
    decreases |rs|
  {
    if rs != [] {
      assert (rs + [Reserve(0, 0)])[1..] == rs[1..] + [Reserve(0, 0)];
      BeforeTerminator(rs[1..]);
    }
  }

  /** The entries, one call each. */
  method WriteEntries(fdt: array<byte>, size: nat, rs: seq<Reserve>) returns (err: int)
    requires size < LIMIT && Listable(rs) && Started(fdt[..], size, [])
    modifies fdt
    ensures if rs == [] || RSV_START + 16 * |rs| <= size then err == 0 && Started(fdt[..], size, rs) else err == -NOSPACE
  {
    hide Writing, Head, Listable;
    var i := 0;
    assert rs[..0] == [];
    while i < |rs|
      invariant 0 <= i <= |rs| && Started(fdt[..], size, rs[..i]) && (i > 0 ==> RSV_START + 16 * i <= size)
    {
      Listed(rs, i);
      err := AddReservemapEntry(fdt, rs[i].address, rs[i].size, rs[..i]);
      if err != 0 {
        return;
      }
      assert rs[..i] + [Reserve(rs[i].address, rs[i].size)] == rs[..i + 1];
      i := i + 1;
    }
    assert rs[..i] == rs;
    return 0;
  }

  lemma Listed(rs: seq<Reserve>, i: nat)
    requires Listable(rs) && i < |rs|
    ensures 0 <= rs[i].address < W32 * W32 && 0 < rs[i].size < W32 * W32
  {
  }

  /** A new blob with these reservations, nothing else written. */
  ghost predicate Started(s: seq<byte>, size: nat, rs: seq<Reserve>)
  {
    && HEADER_SIZE <= |s| < LIMIT
    && var h := Head(s);
    && h.magic == SW_MAGIC && h.totalSize == size && h.offStruct == RSV_START + 16 * |rs| < LIMIT && h.sizeStruct == 0 && h.sizeStrings == 0
    && (h.offStruct <= size ==> Writing(s, rs, []))
  }

  /** The sequence fdt_create, fdt_add_reservemap_entry for each entry, fdt_finish_reservemap, the calls for one tree,
      fdt_finish: a buffer of BlobSize bytes is exactly enough for a blob that stands for the tree and the reservations. */
  method WriteTree(fdt: array<byte>, size: nat, rs: seq<Reserve>, t: Tree) returns (err: int)
    requires size <= fdt.Length < LIMIT && Listable(rs) && Writable(t)
    modifies fdt
    ensures err == if BlobSize(|rs|, t) <= size then 0 else if TreeOverruns(size, |rs|, t) then OUTSIDE else -NOSPACE
    ensures err == 0 ==> Sound(fdt[..]) && Denotes(fdt[..], t) && Reserved(fdt[..]) == rs
    ensures err == 0 ==> Head(fdt[..]).totalSize == BlobSize(|rs|, t) && Strings(fdt[..]) == Names([], Flatten(t))
  {
    hide Writing, Flatten, Finished, Sound, Denotes, Writable, U32, Space, Took, Closed, PartResult, Room, StringPart, Head, Left, Listable, Started,
         Opening, Names, Strings;
    err := Create(fdt, size);
    if err != 0 {
      return;
    }
    Created(fdt[..], size);
    err := WriteEntries(fdt, size, rs);
    if err != 0 {
      return;
    }
    ghost var s0 := fdt[..];
    EntriesStarted(s0, size, rs);
    err := FinishReservemap(fdt, rs);
    if err != 0 {
      return;
    }
    ghost var all := rs + [Reserve(0, 0)];
    ghost var s1 := fdt[..];
    MapFinished(s0, s1, size, rs);
    err := WriteNode(fdt, t, all, []);
    assert [] + Flatten(t) == Flatten(t);
    PartLeft(s1, fdt[..], all, Flatten(t), err);
    if err != 0 {
      return;
    }
    NoOverrun([], size, Left(s1), Flatten(t));
    ghost var s2 := fdt[..];
    SpaceIsLeft(s2, 4);
    err := Finish(fdt, all, Flatten(t));
    if err != 0 {
      return;
    }
    ClosedSize(s2, fdt[..]);
    assert all[|rs|].size == 0;
    BeforeTerminator(rs);
    FinishedSound(fdt[..], all, Flatten(t));
    WriterRoundTrip(fdt[..], all, t);
  }

  lemma ClosedSize(s: seq<byte>, s': seq<byte>)
    requires Closed(s, s')
    ensures Head(s').totalSize == Head(s).totalSize - Left(s) + 4 && Strings(s') == StringPart(s)
  {
    hide Strings, StringPart, U32;
  }

  lemma Created(s: seq<byte>, size: nat)
    requires HEADER_SIZE <= size <= |s| < LIMIT && Head(s) == NewHeader(size) && (Writing(s, [], []) <==> size >= RSV_START)
    ensures Started(s, size, [])
  {
    hide Writing, Head;
  }

  lemma EntriesStarted(s: seq<byte>, size: nat, rs: seq<Reserve>)
    requires Started(s, size, rs)
    ensures Opening(s, rs) && HEADER_SIZE <= |s|
    ensures Head(s).magic == SW_MAGIC && Head(s).sizeStruct == 0 && Head(s).offStruct == RSV_START + 16 * |rs| && Head(s).totalSize == size
    ensures Head(s).sizeStrings == 0
  {
    hide Writing, Head;
  }

  lemma MapFinished(s: seq<byte>, s': seq<byte>, size: nat, rs: seq<Reserve>)
    requires Started(s, size, rs) && HEADER_SIZE <= |s'| && RSV_START + 16 * |rs| + 16 < W32
    requires Head(s') == Head(s).(offStruct := Head(s).offStruct + 16)
    ensures Left(s') == size - RSV_START - 16 * |rs| - 16 && StringPart(s') == [] && Head(s').totalSize == size
  {
    hide Head, Writing;
  }

  lemma PartLeft(s: seq<byte>, s': seq<byte>, rs: seq<Reserve>, its: seq<Item>, err: int)
    requires PartResult(s, s', rs, [], its, err)
    ensures HEADER_SIZE <= |s| && err == Answer(StringPart(s), Head(s).totalSize, Left(s), its)
    ensures err == 0 ==> HEADER_SIZE <= |s'| && Writing(s', rs, [] + its) && Left(s') == Left(s) - Room(StringPart(s), its)
    ensures err == 0 ==> Head(s').totalSize == Head(s).totalSize && StringPart(s') == Names(StringPart(s), its)
  {
    hide Writing, Room, StringPart, Left, Names;
  }

  lemma FinishedSound(s: seq<byte>, rs: seq<Reserve>, items: seq<Item>)
    requires Finished(s, rs, items) && HasTerminator(rs)
    ensures Sound(s) && Reserved(s) == UntilZero(rs)
  {
  }
}
