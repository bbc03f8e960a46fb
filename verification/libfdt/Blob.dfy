/** The header of a blob, its blocks (sections 5.2 to 5.5 of the Devicetree Specification) and the
    tree and memory reservations it stands for. */
module Blob {

  import opened Bytes
  import opened Tokens
  import opened Trees

  const MAGIC: Word := 0xd00d_feed
  const SW_MAGIC: Word := 0x2ff2_0112
  const FIRST_VERSION := 16
  const LAST_VERSION := 17
  const HEADER_SIZE: nat := 40
  const LIMIT: int := 0x8000_0000

  datatype Header = Header(magic: Word, totalSize: Word, offStruct: Word, offStrings: Word, offRsv: Word, version: Word,
                           lastComp: Word, bootCpu: Word, sizeStrings: Word, sizeStruct: Word)

  function Head(s: seq<byte>): Header
    requires |s| >= HEADER_SIZE
  {
    Header(U32(s, 0), U32(s, 4), U32(s, 8), U32(s, 12), U32(s, 16), U32(s, 20), U32(s, 24), U32(s, 28), U32(s, 32), U32(s, 36))
  }

  lemma HeadOfPrefix(s: seq<byte>, t: seq<byte>)
    requires |s| >= HEADER_SIZE && |t| >= HEADER_SIZE && s[..HEADER_SIZE] == t[..HEADER_SIZE]
    ensures Head(s) == Head(t)
  {
    forall o: nat | o + 4 <= HEADER_SIZE ensures U32(s, o) == U32(t, o) {
      assert s[..HEADER_SIZE][o..o + 4] == s[o..o + 4] && t[..HEADER_SIZE][o..o + 4] == t[o..o + 4];
      SameWord(s, t, o, o);
    }
    hide U32;
  }

  /** Writing in the header leaves everything behind it. */
  lemma TailOfPut(s: seq<byte>, o: nat, v: seq<byte>)
    requires o + |v| <= HEADER_SIZE <= |s|
    ensures Put(s, o, v)[HEADER_SIZE..] == s[HEADER_SIZE..]
  {
  }

  /** Writing the k-th header word changes that field only. */
  lemma HeadPut(s: seq<byte>, k: nat, v: Word)
    requires |s| >= HEADER_SIZE && k < 10
    ensures var h, h' := Head(s), Head(Put(s, 4 * k, Be32(v)));
      h' == match k
        case 0 => h.(magic := v)
        case 1 => h.(totalSize := v)
        case 2 => h.(offStruct := v)
        case 3 => h.(offStrings := v)
        case 4 => h.(offRsv := v)
        case 5 => h.(version := v)
        case 6 => h.(lastComp := v)
        case 7 => h.(bootCpu := v)
        case 8 => h.(sizeStrings := v)
        case _ => h.(sizeStruct := v)
  {
    WordReadBack(v);
    forall j: nat | j < 10 ensures U32(Put(s, 4 * k, Be32(v)), 4 * j) == if j == k then v else U32(s, 4 * j) {
      PutWord(s, 4 * k, Be32(v), 4 * j);
    }
    hide U32, Put, Be32;
    assert forall j: nat :: j < 10 ==> U32(Put(s, 4 * k, Be32(v)), 4 * j) == if j == k then v else U32(s, 4 * j);
  }

  // ----- the memory reservation block

  datatype Reserve = Reserve(address: int, size: int)

  function U64(s: seq<byte>, o: nat): int
    requires o + 8 <= |s|
  {
    U32(s, o) as int * W32 + U32(s, o + 4) as int
  }

  /** How many entries come before the first of size 0; the whole table if there is none. */
  function RsvCount(s: seq<byte>): (n: nat)
    ensures 16 * n <= |s|
    decreases |s|
  {
    if |s| < 16 || U64(s, 8) == 0 then 0 else 1 + RsvCount(s[16..])
  }

  function Entries(s: seq<byte>, n: nat): (r: seq<Reserve>)
    requires 16 * n <= |s|
    ensures |r| == n
  {
    if n == 0 then [] else [Reserve(U64(s, 0), U64(s, 8))] + Entries(s[16..], n - 1)
  }

  /** s starts with a terminated reservation table. */
  predicate Terminated(s: seq<byte>)
  {
    16 * RsvCount(s) + 16 <= |s|
  }

  /** The table depends on its own bytes only. */
  lemma {:induction false} RsvLocal(s: seq<byte>, t: seq<byte>)
    requires Terminated(s) && 16 * RsvCount(s) + 16 <= |t| && s[..16 * RsvCount(s) + 16] == t[..16 * RsvCount(s) + 16]
    ensures Terminated(t) && RsvCount(t) == RsvCount(s) && Entries(t, RsvCount(t)) == Entries(s, RsvCount(s))
    decreases |s|
  {
    var n := 16 * RsvCount(s) + 16;
    forall o: nat | o + 4 <= 16 ensures U32(s, o) == U32(t, o) {
      assert s[..n][o..o + 4] == s[o..o + 4] && t[..n][o..o + 4] == t[o..o + 4];
      SameWord(s, t, o, o);
    }
    hide U32;
    if RsvCount(s) > 0 {
      assert s[16..][..n - 16] == s[..n][16..] && t[16..][..n - 16] == t[..n][16..];
      RsvLocal(s[16..], t[16..]);
    }
  }

  // ----- blocks

  /** A blob whose structure region can be read. */
  ghost predicate Readable(s: seq<byte>)
  {
    && HEADER_SIZE <= |s| < LIMIT && Head(s).offStruct <= Head(s).totalSize <= |s|
    && (Head(s).version >= 17 ==> Head(s).offStruct + Head(s).sizeStruct <= Head(s).totalSize)
  }

  /** The bytes fdt_offset_ptr lets a reader of the structure block see. */
  ghost function Region(s: seq<byte>): seq<byte>
  {
    if !Readable(s) then []
    else
      var h := Head(s);
      if h.version >= 17 then s[h.offStruct..h.offStruct + h.sizeStruct] else s[h.offStruct..h.totalSize]
  }

  /** How much of the region is the structure block: all of it from version 17 on, else up to END. */
  ghost function StructLen(s: seq<byte>): (n: nat)
    requires Readable(s)
    requires Streams(Region(s))
    ensures n <= |Region(s)|
  {
    if Head(s).version >= 17 then Head(s).sizeStruct else StreamLen(Region(s))
  }

  function RsvLen(s: seq<byte>): nat
    requires |s| >= HEADER_SIZE && Head(s).offRsv <= Head(s).totalSize <= |s|
  {
    16 * RsvCount(s[Head(s).offRsv..Head(s).totalSize]) + 16
  }

  predicate Apart(i: int, m: int, j: int, n: int)
  {
    i + m <= j || j + n <= i
  }

  /** A header fdt_check_header accepts, and three blocks that are readable, lie inside the blob and
      do not overlap. */
  ghost predicate Sound(s: seq<byte>)
  {
    && Readable(s)
    && var h := Head(s);
    && h.magic == MAGIC && h.version >= FIRST_VERSION && h.lastComp <= LAST_VERSION
    && HEADER_SIZE <= h.offRsv <= h.totalSize && Terminated(s[h.offRsv..h.totalSize])
    && HEADER_SIZE <= h.offStruct
    && Streams(Region(s))
    && HEADER_SIZE <= h.offStrings && h.offStrings + h.sizeStrings <= h.totalSize
    && Apart(h.offRsv, RsvLen(s), h.offStruct, StructLen(s))
    && Apart(h.offRsv, RsvLen(s), h.offStrings, h.sizeStrings)
    && Apart(h.offStruct, StructLen(s), h.offStrings, h.sizeStrings)
  }

  lemma HeaderThere(s: seq<byte>)
    requires Sound(s)
    ensures HEADER_SIZE <= |s| < LIMIT
  {
  }

  function Strings(s: seq<byte>): seq<byte>
  {
    if |s| < HEADER_SIZE || Head(s).offStrings + Head(s).sizeStrings > |s| then []
    else s[Head(s).offStrings..Head(s).offStrings + Head(s).sizeStrings]
  }

  ghost function Reserved(s: seq<byte>): seq<Reserve>
    requires Sound(s)
  {
    var t := s[Head(s).offRsv..Head(s).totalSize];
    Entries(t, RsvCount(t))
  }

  /** The blob s stands for the tree t. */
  ghost predicate Denotes(s: seq<byte>, t: Tree)
  {
    Sound(s) && HasAllItems(Region(s), Strings(s)) && AllItems(Region(s), Strings(s)) == Flatten(t)
  }

  /** A blob stands for at most one tree. */
  lemma DenotesOne(s: seq<byte>, t: Tree, u: Tree)
    requires Denotes(s, t) && Denotes(s, u)
    ensures t == u
  {
    assert Flatten(t) + [] == Flatten(t) && Flatten(u) + [] == Flatten(u);
    FlattenInjective(t, u, [], []);
  }
}
