/** ff.c: the layout of a volume as find_volume takes it from a boot sector, and the sectors of clusters and FAT entries. */
module FatGeometry {

  import opened Bytes
  import Words

  const SS: nat := 512
  const MIN_FAT16: nat := 4086
  const MIN_FAT32: nat := 65526

  datatype Kind = Fat12 | Fat16 | Fat32

  datatype Geometry = Geometry(kind: Kind, nFats: Word, csize: Word, nRootdir: Word, nFatent: Word, fsize: Word,
                               volbase: Word, fatbase: Word, dirbase: Word, database: Word)

  // ----- little-endian words

  function LdWord(s: seq<byte>, o: nat): (v: Word)
    requires o + 2 <= |s|
    ensures v < 0x1_0000
  {
    s[o] as int + 256 * s[o + 1] as int
  }

  function LdDword(s: seq<byte>, o: nat): (v: Word)
    requires o + 4 <= |s|
  {
    s[o] as int + 0x100 * s[o + 1] as int + 0x1_0000 * s[o + 2] as int + 0x100_0000 * s[o + 3] as int
  }

  /** 32-bit arithmetic. */
  function Wrap(x: nat): Word
  {
    x % W32
  }

  // ----- powers of two

  predicate IsPower(c: nat)
  {
    c == 1 || (c > 0 && c % 2 == 0 && IsPower(c / 2))
  }

  /** x & (x - 1) tells powers of two. */
  lemma {:induction false} PowerTest(c: nat)
    requires c > 0
    ensures Words.And(c, c - 1) == 0 <==> IsPower(c)
  {
    if c % 2 == 1 {
      SelfAnd(c / 2);
    } else {
      PowerTest(c / 2);
      assert Words.And(c, c - 1) == 2 * Words.And(c / 2, c / 2 - 1);
    }
  }

  lemma {:induction false} SelfAnd(v: nat)
    ensures Words.And(v, v) == v
  {
    if v > 0 { SelfAnd(v / 2); }
  }

  /** The cluster sizes of a volume. */
  predicate ClusterSize(c: nat)
  {
    c == 1 || c == 2 || c == 4 || c == 8 || c == 16 || c == 32 || c == 64 || c == 128
  }

  lemma ClusterSizes(c: byte)
    requires c > 0 && Words.And(c, c - 1) == 0
    ensures ClusterSize(c)
  {
    PowerTest(c);
    SmallPower(c, 8);
  }

  lemma {:induction false} SmallPower(c: nat, k: nat)
    requires IsPower(c) && k <= 8 && c < Words.Pow2(k)
    ensures ClusterSize(c) && (c == 128 ==> k == 8)
  {
    assert Words.Pow2(8) == 256 by { PowersToEight(); }
    PowersToEight();
    if c > 1 { SmallPower(c / 2, k - 1); }
  }

  lemma PowersToEight()
    ensures Words.Pow2(0) == 1 && Words.Pow2(1) == 2 && Words.Pow2(2) == 4 && Words.Pow2(3) == 8 && Words.Pow2(4) == 16
    ensures Words.Pow2(5) == 32 && Words.Pow2(6) == 64 && Words.Pow2(7) == 128 && Words.Pow2(8) == 256
  {
    assert Words.Pow2(4) == 2 * Words.Pow2(3) && Words.Pow2(6) == 2 * Words.Pow2(5) && Words.Pow2(8) == 2 * Words.Pow2(7);
  }

  /** x & (c - 1) for a cluster size is the remainder. */
  lemma {:induction false} MaskIsMod(x: nat, c: nat)
    requires ClusterSize(c)
    ensures Words.And(x, c - 1) == x % c
    decreases c
  {
    if c > 1 {
      MaskIsMod(x / 2, c / 2);
      MaskStep(x, c);
      RemainderStep(x, c);
    }
  }

  lemma MaskStep(x: nat, c: nat)
    requires c >= 2 && c % 2 == 0
    ensures Words.And(x, c - 1) == x % 2 + 2 * Words.And(x / 2, c / 2 - 1)
  {
    hide Words.And;
    OddMask(x, c / 2 - 1);
  }

  lemma OddMask(x: nat, m: nat)
    ensures Words.And(x, 2 * m + 1) == x % 2 + 2 * Words.And(x / 2, m)
  {
    assert (2 * m + 1) / 2 == m && (2 * m + 1) % 2 == 1;
  }

  lemma RemainderStep(x: nat, c: nat)
    requires ClusterSize(c) && c > 1
    ensures x % c == x % 2 + 2 * (x / 2 % (c / 2))
  {
    assert c == 2 * (c / 2);
    hide ClusterSize;
    RemainderOfDouble(x, c / 2);
  }

  lemma RemainderOfDouble(x: nat, d: nat)
    requires d > 0
    ensures x % (2 * d) == x % 2 + 2 * (x / 2 % d)
  {
    var q, r := x / 2 / d, x / 2 % d;
    assert x / 2 == d * q + r;
    assert 2 * (d * q) == 2 * d * q;
    RemainderIs(x, 2 * d, q, x % 2 + 2 * r);
  }

  lemma RemainderIs(x: nat, c: nat, q: nat, r: nat)
    requires x == c * q + r && r < c
    ensures x % c == r
  {
    var p := x / c;
    assert c * (p - q) == c * p - c * q == r - x % c;
    Multiples(c, p - q);
  }

  lemma Multiples(c: nat, k: int)
    ensures k >= 1 ==> c * k >= c
    ensures k <= -1 ==> c * k <= 0 - c
  {
    if k >= 1 { assert c * (k - 1) >= 0; } else if k <= -1 { assert c * (-1 - k) >= 0; }
  }

  // ----- the BIOS parameter block

  datatype Bpb = Bpb(bytesPerSector: Word, fatSize: Word, numFats: byte, csize: byte, rootEntries: Word, totalSectors: Word,
                     reserved: Word, version32: Word, rootCluster: Word)

  function ReadBpb(b: seq<byte>): Bpb
    requires |b| == SS
  {
    var f16, t16 := LdWord(b, 22), LdWord(b, 19);
    Bpb(LdWord(b, 11), if f16 == 0 then LdDword(b, 36) else f16, b[16], b[13], LdWord(b, 17),
        if t16 == 0 then LdDword(b, 32) else t16, LdWord(b, 14), LdWord(b, 42), LdDword(b, 44))
  }

  /** check_fs: the signature at the end and the letters "FAT" at one of their two places. */
  predicate IsFatSector(b: seq<byte>)
    requires |b| == SS
  {
    LdWord(b, 510) == 0xAA55 && (LdDword(b, 54) % 0x100_0000 == 0x54_4146 || LdDword(b, 82) % 0x100_0000 == 0x54_4146)
  }

  /** What find_volume makes of the sector b at bsect. */
  function MountSector(b: seq<byte>, bsect: Word): Option<Geometry>
    requires |b| == SS
  {
    if IsFatSector(b) then Mount(ReadBpb(b), bsect) else None
  }

  function FatArea(p: Bpb): Word
  {
    Wrap(p.fatSize * (p.numFats as int))
  }

  /** Reserved sectors, FATs and root directory. */
  function SystemSectors(p: Bpb): Word
  {
    Wrap(p.reserved + FatArea(p) + p.rootEntries / 16)
  }

  function KindOf(nclst: nat): Kind
  {
    if nclst >= MIN_FAT32 then Fat32 else if nclst >= MIN_FAT16 then Fat16 else Fat12
  }

  /** The bytes a FAT of n entries needs. */
  function NeededBytes(k: Kind, n: nat): nat
  {
    match k
    case Fat32 => Wrap(n * 4)
    case Fat16 => Wrap(n * 2)
    case Fat12 => Wrap(Wrap(n * 3) / 2 + n % 2)
  }

  /** The checks of find_volume on the parameter block, up to the number of clusters. */
  predicate Sane(p: Bpb)
  {
    && p.bytesPerSector == SS
    && (p.numFats == 1 || p.numFats == 2)
    && p.csize != 0 && Words.And(p.csize, p.csize - 1) == 0
    && p.rootEntries % 16 == 0
    && p.reserved != 0
    && p.totalSectors >= SystemSectors(p)
  }

  function ClusterCount(p: Bpb): nat
    requires Sane(p)
  {
    hide SystemSectors, Words.And;
    (p.totalSectors - SystemSectors(p)) / p.csize as int
  }

  /** The checks that depend on the number of clusters. */
  predicate Suits(p: Bpb, nclst: nat)
  {
    var kind := KindOf(nclst);
    && nclst != 0
    && (if kind == Fat32 then p.version32 == 0 && p.rootEntries == 0 else p.rootEntries != 0)
    && p.fatSize >= Wrap(NeededBytes(kind, Wrap(nclst + 2)) + (SS - 1)) / SS
  }

  function Layout(p: Bpb, bsect: Word, nclst: nat): Geometry
  {
    var kind := KindOf(nclst);
    var fatbase := Wrap(bsect + p.reserved);
    Geometry(kind, p.numFats, p.csize, p.rootEntries, Wrap(nclst + 2), p.fatSize, bsect, fatbase,
             if kind == Fat32 then p.rootCluster else Wrap(fatbase + FatArea(p)), Wrap(bsect + SystemSectors(p)))
  }

  /** The tail of find_volume for a FAT boot sector at bsect: FR_NO_FILESYSTEM, or the volume's layout. */
  function Mount(p: Bpb, bsect: Word): Option<Geometry>
  {
    if !Sane(p) then None
    else if !Suits(p, ClusterCount(p)) then None
    else Some(Layout(p, bsect, ClusterCount(p)))
  }

  /** The most FAT32 entries whose bytes, rounded up to sectors, are counted without wrapping. */
  const MAX_ENTRIES: nat := 0x3FFF_FF80

  /** The sums of the parameter block fit in 32 bits. */
  predicate NoWrap(p: Bpb, bsect: Word)
  {
    && p.fatSize * (p.numFats as int) < W32
    && p.reserved + p.fatSize * (p.numFats as int) + p.rootEntries / 16 < W32
    && bsect + p.totalSectors < W32
  }

  /** The layout every accepted volume has. */
  predicate Laid(g: Geometry, end: nat)
  {
    LaidSizes(g) && LaidOrder(g, end) && FatBytes(g.kind, g.nFatent) <= g.fsize * SS
  }

  predicate LaidSizes(g: Geometry)
  {
    && 1 <= g.nFats <= 2 && ClusterSize(g.csize) && g.nRootdir % 16 == 0
    && 3 <= g.nFatent <= MAX_ENTRIES && 1 <= g.fsize
    && (g.kind == Fat12 ==> g.nFatent <= 0xFF7) && (g.kind == Fat16 ==> g.nFatent <= 0xFFF7)
  }

  /** The sectors of all FAT copies. */
  function FatSectors(g: Geometry): nat
  {
    g.fsize * g.nFats
  }

  function Scale(i: nat, k: nat): nat
  {
    i * k
  }

  /** The sectors of all clusters. */
  function DataSectors(g: Geometry): nat
    requires g.nFatent >= 2
  {
    Scale(g.nFatent - 2, g.csize)
  }

  /** Reserved sectors, FATs, root directory and clusters, in this order, all before end. */
  predicate LaidOrder(g: Geometry, end: nat)
  {
    && g.volbase < g.fatbase && g.fatbase + FatSectors(g) + g.nRootdir / 16 == g.database
    && g.nFatent >= 2 && g.database + DataSectors(g) <= end < W32
    && (if g.kind == Fat32 then g.nRootdir == 0 else g.dirbase == g.fatbase + FatSectors(g) && g.nRootdir > 0)
  }

  /** The bytes of a FAT of n entries. */
  function FatBytes(k: Kind, n: nat): nat
  {
    match k
    case Fat32 => n * 4
    case Fat16 => n * 2
    case Fat12 => n * 3 / 2 + n % 2
  }

  /** Every volume find_volume accepts, unless a sum wraps or it has too many clusters, is laid out in order inside its
      sectors, with room in its FAT for all its entries. */
  lemma MountIsLaid(p: Bpb, bsect: Word)
    requires Mount(p, bsect).Some? && NoWrap(p, bsect) && ClusterCount(p) + 2 <= MAX_ENTRIES
    ensures Laid(Mount(p, bsect).value, bsect + p.totalSectors)
  {
    hide Sane, Suits, Layout, ClusterCount, FatBytes, LaidOrder, LaidSizes;
    var n := ClusterCount(p);
    CountBounds(p, bsect);
    FatSuffices(p, n);
    LayoutSizes(p, bsect, n);
    LayoutOrder(p, bsect, n);
    LayoutKind(p, bsect, n);
  }

  lemma Fits(x: nat)
    ensures x < W32 ==> Wrap(x) == x
  {
  }

  /** The clusters fit behind the system sectors. */
  lemma CountBounds(p: Bpb, bsect: Word)
    requires Sane(p) && NoWrap(p, bsect)
    ensures ClusterSize(p.csize) && SystemSectors(p) <= p.totalSectors
    ensures ClusterCount(p) * p.csize as int <= p.totalSectors - SystemSectors(p) && ClusterCount(p) <= p.totalSectors - SystemSectors(p)
    ensures SystemSectors(p) == p.reserved + p.fatSize * (p.numFats as int) + p.rootEntries / 16 && FatArea(p) == p.fatSize * (p.numFats as int)
    ensures p.reserved >= 1 && (p.numFats == 1 || p.numFats == 2)
  {
    hide Words.And, ClusterSize;
    SumsFit(p);
    ClusterSizes(p.csize);
    hide SystemSectors, FatArea;
    Division(p.totalSectors - SystemSectors(p), p.csize);
  }

  lemma FatSuffices(p: Bpb, n: nat)
    requires Suits(p, n) && n + 2 <= MAX_ENTRIES
    ensures n >= 1 && p.fatSize >= 1 && FatBytes(KindOf(n), n + 2) <= p.fatSize * SS
    ensures if KindOf(n) == Fat32 then p.rootEntries == 0 else p.rootEntries > 0
  {
    hide NeededBytes, FatBytes, KindOf;
    EnoughFat(KindOf(n), n + 2, p.fatSize);
  }

  lemma LayoutSizes(p: Bpb, bsect: Word, n: nat)
    requires ClusterSize(p.csize) && (p.numFats == 1 || p.numFats == 2) && 1 <= n && n + 2 <= MAX_ENTRIES && p.fatSize >= 1
    requires Sane(p)
    ensures LaidSizes(Layout(p, bsect, n))
  {
    hide ClusterSize, FatArea, SystemSectors, Words.And;
  }

  lemma LayoutKind(p: Bpb, bsect: Word, n: nat)
    requires n + 2 <= MAX_ENTRIES
    ensures var g := Layout(p, bsect, n); g.kind == KindOf(n) && g.nFatent == n + 2 && g.fsize == p.fatSize
  {
  }

  lemma LayoutOrder(p: Bpb, bsect: Word, n: nat)
    requires NoWrap(p, bsect) && n + 2 <= MAX_ENTRIES && n * p.csize as int <= p.totalSectors - SystemSectors(p)
    requires SystemSectors(p) == p.reserved + p.fatSize * (p.numFats as int) + p.rootEntries / 16 && FatArea(p) == p.fatSize * (p.numFats as int)
    requires p.reserved >= 1 && if KindOf(n) == Fat32 then p.rootEntries == 0 else p.rootEntries > 0
    ensures LaidOrder(Layout(p, bsect, n), bsect + p.totalSectors)
  {
    hide FatArea, SystemSectors, Wrap;
    var fats, room := p.fatSize * (p.numFats as int), n * p.csize as int;
    Fits(bsect + p.reserved); Fits(bsect + SystemSectors(p)); Fits(n + 2); Fits(bsect + p.reserved + fats);
    var g := Layout(p, bsect, n);
    assert FatSectors(g) == fats;
    assert DataSectors(g) == room;
    hide FatSectors, DataSectors;
  }

  lemma SumsFit(p: Bpb)
    requires p.fatSize * (p.numFats as int) < W32 && p.reserved + p.fatSize * (p.numFats as int) + p.rootEntries / 16 < W32
    ensures FatArea(p) == p.fatSize * (p.numFats as int)
    ensures SystemSectors(p) == p.reserved + p.fatSize * (p.numFats as int) + p.rootEntries / 16
  {
  }

  lemma Division(x: nat, d: nat)
    requires ClusterSize(d)
    ensures x / d * d <= x && x / d <= x
  {
    if d == 1 || d == 2 || d == 4 || d == 8 { return; }
  }

  lemma EnoughFat(k: Kind, n: nat, fsize: Word)
    requires 3 <= n <= MAX_ENTRIES && fsize >= Wrap(NeededBytes(k, n) + (SS - 1)) / SS
    ensures FatBytes(k, n) <= fsize * SS && fsize >= 1
  {
    NeededIsAll(k, n);
    hide NeededBytes, FatBytes;
  }

  lemma NeededIsAll(k: Kind, n: nat)
    requires 3 <= n <= MAX_ENTRIES
    ensures NeededBytes(k, n) == FatBytes(k, n) && FatBytes(k, n) + (SS - 1) < W32
  {
  }

  // ----- where everything is, byte by byte of the boot sector

  /** Two and four bytes, the lowest first. */
  function Pair(b: seq<byte>, o: nat): nat
    requires o + 2 <= |b|
  {
    256 * (b[o + 1] as int) + b[o] as int
  }

  function Quad(b: seq<byte>, o: nat): nat
    requires o + 4 <= |b|
  {
    Pair(b, o) + 0x1_0000 * Pair(b, o + 2)
  }

  /** A boot sector whose sums do not wrap is accepted with the FATs behind the reserved sectors, the root directory of FAT12 and
      FAT16 behind them, and the clusters behind that, all counted from the boot sector; every number is that of its field, the
      16-bit one of the FAT's size and of the sectors if it is not 0, and there are as many clusters as fit. */
  lemma MountReads(b: seq<byte>, bsect: Word)
    requires |b| == SS && MountSector(b, bsect).Some? && NoWrap(ReadBpb(b), bsect)
    ensures var g := MountSector(b, bsect).value; var sectors := if Pair(b, 19) != 0 then Pair(b, 19) else Quad(b, 32);
      && g.csize == b[13] as int > 0 && g.nFats == b[16] as int && g.nRootdir == Pair(b, 17)
      && g.fsize == (if Pair(b, 22) != 0 then Pair(b, 22) else Quad(b, 36))
      && g.volbase == bsect && g.fatbase == bsect + Pair(b, 14) && g.database == g.fatbase + g.nFats * g.fsize + g.nRootdir / 16
      && (g.kind == Fat32 ==> g.dirbase == Quad(b, 44)) && (g.kind != Fat32 ==> g.dirbase == g.fatbase + g.nFats * g.fsize)
      && Fullest(g, bsect + sectors)
      && Pair(b, 11) == 512 && Pair(b, 510) == 0xAA55
  {
    var p, n := ReadBpb(b), ClusterCount(ReadBpb(b));
    PairsRead(b);
    hide LdWord, LdDword, Pair, Quad, IsFatSector, ClusterCount, FatBytes, Sane, Suits, Wrap;
    CountBounds(p, bsect);
    PlacesOf(p, bsect, n);
    CountOf(p, bsect);
    SaneFields(p);
  }

  /** All the sectors up to end but fewer than a cluster's are in clusters, and the kind of the FAT is told by their number. */
  ghost predicate Fullest(g: Geometry, end: nat)
  {
    exists n: nat :: n >= 1 && g.nFatent == (n + 2) % W32 && g.database + n * g.csize <= end < g.database + (n + 1) * g.csize
                     && g.kind == if n >= 65526 then Fat32 else if n >= 4086 then Fat16 else Fat12
  }

  lemma PairsRead(b: seq<byte>)
    requires |b| == SS
    ensures forall o: nat :: o + 2 <= SS ==> LdWord(b, o) == Pair(b, o)
    ensures forall o: nat :: o + 4 <= SS ==> LdDword(b, o) == Quad(b, o)
  {
  }

  lemma SaneFields(p: Bpb)
    requires Sane(p)
    ensures p.bytesPerSector == SS && p.csize > 0
  {
  }

  lemma PlacesOf(p: Bpb, bsect: Word, n: nat)
    requires NoWrap(p, bsect) && SystemSectors(p) <= p.totalSectors
    requires SystemSectors(p) == p.reserved + p.fatSize * (p.numFats as int) + p.rootEntries / 16 && FatArea(p) == p.fatSize * (p.numFats as int)
    ensures var g := Layout(p, bsect, n);
      && g.fatbase == bsect + p.reserved && g.database == g.fatbase + g.nFats * g.fsize + g.nRootdir / 16
      && (g.kind == Fat32 ==> g.dirbase == p.rootCluster) && (g.kind != Fat32 ==> g.dirbase == g.fatbase + g.nFats * g.fsize)
      && g.kind == KindOf(n) && g.nFatent == Wrap(n + 2) && g.csize == p.csize as int && g.nFats == p.numFats as int
      && g.fsize == p.fatSize && g.nRootdir == p.rootEntries && g.volbase == bsect
  {
    hide FatArea, SystemSectors, Wrap;
    var fats := p.fatSize * (p.numFats as int);
    assert p.numFats as int * p.fatSize == fats;
    Fits(bsect + p.reserved); Fits(bsect + SystemSectors(p)); Fits(bsect + p.reserved + fats);
  }

  /** The clusters are all that fit. */
  lemma CountOf(p: Bpb, bsect: Word)
    requires Mount(p, bsect).Some? && NoWrap(p, bsect)
    ensures Fullest(Mount(p, bsect).value, bsect + p.totalSectors)
  {
    hide FatArea, SystemSectors, ClusterSize, FatBytes, NeededBytes, Words.And;
    CountBounds(p, bsect);
    var n, c, free := ClusterCount(p), p.csize as int, p.totalSectors - SystemSectors(p);
    PlacesOf(p, bsect, n);
    Quotient(free, c, n);
    var g := Mount(p, bsect).value;
    assert g.database + n * g.csize <= bsect + p.totalSectors < g.database + (n + 1) * g.csize;
  }

  lemma Quotient(x: nat, c: nat, n: nat)
    requires c > 0 && n == x / c
    ensures n * c <= x < (n + 1) * c
  {
    assert x == c * n + x % c;
    assert (n + 1) * c == n * c + c;
  }

  /** What a boot sector must say: 512-byte sectors, one or two FATs, a power of two of sectors a cluster, the root directory in
      whole sectors and only on FAT12 and FAT16, at least one cluster, and a FAT with an entry for each. */
  predicate Proper(kind: Kind, n: nat, bytes: nat, fats: nat, csize: nat, root: nat, reserved: nat, version: nat, fatSize: nat)
  {
    && bytes == 512 && (fats == 1 || fats == 2) && ClusterSize(csize) && root % 16 == 0 && reserved != 0 && n >= 1
    && (if kind == Fat32 then version == 0 && root == 0 else root != 0)
    && FatBytes(kind, n + 2) <= 512 * fatSize
  }

  /** The FAT's size, the sectors, and how many of them come before the clusters, by the fields of a boot sector. */
  function FatSizeField(b: seq<byte>): nat
    requires |b| == SS
  {
    if Pair(b, 22) != 0 then Pair(b, 22) else Quad(b, 36)
  }

  function SectorsField(b: seq<byte>): nat
    requires |b| == SS
  {
    if Pair(b, 19) != 0 then Pair(b, 19) else Quad(b, 32)
  }

  function SystemFields(b: seq<byte>): int
    requires |b| == SS
  {
    Pair(b, 14) + FatSizeField(b) * (b[16] as int) + Pair(b, 17) / 16
  }

  predicate Lettered(b: seq<byte>)
    requires |b| == SS
  {
    Pair(b, 510) == 0xAA55 && (b[54..57] == [0x46, 0x41, 0x54] || b[82..85] == [0x46, 0x41, 0x54])
  }

  function QuotientOf(x: nat, c: nat): nat
  {
    if c == 0 then 0 else x / c
  }

  /** Exactly such sectors are accepted, of those whose sums do not wrap and that do not have too many clusters. */
  lemma MountExactly(b: seq<byte>, bsect: Word)
    requires |b| == SS && NoWrap(ReadBpb(b), bsect)
    requires QuotientOf(SectorsField(b), b[13] as int) + 2 <= MAX_ENTRIES
    ensures MountSector(b, bsect).Some? <==> Lettered(b) && SystemFields(b) <= SectorsField(b) && ProperSector(b)
  {
    hide LdWord, LdDword, Pair, Quad, FatBytes, Mount, ReadBpb, Proper, IsFatSector, Lettered, NoWrap;
    FieldsRead(b);
    SignsRead(b);
    AcceptedExactly(ReadBpb(b), bsect);
  }

  /** What that sector says is proper. */
  predicate ProperSector(b: seq<byte>)
    requires |b| == SS && SystemFields(b) <= SectorsField(b)
  {
    var n := QuotientOf(SectorsField(b) - SystemFields(b), b[13] as int);
    Proper(KindOf(n), n, Pair(b, 11), b[16] as int, b[13] as int, Pair(b, 17), Pair(b, 14), Pair(b, 42), FatSizeField(b))
  }

  lemma FieldsRead(b: seq<byte>)
    requires |b| == SS
    ensures var p := ReadBpb(b);
      && p.bytesPerSector == Pair(b, 11) && p.fatSize == FatSizeField(b) && p.numFats == b[16] && p.csize == b[13]
      && p.rootEntries == Pair(b, 17) && p.totalSectors == SectorsField(b) && p.reserved == Pair(b, 14) && p.version32 == Pair(b, 42)
  {
    PairsRead(b);
    hide LdWord, LdDword, Pair, Quad;
  }

  lemma SignsRead(b: seq<byte>)
    requires |b| == SS
    ensures IsFatSector(b) <==> Lettered(b)
  {
    PairsRead(b);
    Letters(b, 54); Letters(b, 82);
    hide LdWord, LdDword, Pair, Quad;
  }

  /** The same for the parameters read. */
  lemma AcceptedExactly(p: Bpb, bsect: Word)
    requires NoWrap(p, bsect) && QuotientOf(p.totalSectors, p.csize as int) + 2 <= MAX_ENTRIES
    ensures var system := p.reserved + p.fatSize * (p.numFats as int) + p.rootEntries / 16;
      var n := QuotientOf(if p.totalSectors >= system then p.totalSectors - system else 0, p.csize as int);
      Mount(p, bsect).Some? <==>
        && system <= p.totalSectors
        && Proper(KindOf(n), n, p.bytesPerSector, p.numFats as int, p.csize as int, p.rootEntries, p.reserved, p.version32, p.fatSize)
  {
    hide FatBytes, Wrap, Layout, Words.And, ClusterSize, SystemSectors, NeededBytes, KindOf;
    SumsFit(p);
    if p.csize > 0 {
      TwoPowers(p.csize);
      var system := p.reserved + p.fatSize * (p.numFats as int) + p.rootEntries / 16;
      if system <= p.totalSectors {
        var n := (p.totalSectors - system) / p.csize as int;
        SmallerQuotient(p.totalSectors - system, p.totalSectors, p.csize as int);
        RoomTest(p, n);
      }
    } else {
      assert !ClusterSize(0) by { NoneIsZero(); }
    }
  }

  lemma NoneIsZero()
    ensures !ClusterSize(0)
  {
  }

  lemma SmallerQuotient(x: nat, y: nat, c: nat)
    requires x <= y && c > 0
    ensures x / c <= y / c
  {
    Quotient(x, c, x / c);
    Quotient(y, c, y / c);
    var d := y / c + 1 - x / c;
    assert c * d == (y / c + 1) * c - (x / c) * c;
    Multiples(c, d);
  }

  lemma Letters(b: seq<byte>, o: nat)
    requires o + 4 <= |b|
    ensures LdDword(b, o) % 0x100_0000 == 0x54_4146 <==> b[o..o + 3] == [0x46, 0x41, 0x54]
  {
    var x := b[o] as int + 0x100 * b[o + 1] as int + 0x1_0000 * b[o + 2] as int;
    assert LdDword(b, o) == x + 0x100_0000 * b[o + 3] as int && LdDword(b, o) % 0x100_0000 == x;
  }

  lemma TwoPowers(c: byte)
    requires c > 0
    ensures Words.And(c, c - 1) == 0 <==> ClusterSize(c as int)
  {
    if ClusterSize(c as int) {
      assert IsPower(1) && IsPower(2) && IsPower(4) && IsPower(8) && IsPower(16) && IsPower(32) && IsPower(64) && IsPower(128);
      PowerTest(c);
    } else if Words.And(c, c - 1) == 0 {
      ClusterSizes(c);
    }
  }

  lemma RoomTest(p: Bpb, n: nat)
    requires n + 2 <= MAX_ENTRIES
    ensures n >= 1 ==> (p.fatSize >= Wrap(NeededBytes(KindOf(n), Wrap(n + 2)) + (SS - 1)) / SS <==> FatBytes(KindOf(n), n + 2) <= 512 * p.fatSize)
  {
    if n >= 1 { NeededIsAll(KindOf(n), n + 2); }
    hide NeededBytes, FatBytes;
  }

  // ----- how many clusters the test of the FAT's size is good for

  /** An accepted FAT32 volume of n entries with as small a FAT as the test allows, in clusters of one sector. */
  function Tightest(n: nat): Bpb
    requires MAX_ENTRIES < n < 0xFF00_0000
  {
    var f := TightestFat(n);
    Bpb(SS, f, 1, 1, 0, f + n - 1, 1, 0, 2)
  }

  function TightestFat(n: nat): (f: Word)
    ensures 1 <= f <= 0x80_0000
  {
    var f := Wrap(4 * n + (SS - 1)) / SS;
    if f == 0 then 1 else f
  }

  /** The k-th byte of a word, the lowest being the first. */
  function Octet(v: Word, k: nat): byte
    requires k < 4
  {
    (if k == 0 then v % 0x100 else if k == 1 then v / 0x100 % 0x100 else if k == 2 then v / 0x1_0000 % 0x100 else v / 0x100_0000) as byte
  }

  lemma OctetsOf(v: Word)
    ensures Octet(v, 0) as int + 0x100 * Octet(v, 1) as int + 0x1_0000 * Octet(v, 2) as int + 0x100_0000 * Octet(v, 3) as int == v
  {
  }

  /** The boot sector of that volume. */
  function TightestSector(n: nat): (b: seq<byte>)
    requires MAX_ENTRIES < n < 0xFF00_0000
    ensures |b| == SS
  {
    var f := TightestFat(n);
    seq(SS, i requires 0 <= i < SS =>
      if i == 12 || i == 44 then 2 else if i == 13 || i == 14 || i == 16 then 1
      else if 32 <= i < 36 then Octet(f + n - 1, i - 32) else if 36 <= i < 40 then Octet(f, i - 36)
      else if i == 82 then 0x46 else if i == 83 then 0x41 else if i == 84 then 0x54
      else if i == 510 then 0x55 else if i == 511 then 0xAA else 0)
  }

  lemma TightestReads(n: nat)
    requires MAX_ENTRIES < n < 0xFF00_0000
    ensures IsFatSector(TightestSector(n)) && ReadBpb(TightestSector(n)) == Tightest(n)
  {
    hide Octet, TightestFat, TightestSector;
    var f := TightestFat(n);
    TightestOctets(n);
    var b := TightestSector(n);
    OctetsOf(f + n - 1);
    OctetsOf(f);
    assert LdWord(b, 22) == 0 && LdWord(b, 19) == 0 && LdDword(b, 36) == f && LdDword(b, 32) == f + n - 1;
    hide LdDword;
  }

  lemma TightestOctets(n: nat)
    requires MAX_ENTRIES < n < 0xFF00_0000
    ensures var b, f := TightestSector(n), TightestFat(n); var t := f + n - 1;
      && b[11] == 0 && b[12] == 2 && b[13] == 1 && b[14] == 1 && b[15] == 0 && b[16] == 1 && b[17] == 0 && b[18] == 0
      && b[19] == 0 && b[20] == 0 && b[22] == 0 && b[23] == 0
      && b[32] == Octet(t, 0) && b[33] == Octet(t, 1) && b[34] == Octet(t, 2) && b[35] == Octet(t, 3)
      && b[36] == Octet(f, 0) && b[37] == Octet(f, 1) && b[38] == Octet(f, 2) && b[39] == Octet(f, 3)
      && b[42] == 0 && b[43] == 0 && b[44] == 2 && b[45] == 0 && b[46] == 0 && b[47] == 0
      && b[82] == 0x46 && b[83] == 0x41 && b[84] == 0x54 && b[510] == 0x55 && b[511] == 0xAA
  {
    hide Octet, TightestFat;
  }

  /** Beyond that many entries the count of bytes wraps, and a FAT that is too small is accepted. */
  lemma TooManyEntries(n: nat)
    requires MAX_ENTRIES < n < 0xFF00_0000
    ensures var p := Tightest(n);
      && Mount(p, 0).Some? && NoWrap(p, 0) && ClusterCount(p) + 2 == n
      && FatBytes(Fat32, n) > p.fatSize * SS && Mount(p, 0).value.kind == Fat32
    ensures MountSector(TightestSector(n), 0) == Mount(Tightest(n), 0) && ReadBpb(TightestSector(n)) == Tightest(n)
  {
    hide Mount, NoWrap, ClusterCount, FatBytes, Tightest, IsFatSector, ReadBpb, TightestSector;
    TightestReads(n);
    TightestMounts(n);
  }

  lemma TightestMounts(n: nat)
    requires MAX_ENTRIES < n < 0xFF00_0000
    ensures var p := Tightest(n);
      && Mount(p, 0).Some? && NoWrap(p, 0) && ClusterCount(p) + 2 == n
      && FatBytes(Fat32, n) > p.fatSize * SS && Mount(p, 0).value.kind == Fat32
  {
    var p, f := Tightest(n), TightestFat(n);
    assert SystemSectors(p) == 1 + f;
    assert Words.And(1, 0) == 0;
    assert Sane(p);
    assert ClusterCount(p) == n - 2 by { ByOne(n - 2); }
    assert KindOf(n - 2) == Fat32 && NeededBytes(Fat32, n) == Wrap(4 * n);
    TightWraps(n);
    assert Suits(p, n - 2);
  }

  lemma ByOne(x: nat)
    ensures x / 1 == x
  {
  }

  lemma TightWraps(n: nat)
    requires MAX_ENTRIES < n < 0xFF00_0000
    ensures TightestFat(n) >= Wrap(Wrap(4 * n) + (SS - 1)) / SS && 4 * n > TightestFat(n) * SS
  {
  }

  /** One sector of FAT is accepted for 0x40000000 entries. */
  lemma OneSectorFat()
    ensures Tightest(0x4000_0000) == Bpb(SS, 1, 1, 1, 0, 0x4000_0000, 1, 0, 2)
    ensures MountSector(TightestSector(0x4000_0000), 0).Some? && ReadBpb(TightestSector(0x4000_0000)) == Tightest(0x4000_0000)
    ensures NoWrap(Tightest(0x4000_0000), 0)
    ensures FatBytes(Fat32, 0x4000_0000) > 1 * SS
  {
    hide Mount, NoWrap, MountSector, ReadBpb, TightestSector, FatBytes;
    TooManyEntries(0x4000_0000);
  }

  /** The sector b is accepted as the boot sector, at bsect, of a volume with n entries. */
  predicate Accepted(b: seq<byte>, bsect: Word, n: nat)
  {
    |b| == SS && MountSector(b, bsect).Some? && NoWrap(ReadBpb(b), bsect) && MountSector(b, bsect).value.nFatent == n
  }

  /** Every volume with n entries that is accepted has room for them in its FAT. */
  ghost predicate AlwaysRoom(n: nat)
  {
    forall b: seq<byte>, bsect: Word {:trigger Accepted(b, bsect, n)} :: Accepted(b, bsect, n) ==>
      FatBytes(MountSector(b, bsect).value.kind, n) <= MountSector(b, bsect).value.fsize * SS
  }

  /** That is so exactly up to this many entries. */
  lemma RoomExactly(n: nat)
    requires 3 <= n < 0xFF00_0000
    ensures AlwaysRoom(n) <==> n <= MAX_ENTRIES
  {
    hide Sane, Suits, ClusterCount, FatBytes, NoWrap, ReadBpb, IsFatSector, TightestSector;
    if n <= MAX_ENTRIES {
      forall b: seq<byte>, bsect: Word | Accepted(b, bsect, n)
        ensures FatBytes(MountSector(b, bsect).value.kind, n) <= MountSector(b, bsect).value.fsize * SS
      {
        CountFits(ReadBpb(b), bsect);
        MountIsLaid(ReadBpb(b), bsect);
      }
    } else {
      TooManyEntries(n);
      assert Accepted(TightestSector(n), 0, n);
    }
  }

  /** The number of entries is that of the clusters and two more, unless it wraps to nothing. */
  lemma CountFits(p: Bpb, bsect: Word)
    requires Mount(p, bsect).Some? && NoWrap(p, bsect) && Mount(p, bsect).value.nFatent >= 3
    ensures Mount(p, bsect).value.nFatent == ClusterCount(p) + 2
  {
    hide Sane, Suits, Layout, ClusterCount, Wrap, ClusterSize, FatArea, SystemSectors;
    CountBounds(p, bsect);
    LayoutEntries(p, bsect, ClusterCount(p));
    WrapOrNothing(ClusterCount(p) + 2);
  }

  lemma LayoutEntries(p: Bpb, bsect: Word, n: nat)
    ensures Layout(p, bsect, n).nFatent == Wrap(n + 2)
  {
    hide Wrap, FatArea, SystemSectors;
  }

  lemma WrapOrNothing(x: nat)
    requires x <= W32 + 1
    ensures Wrap(x) >= 3 ==> Wrap(x) == x
  {
  }

  // ----- clusters

  /** clust2sect, in 32-bit arithmetic. */
  function Clust2Sect(g: Geometry, clst: Word): Word
    requires g.nFatent >= 2
  {
    var c := (clst - 2) % W32;
    if c >= g.nFatent - 2 then 0 else Wrap(Scale(c, g.csize) + g.database)
  }

  predicate IsCluster(g: Geometry, c: int)
  {
    2 <= c < g.nFatent
  }

  lemma Scaled(i: nat, n: nat, k: nat)
    requires ClusterSize(k) && i < n
    ensures i * k + k <= n * k
  {
    assert (i + 1) * k == i * k + k;
    if k == 1 || k == 2 || k == 4 || k == 8 { return; }
    if k == 16 || k == 32 { return; }
  }

  /** Exactly the clusters 2 to n_fatent - 1 have sectors: csize of them, behind the FATs and inside the volume. */
  lemma ClusterPlace(g: Geometry, end: nat, c: Word)
    requires Laid(g, end)
    ensures Clust2Sect(g, c) != 0 <==> IsCluster(g, c)
    ensures IsCluster(g, c) ==>
              && Clust2Sect(g, c) == g.database + (c - 2) * g.csize
              && g.fatbase + g.fsize * g.nFats <= Clust2Sect(g, c) && Clust2Sect(g, c) + g.csize <= end
  {
    hide FatBytes, ClusterSize, Clust2Sect, LaidOrder, LaidSizes;
    if IsCluster(g, c) {
      ClusterSpan(g, end, c);
    } else {
      NoSuchCluster(g, end, c);
    }
  }

  lemma ClusterSpan(g: Geometry, end: nat, c: Word)
    requires Laid(g, end) && IsCluster(g, c)
    ensures Clust2Sect(g, c) == g.database + (c - 2) * g.csize && Clust2Sect(g, c) + g.csize <= end
    ensures 0 < g.fatbase + g.fsize * g.nFats <= Clust2Sect(g, c)
  {
    hide FatBytes, ClusterSize, Wrap, Scale, FatSectors;
    assert (c - 2) % W32 == c - 2;
    ScaleNext(c - 2, g.nFatent - 2, g.csize);
    Fits(Scale(c - 2, g.csize) + g.database);
    ScaleIs(c - 2, g.csize);
    FatsAre(g);
  }

  lemma ScaleIs(i: nat, k: nat)
    ensures Scale(i, k) == i * k
  {
  }

  lemma FatsAre(g: Geometry)
    ensures FatSectors(g) == g.fsize * g.nFats
  {
  }

  lemma ScaleNext(i: nat, n: nat, k: nat)
    requires ClusterSize(k) && i < n
    ensures Scale(i, k) + k <= Scale(n, k)
  {
    Scaled(i, n, k);
  }

  lemma NoSuchCluster(g: Geometry, end: nat, c: Word)
    requires Laid(g, end) && !IsCluster(g, c)
    ensures Clust2Sect(g, c) == 0
  {
    hide FatBytes, ClusterSize, LaidOrder;
    assert (c - 2) % W32 == if c < 2 then c - 2 + W32 else c - 2;
  }

  /** Two clusters have no sector in common. */
  lemma ClustersApart(g: Geometry, end: nat, c: Word, d: Word)
    requires Laid(g, end) && IsCluster(g, c) && IsCluster(g, d) && c < d
    ensures Clust2Sect(g, c) + g.csize <= Clust2Sect(g, d)
  {
    hide FatBytes, ClusterSize, Clust2Sect, LaidOrder;
    ClusterPlace(g, end, c);
    ClusterPlace(g, end, d);
    Scaled(c - 2, d - 2, g.csize);
  }

  // ----- FAT entries

  /** The first byte of the entry of cluster c, counted from the start of the FAT. */
  function EntryAt(k: Kind, c: nat): nat
  {
    match k
    case Fat12 => c + c / 2
    case Fat16 => 2 * c
    case Fat32 => 4 * c
  }

  function EntryWidth(k: Kind): nat
  {
    if k == Fat32 then 4 else 2
  }

  /** Every byte get_fat reads for a cluster lies in the first FAT. */
  lemma EntryInFat(g: Geometry, end: nat, c: nat)
    requires Laid(g, end) && c < g.nFatent
    ensures EntryAt(g.kind, c) + EntryWidth(g.kind) <= g.fsize * SS
    ensures (EntryAt(g.kind, c) + EntryWidth(g.kind) - 1) / SS < g.fsize
  {
    hide ClusterSize, LaidOrder;
    Twelve(c, g.nFatent);
  }

  lemma Twelve(c: nat, n: nat)
    requires c < n
    ensures c + c / 2 + 2 <= n * 3 / 2 + n % 2
  {
  }
}
