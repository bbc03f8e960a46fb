/** ff.c: FAT12, FAT16 and FAT32 entries as they lie in the sectors of the FAT. */
module FatTable {

  import opened Bytes
  import opened FatGeometry

  type Sectors = seq<seq<byte>>

  ghost predicate Whole(v: Sectors)
  {
    forall s {:trigger v[s]} :: 0 <= s < |v| ==> |v[s]| == SS
  }

  /** The i-th byte of the table that starts at sector base. */
  function ByteAt(v: Sectors, base: nat, i: nat): byte
  {
    if base + i / SS < |v| && i % SS < |v[base + i / SS]| then v[base + i / SS][i % SS] else 0
  }

  function SetByte(v: Sectors, base: nat, i: nat, b: byte): (r: Sectors)
    ensures |r| == |v|
  {
    if base + i / SS < |v| && i % SS < |v[base + i / SS]| then
      var sector: seq<byte> := v[base + i / SS];
      v[base + i / SS := sector[i % SS := b]]
    else v
  }

  lemma SetByteReads(v: Sectors, base: nat, i: nat, b: byte, j: nat)
    requires Whole(v) && base + i / SS < |v|
    ensures Whole(SetByte(v, base, i, b))
    ensures ByteAt(SetByte(v, base, i, b), base, j) == if i == j then b else ByteAt(v, base, j)
  {
    if i != j { Places(i, j); }
  }

  lemma Places(i: nat, j: nat)
    requires i != j
    ensures i / SS != j / SS || i % SS != j % SS
  {
    assert i == SS * (i / SS) + i % SS && j == SS * (j / SS) + j % SS;
  }

  // ----- reading

  /** The sectors of the first FAT are there. */
  ghost predicate HasFat(v: Sectors, g: Geometry)
  {
    Whole(v) && g.fatbase + g.fsize <= |v| && FatBytes(g.kind, g.nFatent) <= g.fsize * SS
  }

  /** A byte of the first FAT. */
  function FatByte(v: Sectors, g: Geometry, i: nat): byte
  {
    ByteAt(v, g.fatbase, i)
  }

  /** The bits of an entry and, for FAT12, of what shares its bytes. */
  function Raw(v: Sectors, g: Geometry, c: nat): nat
  {
    var i := EntryAt(g.kind, c);
    FatByte(v, g, i) as int + 256 * FatByte(v, g, i + 1) as int
    + (if g.kind == Fat32 then 0x1_0000 * FatByte(v, g, i + 2) as int + 0x100_0000 * FatByte(v, g, i + 3) as int else 0)
  }

  /** The entry of cluster c: 12, 16 or 28 bits. */
  function Entry(v: Sectors, g: Geometry, c: nat): (e: nat)
    ensures e < Limit(g.kind)
  {
    match g.kind
    case Fat12 => if c % 2 == 1 then Raw(v, g, c) / 16 else Raw(v, g, c) % 0x1000
    case Fat16 => Raw(v, g, c)
    case Fat32 => Raw(v, g, c) % 0x1000_0000
  }

  function Limit(k: Kind): nat
  {
    match k
    case Fat12 => 0x1000
    case Fat16 => 0x1_0000
    case Fat32 => 0x1000_0000
  }

  lemma Below(i: nat, n: nat)
    requires i < n * SS
    ensures i / SS < n
  {
  }

  /** Byte i of the first FAT, counted in sectors of 512 bytes from fatbase. */
  function ByteOnDisk(v: Sectors, g: Geometry, i: nat): int
    requires g.fatbase + i / 512 < |v| && i % 512 < |v[g.fatbase + i / 512]|
  {
    v[g.fatbase + i / 512][i % 512] as int
  }

  lemma FatByteOnDisk(v: Sectors, g: Geometry, i: nat)
    requires HasFat(v, g) && i < g.fsize * SS
    ensures g.fatbase + i / 512 < |v| && i % 512 < |v[g.fatbase + i / 512]| && FatByte(v, g, i) as int == ByteOnDisk(v, g, i)
  {
    Below(i, g.fsize);
  }

  /** The n bytes from byte o of the first FAT on are there. */
  ghost predicate OnDisk(v: Sectors, g: Geometry, o: nat, n: nat)
  {
    forall i {:trigger i / 512} :: o <= i < o + n ==> g.fatbase + i / 512 < |v| && |v[g.fatbase + i / 512]| == 512
  }

  function FourBytes(v: Sectors, g: Geometry, o: nat): int
    requires g.fatbase + o / 512 < |v| && |v[g.fatbase + o / 512]| == 512
    requires g.fatbase + (o + 1) / 512 < |v| && |v[g.fatbase + (o + 1) / 512]| == 512
    requires g.fatbase + (o + 2) / 512 < |v| && |v[g.fatbase + (o + 2) / 512]| == 512
    requires g.fatbase + (o + 3) / 512 < |v| && |v[g.fatbase + (o + 3) / 512]| == 512
  {
    ByteOnDisk(v, g, o) + 0x100 * ByteOnDisk(v, g, o + 1) + 0x1_0000 * ByteOnDisk(v, g, o + 2) + 0x100_0000 * ByteOnDisk(v, g, o + 3)
  }

  /** The bytes of an entry, the lowest first: four on FAT32, of which the four top bits are not part of the entry, two on FAT16,
      and on FAT12 a byte and a half, an even cluster's entry starting with the byte and an odd one's with the upper half. */
  lemma EntryBytes(v: Sectors, g: Geometry, c: nat)
    requires HasFat(v, g) && c < g.nFatent
    ensures g.kind == Fat32 ==>
      OnDisk(v, g, 4 * c, 4) && Entry(v, g, c) == FourBytes(v, g, 4 * c) % 0x1000_0000
    ensures g.kind == Fat16 ==>
      OnDisk(v, g, 2 * c, 2) && Entry(v, g, c) == ByteOnDisk(v, g, 2 * c) + 0x100 * ByteOnDisk(v, g, 2 * c + 1)
    ensures g.kind == Fat12 && c % 2 == 0 ==>
      OnDisk(v, g, 3 * c / 2, 2) && Entry(v, g, c) == ByteOnDisk(v, g, 3 * c / 2) + 0x100 * (ByteOnDisk(v, g, 3 * c / 2 + 1) % 16)
    ensures g.kind == Fat12 && c % 2 == 1 ==>
      OnDisk(v, g, 3 * c / 2, 2) && Entry(v, g, c) == ByteOnDisk(v, g, 3 * c / 2) / 16 + 16 * ByteOnDisk(v, g, 3 * c / 2 + 1)
  {
    hide FatByte, ByteOnDisk, HasFat;
    assert c + c / 2 == 3 * c / 2;
    EntryOnDisk(v, g, c);
    if g.kind == Fat12 { EntryIsTwelve(v, g, c); }
  }

  lemma EntryOnDisk(v: Sectors, g: Geometry, c: nat)
    requires HasFat(v, g) && c < g.nFatent
    ensures var o := EntryAt(g.kind, c);
      && OnDisk(v, g, o, EntryWidth(g.kind))
      && FatByte(v, g, o) as int == ByteOnDisk(v, g, o) && FatByte(v, g, o + 1) as int == ByteOnDisk(v, g, o + 1)
      && (g.kind == Fat32 ==> FatByte(v, g, o + 2) as int == ByteOnDisk(v, g, o + 2) && FatByte(v, g, o + 3) as int == ByteOnDisk(v, g, o + 3))
  {
    hide FatByte, ByteOnDisk;
    Twelve(c, g.nFatent);
    var o := EntryAt(g.kind, c);
    FatByteOnDisk(v, g, o); FatByteOnDisk(v, g, o + 1);
    if g.kind == Fat32 { FatByteOnDisk(v, g, o + 2); FatByteOnDisk(v, g, o + 3); }
    forall i | o <= i < o + EntryWidth(g.kind) ensures g.fatbase + i / 512 < |v| && |v[g.fatbase + i / 512]| == 512 {
      FatByteOnDisk(v, g, i);
    }
  }

  // ----- writing

  /** The first byte of a FAT12 entry, given what was there. */
  function Low12(c: nat, val: nat, was: byte): byte
  {
    if c % 2 == 1 then was % 16 + 16 * (val % 16) else val % 256
  }

  /** The second byte. */
  function High12(c: nat, val: nat, was: byte): byte
  {
    if c % 2 == 1 then val / 16 % 256 else was / 16 * 16 + val / 256 % 16
  }

  /** A FAT32 entry keeps its four top bits. */
  function Kept32(val: nat, was: nat): nat
  {
    val % 0x1000_0000 + was / 0x1000_0000 * 0x1000_0000
  }

  /** The FAT with val stored for cluster c. */
  function Stored(v: Sectors, g: Geometry, c: nat, val: nat): Sectors
  {
    var i := EntryAt(g.kind, c);
    match g.kind
    case Fat12 => Stored12(v, g, c, val)
    case Fat16 => StoredBytes(v, g, i, val, 2)
    case Fat32 => StoredBytes(v, g, i, Kept32(val, Raw(v, g, c)), 4)
  }

  function Stored12(v: Sectors, g: Geometry, c: nat, val: nat): Sectors
  {
    var i := EntryAt(Fat12, c);
    var v1 := SetByte(v, g.fatbase, i, Low12(c, val, FatByte(v, g, i)));
    SetByte(v1, g.fatbase, i + 1, High12(c, val, FatByte(v1, g, i + 1)))
  }

  /** The n low bytes of w, the lowest first. */
  function StoredBytes(v: Sectors, g: Geometry, i: nat, w: nat, n: nat): Sectors
    decreases n
  {
    if n == 0 then v else StoredBytes(SetByte(v, g.fatbase, i, w % 256), g, i + 1, w / 256, n - 1)
  }

  // ----- the round trip

  /** A range of bytes of the first FAT. */
  predicate InFirstFat(v: Sectors, g: Geometry, i: nat, n: nat)
  {
    forall k :: i <= k < i + n ==> g.fatbase + k / SS < |v|
  }

  lemma EntryThere(v: Sectors, g: Geometry, c: nat)
    requires HasFat(v, g) && c < g.nFatent
    ensures InFirstFat(v, g, EntryAt(g.kind, c), EntryWidth(g.kind))
  {
    Twelve(c, g.nFatent);
    forall k | EntryAt(g.kind, c) <= k < EntryAt(g.kind, c) + EntryWidth(g.kind) ensures g.fatbase + k / SS < |v| {
      Below(k, g.fsize);
    }
  }

  lemma {:induction false} StoredByte(v: Sectors, g: Geometry, i: nat, w: nat, n: nat, j: nat)
    requires Whole(v) && InFirstFat(v, g, i, n)
    ensures Whole(StoredBytes(v, g, i, w, n)) && |StoredBytes(v, g, i, w, n)| == |v|
    ensures FatByte(StoredBytes(v, g, i, w, n), g, j) == if i <= j < i + n then Digit(w, j - i) else FatByte(v, g, j)
    decreases n
  {
    if n > 0 {
      var v1 := SetByte(v, g.fatbase, i, w % 256);
      SetByteReads(v, g.fatbase, i, w % 256, j);
      hide SetByte, ByteAt;
      StoredByte(v1, g, i + 1, w / 256, n - 1, j);
    }
  }

  /** The k-th byte of w. */
  function Digit(w: nat, k: nat): byte
  {
    if k == 0 then w % 256 else Digit(w / 256, k - 1)
  }

  lemma FourDigits(w: nat)
    requires w < W32
    ensures Digit(w, 0) as int + 0x100 * Digit(w, 1) as int + 0x1_0000 * Digit(w, 2) as int + 0x100_0000 * Digit(w, 3) as int == w
  {
    var a := w / 256;
    var b := a / 256;
    assert w == 256 * a + w % 256 && a == 256 * b + a % 256 && b == 256 * (b / 256) + b % 256 && b / 256 < 256;
    assert Digit(w, 1) == a % 256 && Digit(w, 2) == b % 256 && Digit(w, 3) == b / 256 % 256 == b / 256;
  }

  /** Entries of 16 and 32 bits: reading back, other entries, and the four bits above a FAT32 entry. */
  lemma StoredWide(v: Sectors, g: Geometry, c: nat, val: nat, d: nat)
    requires HasFat(v, g) && c < g.nFatent && d < g.nFatent && g.kind != Fat12 && (g.kind == Fat16 ==> val < 0x1_0000)
    ensures Raw(Stored(v, g, c, val), g, d)
         == if d != c then Raw(v, g, d) else if g.kind == Fat16 then val else Kept32(val, Raw(v, g, c))
    ensures Whole(Stored(v, g, c, val)) && |Stored(v, g, c, val)| == |v|
  {
    hide StoredBytes, ByteAt, Kept32;
    EntryThere(v, g, c);
    var i, n := EntryAt(g.kind, c), EntryWidth(g.kind);
    var w := if g.kind == Fat16 then val else Kept32(val, Raw(v, g, c));
    RawBound(v, g, c);
    KeptBound(val, Raw(v, g, c));
    var j := EntryAt(g.kind, d);
    StoredByte(v, g, i, w, n, j); StoredByte(v, g, i, w, n, j + 1);
    if g.kind == Fat32 { StoredByte(v, g, i, w, n, j + 2); StoredByte(v, g, i, w, n, j + 3); }
    if d == c {
      if g.kind == Fat16 { TwoDigits(w); } else { FourDigits(w); }
    }
    hide Digit;
  }

  lemma KeptBound(val: nat, was: nat)
    requires was < W32
    ensures Kept32(val, was) < W32
  {
  }

  lemma TwoDigits(w: nat)
    requires w < 0x1_0000
    ensures Digit(w, 0) as int + 0x100 * Digit(w, 1) as int == w
  {
  }

  lemma RawBound(v: Sectors, g: Geometry, c: nat)
    ensures Raw(v, g, c) < if g.kind == Fat32 then W32 else 0x1_0000
  {
    hide ByteAt;
  }

  // ----- FAT12

  lemma Nibbles(x: byte, y: byte)
    ensures (x as int + 256 * y as int) % 0x1000 == x as int + 256 * (y as int % 16)
    ensures (x as int + 256 * y as int) / 16 == x as int / 16 + 16 * y as int
  {
    assert y as int == 16 * (y as int / 16) + y as int % 16 && x as int == 16 * (x as int / 16) + x as int % 16;
  }

  /** An entry in its two bytes. */
  function Twelve12(c: nat, x: byte, y: byte): nat
  {
    if c % 2 == 1 then x as int / 16 + 16 * y as int else x as int + 256 * (y as int % 16)
  }

  lemma EntryIsTwelve(v: Sectors, g: Geometry, c: nat)
    requires g.kind == Fat12
    ensures Entry(v, g, c) == Twelve12(c, FatByte(v, g, EntryAt(Fat12, c)), FatByte(v, g, EntryAt(Fat12, c) + 1))
  {
    hide ByteAt;
    Nibbles(FatByte(v, g, EntryAt(Fat12, c)), FatByte(v, g, EntryAt(Fat12, c) + 1));
  }

  /** The two bytes after a store. */
  lemma Stored12Byte(v: Sectors, g: Geometry, c: nat, val: nat, j: nat)
    requires HasFat(v, g) && c < g.nFatent && g.kind == Fat12
    ensures var i, v' := EntryAt(Fat12, c), Stored12(v, g, c, val);
      && Whole(v') && |v'| == |v|
      && FatByte(v', g, j) == if j == i then Low12(c, val, FatByte(v, g, i))
                              else if j == i + 1 then High12(c, val, FatByte(v, g, i + 1)) else FatByte(v, g, j)
  {
    hide ByteAt, SetByte, Low12, High12;
    EntryThere(v, g, c);
    var i := EntryAt(Fat12, c);
    var b0 := Low12(c, val, FatByte(v, g, i));
    var v1 := SetByte(v, g.fatbase, i, b0);
    assert g.fatbase + i / SS < |v| && g.fatbase + (i + 1) / SS < |v|;
    SetByteReads(v, g.fatbase, i, b0, i + 1);
    SetByteReads(v, g.fatbase, i, b0, j);
    SetByteReads(v1, g.fatbase, i + 1, High12(c, val, FatByte(v1, g, i + 1)), j);
  }

  lemma Halves(val: nat)
    ensures val % 0x1000 == val % 16 + 16 * (val / 16 % 256) == val % 256 + 256 * (val / 256 % 16)
  {
    var a := val / 16;
    var b := a / 16;
    var c, l, m, h := b / 16, val % 16, a % 16, b % 16;
    assert val == 16 * a + l && a == 16 * b + m && b == 16 * c + h;
    assert val == 0x1000 * c + (256 * h + 16 * m + l) && a == 256 * c + (16 * h + m) && val == 256 * b + (16 * m + l);
    Parted(val, c, 256 * h + 16 * m + l, 0x1000); Parted(a, c, 16 * h + m, 256); Parted(val, b, 16 * m + l, 256);
  }

  lemma Parted(x: nat, q: nat, r: nat, d: nat)
    requires (d == 256 || d == 0x1000) && r < d && x == d * q + r
    ensures x / d == q && x % d == r
  {
    if d == 256 { return; }
  }

  /** The new bytes hold the new entry and keep the neighbour's half. */
  lemma NewBytes(c: nat, val: nat, x: byte, y: byte)
    ensures Twelve12(c, Low12(c, val, x), High12(c, val, y)) == val % 0x1000
    ensures c % 2 == 1 ==> Low12(c, val, x) % 16 == x % 16
    ensures c % 2 == 0 ==> High12(c, val, y) / 16 == y / 16
  {
    Halves(val);
    if c % 2 == 1 {
      LowNibble(x, val % 16);
    } else {
      HighNibble(y, val / 256 % 16);
    }
  }

  lemma LowNibble(x: byte, n: nat)
    requires n < 16
    ensures (x % 16 + 16 * n) / 16 == n && (x % 16 + 16 * n) % 16 == x % 16
  {
  }

  lemma HighNibble(y: byte, n: nat)
    requires n < 16
    ensures (y / 16 * 16 + n) % 16 == n && (y / 16 * 16 + n) / 16 == y / 16
  {
  }

  lemma Stored12Entry(v: Sectors, g: Geometry, c: nat, val: nat, d: nat)
    requires HasFat(v, g) && c < g.nFatent && d < g.nFatent && g.kind == Fat12
    ensures Entry(Stored12(v, g, c, val), g, d) == if d == c then val % 0x1000 else Entry(v, g, d)
  {
    hide ByteAt, SetByte, Low12, High12, Entry, Stored12, FatByte;
    var i, j, v' := EntryAt(Fat12, c), EntryAt(Fat12, d), Stored12(v, g, c, val);
    EntryIsTwelve(v, g, d); EntryIsTwelve(v', g, d);
    Stored12Byte(v, g, c, val, j); Stored12Byte(v, g, c, val, j + 1);
    NewBytes(c, val, FatByte(v, g, i), FatByte(v, g, i + 1));
    if c != d { Neighbours12(c, d); }
  }

  /** Different FAT12 entries share at most one byte, half each. */
  lemma Neighbours12(c: nat, d: nat)
    requires c != d
    ensures var i, j := EntryAt(Fat12, c), EntryAt(Fat12, d);
      || j + 1 < i || i + 1 < j
      || (j + 1 == i && c % 2 == 1 && d % 2 == 0)
      || (j == i + 1 && c % 2 == 0 && d % 2 == 1)
  {
    if d < c { Order12(d, c); } else { Order12(c, d); }
  }

  lemma Order12(c: nat, d: nat)
    requires c < d
    ensures var i, j := c + c / 2, d + d / 2; i + 1 < j || (j == i + 1 && c % 2 == 0 && d % 2 == 1)
  {
    if d >= c + 2 { assert d / 2 >= c / 2 + 1; }
  }

  // ----- all kinds

  /** After put_fat, get_fat returns the value cut to the width of the entry for that cluster and what it
      returned before for every other; the four bits above a FAT32 entry stay. */
  lemma StoreThenLoad(v: Sectors, g: Geometry, c: nat, val: Word, d: nat)
    requires HasFat(v, g) && c < g.nFatent && d < g.nFatent
    ensures HasFat(Stored(v, g, c, val), g)
    ensures Entry(Stored(v, g, c, val), g, d) == if d == c then val % Limit(g.kind) else Entry(v, g, d)
    ensures g.kind == Fat32 ==> Raw(Stored(v, g, c, val), g, d) / 0x1000_0000 == Raw(v, g, d) / 0x1000_0000
  {
    hide FatByte, StoredBytes, Stored12;
    match g.kind
    case Fat12 => Stored12Entry(v, g, c, val, d); Stored12Byte(v, g, c, val, 0);
    case Fat16 => StoredSixteen(v, g, c, val, d);
    case Fat32 => StoredWide(v, g, c, val, d); KeptTop(val, Raw(v, g, c));
  }

  lemma KeptTop(val: nat, was: nat)
    ensures Kept32(val, was) % 0x1000_0000 == val % 0x1000_0000 && Kept32(val, was) / 0x1000_0000 == was / 0x1000_0000
  {
  }

  /** A 16-bit entry takes the two low bytes of the value. */
  lemma StoredSixteen(v: Sectors, g: Geometry, c: nat, val: Word, d: nat)
    requires HasFat(v, g) && c < g.nFatent && d < g.nFatent && g.kind == Fat16
    ensures Whole(Stored(v, g, c, val)) && |Stored(v, g, c, val)| == |v|
    ensures Raw(Stored(v, g, c, val), g, d) == if d != c then Raw(v, g, d) else val % 0x1_0000
  {
    SameLowBytes(v, g, EntryAt(Fat16, c), val);
    StoredWide(v, g, c, val % 0x1_0000, d);
  }

  lemma SameLowBytes(v: Sectors, g: Geometry, i: nat, val: nat)
    ensures StoredBytes(v, g, i, val, 2) == StoredBytes(v, g, i, val % 0x1_0000, 2)
  {
    var m := val % 0x1_0000;
    assert m % 256 == val % 256 && m / 256 == val / 256 % 256;
    hide SetByte;
    var v1 := SetByte(v, g.fatbase, i, val % 256);
    var v2 := SetByte(v1, g.fatbase, i + 1, val / 256 % 256);
    assert StoredBytes(v2, g, i + 2, val / 256 / 256, 0) == v2 == StoredBytes(v2, g, i + 2, m / 256 / 256, 0);
    assert StoredBytes(v1, g, i + 1, val / 256, 1) == v2 == StoredBytes(v1, g, i + 1, m / 256, 1);
  }
}
