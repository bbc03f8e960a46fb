/** ff.c: the one-sector window over the disk, and FAT entries read and written through it. */
module FatVolume {

  import opened Bytes
  import opened FatGeometry
  import opened FatTable

  datatype FResult = Ok | DiskErr | IntErr | NoFile | Denied

  /** No sector is in the window. */
  const NO_SECTOR: Word := 0xFFFF_FFFF

  /** A sector of a second FAT copy. */
  predicate InCopies(g: Geometry, s: int)
  {
    g.fatbase + g.fsize <= s < g.fatbase + FatSectors(g)
  }

  /** Equal but for the FAT copies. */
  ghost predicate Same(g: Geometry, v: Sectors, w: Sectors)
  {
    |v| == |w| && forall s {:trigger w[s]} :: 0 <= s < |v| && !InCopies(g, s) ==> v[s] == w[s]
  }

  lemma SameTrans(g: Geometry, u: Sectors, v: Sectors, w: Sectors)
    requires Same(g, u, v) && Same(g, v, w)
    ensures Same(g, u, w)
  {
    forall s | 0 <= s < |u| && !InCopies(g, s) ensures u[s] == w[s] { assert u[s] == v[s]; }
  }

  /** The first FAT is outside the copies, so its entries are the same. */
  lemma SameEntry(g: Geometry, v: Sectors, w: Sectors, c: nat)
    requires Same(g, v, w) && HasFat(v, g) && c < g.nFatent
    ensures Entry(w, g, c) == Entry(v, g, c) && Raw(w, g, c) == Raw(v, g, c)
  {
    hide FatSectors;
    EntryThere(v, g, c);
    Twelve(c, g.nFatent);
    var i := EntryAt(g.kind, c);
    forall k | i <= k < i + EntryWidth(g.kind) ensures FatByte(w, g, k) == FatByte(v, g, k) {
      Below(k, g.fsize);
      assert v[g.fatbase + k / SS] == w[g.fatbase + k / SS];
    }
    hide FatByte;
    assert FatByte(w, g, i) == FatByte(v, g, i) && FatByte(w, g, i + 1) == FatByte(v, g, i + 1);
  }

  lemma SameWhole(g: Geometry, v: Sectors, w: Sectors)
    requires Same(g, v, w) && HasFat(v, g) && Whole(w)
    ensures HasFat(w, g)
  {
  }

  /** No sector outside the FATs has changed, nor have the two entries that are of no cluster, nor the four bits above each
      FAT32 entry. */
  ghost predicate RestKept(g: Geometry, v: Sectors, w: Sectors)
  {
    && OutsideKept(g, v, w)
    && (forall d {:trigger Entry(w, g, d)} :: 0 <= d < 2 ==> Entry(w, g, d) == Entry(v, g, d))
    && (g.kind == Fat32 ==> forall d {:trigger Raw(w, g, d)} :: 0 <= d < g.nFatent ==> Raw(w, g, d) / 0x1000_0000 == Raw(v, g, d) / 0x1000_0000)
  }

  ghost predicate OutsideKept(g: Geometry, v: Sectors, w: Sectors)
  {
    |v| == |w| && forall s {:trigger w[s]} :: 0 <= s < |v| && (s < g.fatbase || s >= g.fatbase + FatSectors(g)) ==> w[s] == v[s]
  }

  lemma RestTrans(g: Geometry, u: Sectors, v: Sectors, w: Sectors)
    requires RestKept(g, u, v) && RestKept(g, v, w)
    ensures RestKept(g, u, w)
  {
    hide Entry, Raw;
    forall s | 0 <= s < |u| && (s < g.fatbase || s >= g.fatbase + FatSectors(g)) ensures w[s] == u[s] { assert v[s] == u[s]; }
    forall d | 0 <= d < 2 ensures Entry(w, g, d) == Entry(u, g, d) { assert Entry(v, g, d) == Entry(u, g, d); }
    if g.kind == Fat32 {
      forall d | 0 <= d < g.nFatent ensures Raw(w, g, d) / 0x1000_0000 == Raw(u, g, d) / 0x1000_0000 {
        assert Raw(v, g, d) / 0x1000_0000 == Raw(u, g, d) / 0x1000_0000;
      }
    }
  }

  lemma RestSelf(g: Geometry, v: Sectors)
    ensures RestKept(g, v, v)
  {
  }

  lemma SameRest(g: Geometry, v: Sectors, w: Sectors)
    requires Same(g, v, w) && HasFat(v, g) && LaidSizes(g)
    ensures RestKept(g, v, w)
  {
    hide Entry, Raw, FatBytes, ClusterSize, Whole;
    CopiesInside(g);
    forall d: nat | d < g.nFatent ensures Entry(w, g, d) == Entry(v, g, d) && Raw(w, g, d) == Raw(v, g, d) { SameEntry(g, v, w, d); }
  }

  lemma CopiesInside(g: Geometry)
    requires LaidSizes(g)
    ensures forall s: int :: InCopies(g, s) ==> g.fatbase <= s < g.fatbase + FatSectors(g)
    ensures g.fsize <= FatSectors(g)
  {
    assert g.nFats == 1 || g.nFats == 2;
  }

  /** A byte written into the first FAT. */
  lemma SetOutside(g: Geometry, v: Sectors, i: nat, b: byte)
    requires LaidSizes(g) && i / SS < g.fsize
    ensures OutsideKept(g, v, SetByte(v, g.fatbase, i, b))
  {
    CopiesInside(g);
  }

  lemma OutsideTrans(g: Geometry, u: Sectors, v: Sectors, w: Sectors)
    requires OutsideKept(g, u, v) && OutsideKept(g, v, w)
    ensures OutsideKept(g, u, w)
  {
    forall s | 0 <= s < |u| && (s < g.fatbase || s >= g.fatbase + FatSectors(g)) ensures w[s] == u[s] { assert v[s] == u[s]; }
  }

  lemma {:induction false} BytesOutside(g: Geometry, v: Sectors, i: nat, x: nat, n: nat)
    requires LaidSizes(g) && i + n <= g.fsize * SS
    ensures OutsideKept(g, v, StoredBytes(v, g, i, x, n))
    decreases n
  {
    hide SetByte, ClusterSize;
    if n > 0 {
      Below(i, g.fsize);
      var v1 := SetByte(v, g.fatbase, i, x % 256);
      SetOutside(g, v, i, x % 256);
      BytesOutside(g, v1, i + 1, x / 256, n - 1);
      OutsideTrans(g, v, v1, StoredBytes(v, g, i, x, n));
    }
  }

  /** Storing an entry changes nothing else of the disk. */
  lemma StoredRest(g: Geometry, v: Sectors, c: nat, val: Word)
    requires HasFat(v, g) && LaidSizes(g) && IsCluster(g, c)
    ensures RestKept(g, v, Stored(v, g, c, val))
  {
    hide Entry, Raw, SetByte, ClusterSize, FatBytes, Kept32, Whole, FatByte, Low12, High12;
    forall d: nat | d < g.nFatent
      ensures d < 2 ==> Entry(Stored(v, g, c, val), g, d) == Entry(v, g, d)
      ensures g.kind == Fat32 ==> Raw(Stored(v, g, c, val), g, d) / 0x1000_0000 == Raw(v, g, d) / 0x1000_0000
    {
      StoreThenLoad(v, g, c, val, d);
    }
    EntryRoom(g, v, c);
    match g.kind
    case Fat12 =>
      Stored12Outside(g, v, c, val);
    case Fat16 => BytesOutside(g, v, 2 * c, val, 2);
    case Fat32 => BytesOutside(g, v, 4 * c, Kept32(val, Raw(v, g, c)), 4);
  }

  lemma EntryRoom(g: Geometry, v: Sectors, c: nat)
    requires HasFat(v, g) && c < g.nFatent
    ensures EntryAt(g.kind, c) + EntryWidth(g.kind) <= g.fsize * SS
  {
    Twelve(c, g.nFatent);
  }

  lemma Stored12Outside(g: Geometry, v: Sectors, c: nat, val: nat)
    requires LaidSizes(g) && c + c / 2 + 2 <= g.fsize * SS
    ensures OutsideKept(g, v, Stored12(v, g, c, val))
  {
    hide SetByte, Low12, High12, FatByte, ClusterSize;
    var i := c + c / 2;
    Below(i, g.fsize); Below(i + 1, g.fsize);
    var b0 := Low12(c, val, FatByte(v, g, i));
    var v1 := SetByte(v, g.fatbase, i, b0);
    var b1 := High12(c, val, FatByte(v1, g, i + 1));
    SetOutside(g, v, i, b0);
    SetOutside(g, v1, i + 1, b1);
    OutsideTrans(g, v, v1, SetByte(v1, g.fatbase, i + 1, b1));
  }

  /** Every FAT copy equals the first FAT, but for a sector still to be written. */
  ghost predicate Mirror(g: Geometry, d: Sectors, dirty: bool, w: nat)
  {
    g.nFats == 2 ==>
      forall s {:trigger d[s]} :: g.fatbase <= s < g.fatbase + g.fsize && s + g.fsize < |d| && !(dirty && s == w) ==> d[s + g.fsize] == d[s]
  }

  lemma MirrorClean(g: Geometry, d: Sectors, w: nat, w': nat)
    ensures Mirror(g, d, false, w) <==> Mirror(g, d, false, w')
  {
  }

  /** Writing the dirty sector everywhere it belongs. */
  lemma Flushed(g: Geometry, d0: Sectors, s: nat, v: seq<byte>, d: Sectors)
    requires LaidSizes(g) && s < |d0| && !InCopies(g, s) && g.fatbase + FatSectors(g) <= |d0|
    requires d == if g.fatbase <= s < g.fatbase + g.fsize then Copied(g, d0[s := v], s, v) else d0[s := v]
    requires Mirror(g, d0, true, s)
    ensures Mirror(g, d, false, s)
  {
    hide ClusterSize;
    if g.nFats == 2 {
      assert FatSectors(g) == 2 * g.fsize;
      forall x | g.fatbase <= x < g.fatbase + g.fsize && x + g.fsize < |d| ensures d[x + g.fsize] == d[x] {
        if x != s { assert d0[x + g.fsize] == d0[x]; }
      }
    }
  }

  class Volume {
    const g: Geometry
    var disk: Sectors
    var win: seq<byte>
    var winsect: Word
    var wflag: bool
    ghost var failures: nat

    /** What a reader through the window sees. */
    ghost function View(): Sectors
      reads this
    {
      if winsect < |disk| then disk[winsect := win] else disk
    }

    ghost predicate Valid()
      reads this
    {
      && Whole(disk) && |win| == SS && |disk| < NO_SECTOR && HasFat(disk, g) && LaidSizes(g) && g.fatbase + FatSectors(g) <= |disk|
      && (winsect < |disk| || (winsect == NO_SECTOR && !wflag)) && !InCopies(g, winsect)
      && (!wflag && winsect < |disk| ==> win == disk[winsect])
    }

    /** Every FAT copy equals the first FAT, but for the sector still to be written. */
    ghost predicate Mirrored()
      reads this
    {
      Mirror(g, disk, wflag, winsect)
    }

    /** disk_read, one sector. */
    method DiskRead(sector: Word) returns (ok: bool, data: seq<byte>)
      modifies this`failures
      ensures failures >= old(failures)
      ensures ok ==> sector < |disk| && data == disk[sector] && failures == old(failures)
      ensures !ok ==> failures > old(failures)
    {
      ok := *;
      if !ok || sector >= |disk| {
        failures := failures + 1;
        return false, [];
      }
      data := disk[sector];
    }

    /** disk_write, one sector. */
    method DiskWrite(data: seq<byte>, sector: Word) returns (ok: bool)
      modifies this`disk, this`failures
      ensures failures >= old(failures)
      ensures ok ==> sector < |old(disk)| && disk == old(disk)[sector := data] && failures == old(failures)
      ensures !ok ==> disk == old(disk) && failures > old(failures)
    {
      ok := *;
      if !ok || sector >= |disk| {
        failures := failures + 1;
        return false;
      }
      disk := disk[sector := data];
    }

    /** The loop of sync_window over the FAT copies; a failed write is passed over. */
    method WriteCopies()
      requires Whole(disk) && |win| == SS && LaidSizes(g) && g.fatbase + FatSectors(g) <= |disk| < NO_SECTOR
      requires g.fatbase <= winsect < g.fatbase + g.fsize
      modifies this`disk, this`failures
      ensures failures >= old(failures) && Whole(disk) && Same(g, old(disk), disk)
      ensures failures == old(failures) ==> disk == Copied(g, old(disk), winsect, win)
    {
      hide LaidOrder, ClusterSize;
      var wsect := winsect;
      var nf: int := g.nFats;
      CopySector(g, winsect);
      while nf >= 2
        invariant 1 <= nf <= g.nFats && (nf == g.nFats ==> disk == old(disk) && wsect == winsect)
        invariant failures >= old(failures) && Whole(disk) && Same(g, old(disk), disk)
        invariant failures == old(failures) && nf < g.nFats ==> disk == Copied(g, old(disk), winsect, win)
      {
        wsect := wsect + g.fsize;
        var ok := DiskWrite(win, wsect);
        nf := nf - 1;
      }
    }

    /** sync_window: a dirty sector is written back, and to every FAT copy if it is in the FAT. */
    method SyncWindow() returns (res: FResult)
      requires Valid()
      modifies this`disk, this`wflag, this`failures
      ensures Valid() && Same(g, old(View()), View()) && failures >= old(failures) && |disk| == |old(disk)|
      ensures res == Ok || (res == DiskErr && failures > old(failures))
      ensures res == Ok ==> !wflag
      ensures !old(wflag) ==> res == Ok && disk == old(disk) && failures == old(failures)
      ensures old(Mirrored()) && failures == old(failures) ==> Mirrored()
    {
      hide ClusterSize, FatBytes;
      res := Ok;
      if wflag {
        ghost var d0 := disk;
        WindowInside();
        var ok := DiskWrite(win, winsect);
        if !ok {
          res := DiskErr;
          return;
        }
        wflag := false;
        InTable(g, winsect);
        if (winsect - g.fatbase) % W32 < g.fsize {
          WriteCopies();
        }
        if old(Mirrored()) && failures == old(failures) { Flushed(g, d0, winsect, win, disk); }
      }
    }

    /** move_window */
    method MoveWindow(sector: Word) returns (res: FResult)
      requires Valid() && sector != NO_SECTOR && !InCopies(g, sector)
      modifies this`disk, this`win, this`winsect, this`wflag, this`failures
      ensures Valid() && Same(g, old(View()), View()) && failures >= old(failures) && |disk| == |old(disk)|
      ensures |win| == SS && (res == Ok ==> winsect == sector < |disk| && sector < |old(View())| && win == old(View())[sector])
      ensures res == Ok || (res == DiskErr && failures > old(failures))
      ensures !old(wflag) ==> disk == old(disk) && !wflag
      ensures old(Mirrored()) && failures == old(failures) ==> Mirrored()
    {
      hide ClusterSize, FatBytes, HasFat, Mirror, FatSectors;
      res := Ok;
      if sector != winsect {
        res := SyncWindow();
        if res == Ok {
          var ok, data := DiskRead(sector);
          var now: Word := sector;
          if !ok {
            now := NO_SECTOR;
            res := DiskErr;
            ViewOfDisk();
          } else {
            ViewOfDisk();
            win := data;
          }
          MirrorClean(g, disk, winsect, now);
          winsect := now;
        }
      }
    }

    /** A clean window shows the disk. */
    lemma ViewOfDisk()
      requires Valid() && !wflag
      ensures View() == disk
    {
    }

    /** get_fat: the entry of the cluster; 1 if there is none, 0xFFFFFFFF on a disk error. */
    method GetFat(clst: Word) returns (val: Word)
      requires Valid()
      modifies this`disk, this`win, this`winsect, this`wflag, this`failures
      ensures Valid() && Same(g, old(View()), View()) && failures >= old(failures) && |disk| == |old(disk)|
      ensures !IsCluster(g, clst) ==> val == 1 && failures == old(failures)
      ensures IsCluster(g, clst) ==> val == Entry(old(View()), g, clst) || (val == NO_SECTOR && failures > old(failures))
      ensures !old(wflag) ==> disk == old(disk) && !wflag
      ensures old(Mirrored()) && failures == old(failures) ==> Mirrored()
    {
      hide ClusterSize, FatBytes, HasFat, Mirror, FatSectors, Valid, Same, View, Entry, Raw, EntryAt, Mirrored;
      ghost var v := View();
      if clst < 2 || clst >= g.nFatent {
        SameSelf(g, v);
        return 1;
      }
      match g.kind
      case Fat12 => val := GetFat12(clst);
      case Fat16 => val := GetFat16(clst);
      case Fat32 => val := GetFat32(clst);
    }

    method GetFat16(clst: Word) returns (val: Word)
      requires Valid() && g.kind == Fat16 && IsCluster(g, clst)
      modifies this`disk, this`win, this`winsect, this`wflag, this`failures
      ensures Valid() && Same(g, old(View()), View()) && failures >= old(failures) && |disk| == |old(disk)|
      ensures val == Entry(old(View()), g, clst) || (val == NO_SECTOR && failures > old(failures))
      ensures !old(wflag) ==> disk == old(disk) && !wflag
      ensures old(Mirrored()) && failures == old(failures) ==> Mirrored()
    {
      hide ClusterSize, FatBytes, HasFat, Mirror, FatSectors, Valid, Same, View, Entry, Mirrored, FatByte, LdWord;
      ghost var v := View();
      ShownFat();
      SectorOfEntry(clst);
      var res := MoveWindow(g.fatbase + clst / (SS / 2));
      if res != Ok {
        return NO_SECTOR;
      }
      WindowWord(g, v, win, clst);
      return LdWord(win, clst * 2 % SS);
    }

    method GetFat32(clst: Word) returns (val: Word)
      requires Valid() && g.kind == Fat32 && IsCluster(g, clst)
      modifies this`disk, this`win, this`winsect, this`wflag, this`failures
      ensures Valid() && Same(g, old(View()), View()) && failures >= old(failures) && |disk| == |old(disk)|
      ensures val == Entry(old(View()), g, clst) || (val == NO_SECTOR && failures > old(failures))
      ensures !old(wflag) ==> disk == old(disk) && !wflag
      ensures old(Mirrored()) && failures == old(failures) ==> Mirrored()
    {
      hide ClusterSize, FatBytes, HasFat, Mirror, FatSectors, Valid, Same, View, Entry, Raw, Mirrored, FatByte, LdDword;
      ghost var v := View();
      ShownFat();
      SectorOfEntry(clst);
      var res := MoveWindow(g.fatbase + clst / (SS / 4));
      if res != Ok {
        return NO_SECTOR;
      }
      WindowDword(g, v, win, clst);
      EntryOf32(v, g, clst);
      return LdDword(win, clst * 4 % SS) % 0x1000_0000;
    }

    /** The FAT12 case: the two bytes may lie in two sectors. */
    method GetFat12(clst: Word) returns (val: Word)
      requires Valid() && g.kind == Fat12 && IsCluster(g, clst)
      modifies this`disk, this`win, this`winsect, this`wflag, this`failures
      ensures Valid() && Same(g, old(View()), View()) && failures >= old(failures) && |disk| == |old(disk)|
      ensures val == Entry(old(View()), g, clst) || (val == NO_SECTOR && failures > old(failures))
      ensures !old(wflag) ==> disk == old(disk) && !wflag
      ensures old(Mirrored()) && failures == old(failures) ==> Mirrored()
    {
      hide ClusterSize, FatBytes, HasFat, Mirror, FatSectors, Valid, Same, View, Entry, Raw, Mirrored;
      ghost var v := View();
      EntrySectors(clst);
      ShownFat();
      var bc := clst + clst / 2;
      var res := MoveWindow(g.fatbase + bc / SS);
      if res != Ok {
        return NO_SECTOR;
      }
      ghost var v1 := View();
      WindowByte(g, v, win, bc);
      var wc: nat := win[bc % SS] as int;
      bc := bc + 1;
      EntrySectors(clst);
      res := MoveWindow(g.fatbase + bc / SS);
      SameTrans(g, v, v1, View());
      if res != Ok {
        return NO_SECTOR;
      }
      SameByte(g, v, v1, clst);
      WindowByte(g, v1, win, bc);
      wc := wc + 256 * win[bc % SS] as int;
      EntryOf12(v, g, clst);
      val := if clst % 2 == 1 then wc / 16 else wc % 0x1000;
    }

    /** One byte of the FAT sector in the window is changed; the sector is dirty. */
    method StoreByte(i: nat, b: byte)
      requires Valid() && winsect == g.fatbase + i / SS && winsect < |disk|
      modifies this`win, this`wflag
      ensures Valid() && View() == SetByte(old(View()), g.fatbase, i, b) && win == old(win)[i % SS := b] && wflag
      ensures old(Mirrored()) ==> Mirrored()
    {
      hide ClusterSize, FatBytes, FatSectors;
      ghost var v := View();
      var w: seq<byte> := win[i % SS := b];
      win := w;
      wflag := true;
      ViewChanged(disk, winsect, v[winsect], win, i % SS, b);
    }

    /** put_fat: for FAT12 in two steps, the bytes of an entry lying in one or two sectors. */
    method PutFat(clst: Word, val: Word) returns (res: FResult)
      requires Valid()
      modifies this`disk, this`win, this`winsect, this`wflag, this`failures
      ensures Valid() && failures >= old(failures) && |disk| == |old(disk)|
      ensures !IsCluster(g, clst) ==> res == IntErr && View() == old(View())
      ensures IsCluster(g, clst) ==> res == Ok || (res == DiskErr && failures > old(failures))
      ensures res == Ok ==> Same(g, Stored(old(View()), g, clst, val), View())
      ensures res == DiskErr ==> OthersKept(g, old(View()), View(), clst)
      ensures RestKept(g, old(View()), View())
      ensures old(Mirrored()) && failures == old(failures) ==> Mirrored()
    {
      hide ClusterSize, FatBytes, HasFat, Mirror, FatSectors, Valid, Same, View, Stored, EntryAt, Mirrored, RestKept;
      RestSelf(g, View());
      if clst < 2 || clst >= g.nFatent {
        return IntErr;
      }
      match g.kind
      case Fat12 => res := PutFat12(clst, val);
      case Fat16 => res := PutFat16(clst, val);
      case Fat32 => res := PutFat32(clst, val);
    }

    method PutFat12(clst: Word, val: Word) returns (res: FResult)
      requires Valid() && g.kind == Fat12 && IsCluster(g, clst)
      modifies this`disk, this`win, this`winsect, this`wflag, this`failures
      ensures Valid() && failures >= old(failures) && |disk| == |old(disk)|
      ensures res == Ok || (res == DiskErr && failures > old(failures))
      ensures res == Ok ==> Same(g, Stored(old(View()), g, clst, val), View())
      ensures res == DiskErr ==> OthersKept(g, old(View()), View(), clst)
      ensures RestKept(g, old(View()), View())
      ensures old(Mirrored()) && failures == old(failures) ==> Mirrored()
    {
      hide ClusterSize, FatBytes, HasFat, Mirror, FatSectors, Valid, Same, View, Stored, Mirrored, SetByte, FatByte, Low12, High12, OthersKept,
           RestKept, LaidSizes;
      ghost var v := View();
      ShownFat();
      ShownSizes();
      EntrySectors(clst);
      var bc := clst + clst / 2;
      res := MoveWindow(g.fatbase + bc / SS);
      if res != Ok {
        SameOthers(g, v, View(), clst);
        SameRest(g, v, View());
        ShownSize();
        return;
      }
      ghost var v1 := View();
      ShownSize();
      WindowByte(g, v, win, bc);
      var b := Low12(clst, val, win[bc % SS]);
      StoreByte(bc, b);
      ghost var v2 := SetByte(v, g.fatbase, bc, b);
      SetByteSame(g, v, v1, bc, b);
      FirstHalf(g, v, clst, val);
      FirstHalfRest(g, v, clst, val);
      bc := bc + 1;
      ShownFat();
      EntrySectors(clst);
      res := MoveWindow(g.fatbase + bc / SS);
      SameTrans(g, v2, SetByte(v1, g.fatbase, bc - 1, b), View());
      ghost var v3 := View();
      ShownSize();
      if res != Ok {
        SameOthers(g, v2, v3, clst);
        OthersTrans(g, v, v2, v3, clst);
        SameRest(g, v2, v3);
        RestTrans(g, v, v2, v3);
        return;
      }
      SameByte(g, v2, v3, clst);
      ShownByte(bc);
      b := High12(clst, val, win[bc % SS]);
      StoreByte(bc, b);
      SetByteSame(g, v2, v3, bc, b);
      StoredIs12(g, v, clst, val);
      StoredFat(g, v, clst, val);
      StoredRest(g, v, clst, val);
      SameRest(g, Stored(v, g, clst, val), View());
      RestTrans(g, v, Stored(v, g, clst, val), View());
      ShownSize();
    }

    method PutFat16(clst: Word, val: Word) returns (res: FResult)
      requires Valid() && g.kind == Fat16 && IsCluster(g, clst)
      modifies this`disk, this`win, this`winsect, this`wflag, this`failures
      ensures Valid() && failures >= old(failures) && |disk| == |old(disk)|
      ensures res == Ok || (res == DiskErr && failures > old(failures))
      ensures res == Ok ==> Same(g, Stored(old(View()), g, clst, val), View())
      ensures res == DiskErr ==> OthersKept(g, old(View()), View(), clst)
      ensures RestKept(g, old(View()), View())
      ensures old(Mirrored()) && failures == old(failures) ==> Mirrored()
    {
      hide ClusterSize, FatBytes, HasFat, Mirror, FatSectors, Valid, Same, View, Mirrored, SetByte, FatByte, OthersKept, RestKept, LaidSizes;
      ghost var v := View();
      ShownFat();
      ShownSizes();
      SectorOfEntry(clst);
      ShownSize();
      res := MoveWindow(g.fatbase + clst / (SS / 2));
      ShownSize();
      if res != Ok {
        SameOthers(g, v, View(), clst);
        SameRest(g, v, View());
        return;
      }
      ghost var v1 := View();
      AlignedBytes(clst);
      StoreByte(2 * clst, val % 256);
      StoreByte(2 * clst + 1, val / 256 % 256);
      StoredSame(g, v, v1, clst, val);
      StoredIs16(g, v1, clst, val);
      StoredFat(g, v, clst, val);
      StoredRest(g, v, clst, val);
      SameRest(g, Stored(v, g, clst, val), View());
      RestTrans(g, v, Stored(v, g, clst, val), View());
      ShownSize();
    }

    method PutFat32(clst: Word, val: Word) returns (res: FResult)
      requires Valid() && g.kind == Fat32 && IsCluster(g, clst)
      modifies this`disk, this`win, this`winsect, this`wflag, this`failures
      ensures Valid() && failures >= old(failures) && |disk| == |old(disk)|
      ensures res == Ok || (res == DiskErr && failures > old(failures))
      ensures res == Ok ==> Same(g, Stored(old(View()), g, clst, val), View())
      ensures res == DiskErr ==> OthersKept(g, old(View()), View(), clst)
      ensures RestKept(g, old(View()), View())
      ensures old(Mirrored()) && failures == old(failures) ==> Mirrored()
    {
      hide ClusterSize, FatBytes, HasFat, Mirror, FatSectors, Valid, Same, View, Mirrored, SetByte, FatByte, OthersKept, Kept32, Bytes32,
           LdDword, Raw, Stored, RestKept, LaidSizes;
      ghost var v := View();
      ShownFat();
      ShownSizes();
      SectorOfEntry(clst);
      ShownSize();
      res := MoveWindow(g.fatbase + clst / (SS / 4));
      ShownSize();
      if res != Ok {
        SameOthers(g, v, View(), clst);
        SameRest(g, v, View());
        return;
      }
      ghost var v1 := View();
      AlignedBytes(clst);
      WindowDword(g, v, win, clst);
      var w := Kept32(val, LdDword(win, clst * 4 % SS));
      SameEntry(g, v, v1, clst);
      KeptBound(val, LdDword(win, clst * 4 % SS));
      StoreDword(4 * clst, w);
      StoredSame(g, v, v1, clst, val);
      StoredIs32(g, v1, clst, val);
      StoredFat(g, v, clst, val);
      StoredRest(g, v, clst, val);
      SameRest(g, Stored(v, g, clst, val), View());
      RestTrans(g, v, Stored(v, g, clst, val), View());
      ShownSize();
    }

    /** st_dword into the FAT sector in the window. */
    method StoreDword(i: nat, w: Word)
      requires Valid() && winsect == g.fatbase + i / SS && winsect < |disk|
      requires (i + 1) / SS == i / SS && (i + 2) / SS == i / SS && (i + 3) / SS == i / SS
      modifies this`win, this`wflag
      ensures Valid() && View() == Bytes32(old(View()), g, i, w)
      ensures old(Mirrored()) ==> Mirrored()
    {
      hide ClusterSize, FatBytes, HasFat, Mirror, FatSectors, Valid, Same, View, Mirrored, SetByte, FatByte;
      StoreByte(i, w % 256);
      StoreByte(i + 1, w / 256 % 256);
      StoreByte(i + 2, w / 0x1_0000 % 256);
      StoreByte(i + 3, w / 0x100_0000 % 256);
    }

    /** The bytes of an entry of two or four bytes lie in the sector that is in the window. */
    lemma AlignedBytes(clst: nat)
      requires g.kind != Fat12
      ensures var i := EntryAt(g.kind, clst);
        (i + 1) / SS == i / SS && (g.kind == Fat32 ==> (i + 2) / SS == i / SS && (i + 3) / SS == i / SS)
    {
      if g.kind == Fat32 { AlignedFour(clst); } else { AlignedTwo(clst); }
    }

    /** What the window shows of the FAT. */
    lemma ShownByte(i: nat)
      requires Valid() && winsect == g.fatbase + i / SS && winsect < |disk|
      ensures win[i % SS] == FatByte(View(), g, i)
    {
    }

    lemma ShownSize()
      requires Valid()
      ensures |View()| == |disk| && Whole(View())
    {
    }

    /** The sectors of a cluster's entry can be brought into the window. */
    lemma EntrySectors(clst: nat)
      requires Valid() && clst < g.nFatent
      ensures |disk| < NO_SECTOR
      ensures forall k {:trigger k / SS} :: EntryAt(g.kind, clst) <= k < EntryAt(g.kind, clst) + EntryWidth(g.kind) ==>
                k / SS < g.fsize && g.fatbase + k / SS < |disk| && !InCopies(g, g.fatbase + k / SS)
    {
      Twelve(clst, g.nFatent);
      forall k | EntryAt(g.kind, clst) <= k < EntryAt(g.kind, clst) + EntryWidth(g.kind)
        ensures k / SS < g.fsize && g.fatbase + k / SS < |disk| && !InCopies(g, g.fatbase + k / SS)
      {
        Below(k, g.fsize);
      }
    }

    /** Entries of two and four bytes lie in one sector. */
    lemma SectorOfEntry(clst: nat)
      requires Valid() && clst < g.nFatent && g.kind != Fat12
      ensures var s := g.fatbase + if g.kind == Fat16 then clst / (SS / 2) else clst / (SS / 4);
        && s == g.fatbase + EntryAt(g.kind, clst) / SS && s < |disk| < NO_SECTOR && !InCopies(g, s)
    {
      EntrySectors(clst);
      var i := EntryAt(g.kind, clst);
      assert i / SS == if g.kind == Fat16 then clst / (SS / 2) else clst / (SS / 4);
    }

    lemma ShownSizes()
      requires Valid()
      ensures LaidSizes(g)
    {
    }

    lemma ShownFat()
      requires Valid()
      ensures HasFat(View(), g) && |View()| == |disk|
    {
    }

    lemma WindowInside()
      requires Valid() && wflag
      ensures winsect < |disk| && !InCopies(g, winsect) && g.fatbase + FatSectors(g) <= |disk| < NO_SECTOR
      ensures g.fsize <= FatSectors(g)
    {
    }
  }

  /** The disk after the copies of a FAT sector are written. */
  function Copied(g: Geometry, d: Sectors, s: nat, v: seq<byte>): Sectors
  {
    if g.nFats == 2 && s + g.fsize < |d| then d[s + g.fsize := v] else d
  }

  lemma CopySector(g: Geometry, s: nat)
    requires LaidSizes(g) && g.fatbase <= s < g.fatbase + g.fsize
    ensures g.nFats == 2 ==> InCopies(g, s + g.fsize) && s + g.fsize < g.fatbase + FatSectors(g)
  {
    assert g.nFats == 2 ==> FatSectors(g) == 2 * g.fsize;
  }

  /** The unsigned comparison of sync_window tells FAT sectors. */
  lemma InTable(g: Geometry, s: Word)
    requires g.fatbase + g.fsize < W32
    ensures (s - g.fatbase) % W32 < g.fsize <==> g.fatbase <= s < g.fatbase + g.fsize
  {
  }

  lemma SameSelf(g: Geometry, v: Sectors)
    ensures Same(g, v, v)
  {
  }

  /** A byte of the sector in the window. */
  lemma WindowByte(g: Geometry, v: Sectors, win: seq<byte>, i: nat)
    requires |win| == SS && g.fatbase + i / SS < |v| && win == v[g.fatbase + i / SS]
    ensures win[i % SS] == FatByte(v, g, i)
  {
  }

  /** The bytes of an aligned entry in the window. */
  lemma WindowBytes(g: Geometry, v: Sectors, win: seq<byte>, i: nat)
    requires |win| == SS && g.fatbase + i / SS < |v| && win == v[g.fatbase + i / SS]
    ensures i % 2 == 0 ==> i % SS + 1 < SS && win[i % SS] == FatByte(v, g, i) && win[i % SS + 1] == FatByte(v, g, i + 1)
    ensures i % 4 == 0 ==> i % SS + 3 < SS && win[i % SS + 2] == FatByte(v, g, i + 2) && win[i % SS + 3] == FatByte(v, g, i + 3)
  {
    var q, r := i / SS, i % SS;
    assert i == SS * q + r;
    if i % 2 == 0 { InSector(q, r, 1, 2); }
    if i % 4 == 0 { InSector(q, r, 2, 4); InSector(q, r, 3, 4); }
  }

  lemma AlignedTwo(c: nat)
    ensures (2 * c + 1) / SS == 2 * c / SS
  {
  }

  lemma AlignedFour(c: nat)
    ensures (4 * c + 1) / SS == 4 * c / SS && (4 * c + 2) / SS == 4 * c / SS && (4 * c + 3) / SS == 4 * c / SS
  {
  }

  lemma InSector(q: nat, r: nat, k: nat, m: nat)
    requires (m == 2 || m == 4) && k < m && r < SS && (SS * q + r) % m == 0
    ensures r + k < SS && (SS * q + r + k) / SS == q && (SS * q + r + k) % SS == r + k
  {
    if m == 2 { assert r % 2 == 0; } else { assert r % 4 == 0; }
  }

  lemma SameByte(g: Geometry, v: Sectors, w: Sectors, c: nat)
    requires Same(g, v, w) && HasFat(v, g) && c < g.nFatent && g.kind == Fat12
    ensures FatByte(w, g, c + c / 2 + 1) == FatByte(v, g, c + c / 2 + 1)
  {
    Twelve(c, g.nFatent);
    Below(c + c / 2 + 1, g.fsize);
    var s := g.fatbase + (c + c / 2 + 1) / SS;
    assert v[s] == w[s];
  }

  lemma EntryOf12(v: Sectors, g: Geometry, c: nat)
    requires g.kind == Fat12
    ensures var w := FatByte(v, g, c + c / 2) as int + 256 * FatByte(v, g, c + c / 2 + 1) as int;
      Entry(v, g, c) == if c % 2 == 1 then w / 16 else w % 0x1000
  {
  }

  /** The window's two bytes of an entry are the entry. */
  lemma WindowWord(g: Geometry, v: Sectors, win: seq<byte>, c: nat)
    requires g.kind == Fat16 && |win| == SS && g.fatbase + 2 * c / SS < |v| && win == v[g.fatbase + 2 * c / SS]
    ensures c * 2 % SS + 2 <= SS && LdWord(win, c * 2 % SS) == Entry(v, g, c)
  {
    hide FatByte;
    assert c * 2 == 2 * c;
    WindowBytes(g, v, win, 2 * c);
  }

  lemma EntryOf32(v: Sectors, g: Geometry, c: nat)
    requires g.kind == Fat32
    ensures Entry(v, g, c) == Raw(v, g, c) % 0x1000_0000
  {
    hide Raw;
  }

  /** The window's four bytes of an entry are its raw value. */
  lemma WindowDword(g: Geometry, v: Sectors, win: seq<byte>, c: nat)
    requires g.kind == Fat32 && |win| == SS && g.fatbase + 4 * c / SS < |v| && win == v[g.fatbase + 4 * c / SS]
    ensures c * 4 % SS + 4 <= SS && LdDword(win, c * 4 % SS) == Raw(v, g, c)
  {
    assert c * 4 % SS == Spot(c);
    hide FatByte, LdDword, Raw, Spot;
    WindowFour(g, v, win, c);
    QuadOf(win, Spot(c), FatByte(v, g, 4 * c), FatByte(v, g, 4 * c + 1), FatByte(v, g, 4 * c + 2), FatByte(v, g, 4 * c + 3));
    RawOf32(v, g, c);
  }

  /** Where in its sector a FAT32 entry is. */
  function Spot(c: nat): nat
  {
    4 * c % SS
  }

  lemma WindowFour(g: Geometry, v: Sectors, win: seq<byte>, c: nat)
    requires |win| == SS && g.fatbase + 4 * c / SS < |v| && win == v[g.fatbase + 4 * c / SS]
    ensures Spot(c) + 3 < SS && win[Spot(c)] == FatByte(v, g, 4 * c) && win[Spot(c) + 1] == FatByte(v, g, 4 * c + 1)
    ensures win[Spot(c) + 2] == FatByte(v, g, 4 * c + 2) && win[Spot(c) + 3] == FatByte(v, g, 4 * c + 3)
  {
    hide FatByte;
    Fourfold(c);
    WindowBytes(g, v, win, 4 * c);
  }

  lemma Fourfold(c: nat)
    ensures 4 * c % 4 == 0 && 4 * c % 2 == 0
  {
    RemainderIs(4 * c, 4, c, 0);
    RemainderIs(4 * c, 2, 2 * c, 0);
  }

  lemma QuadOf(s: seq<byte>, o: nat, a: byte, b: byte, c: byte, d: byte)
    requires o + 3 < |s| && s[o] == a && s[o + 1] == b && s[o + 2] == c && s[o + 3] == d
    ensures LdDword(s, o) == a as int + 256 * b as int + 0x1_0000 * c as int + 0x100_0000 * d as int
  {
  }

  lemma ViewChanged(d: Sectors, w: nat, was: seq<byte>, now: seq<byte>, k: nat, b: byte)
    requires w < |d| && k < |was| && now == was[k := b]
    ensures d[w := now] == d[w := was][w := now]
  {
  }

  /** Nothing but the entry of cluster c changed in the FAT. */
  ghost predicate OthersKept(g: Geometry, v: Sectors, w: Sectors, c: nat)
  {
    forall d {:trigger Entry(w, g, d)} :: 0 <= d < g.nFatent && d != c ==> Entry(w, g, d) == Entry(v, g, d)
  }

  lemma SameOthers(g: Geometry, v: Sectors, w: Sectors, c: nat)
    requires Same(g, v, w) && HasFat(v, g)
    ensures OthersKept(g, v, w, c)
  {
    forall d | 0 <= d < g.nFatent ensures Entry(w, g, d) == Entry(v, g, d) { SameEntry(g, v, w, d); }
  }

  lemma OthersTrans(g: Geometry, u: Sectors, v: Sectors, w: Sectors, c: nat)
    requires OthersKept(g, u, v, c) && OthersKept(g, v, w, c)
    ensures OthersKept(g, u, w, c)
  {
    forall d | 0 <= d < g.nFatent && d != c ensures Entry(w, g, d) == Entry(u, g, d) { assert Entry(v, g, d) == Entry(u, g, d); }
  }

  lemma FirstHalfRest(g: Geometry, v: Sectors, c: nat, val: nat)
    requires HasFat(v, g) && LaidSizes(g) && g.kind == Fat12 && IsCluster(g, c)
    ensures RestKept(g, v, SetByte(v, g.fatbase, c + c / 2, Low12(c, val, FatByte(v, g, c + c / 2))))
  {
    hide SetByte, Low12, FatByte, Entry, HasFat, ClusterSize;
    FirstHalf(g, v, c, val);
    EntryRoom(g, v, c);
    Below(c + c / 2, g.fsize);
    SetOutside(g, v, c + c / 2, Low12(c, val, FatByte(v, g, c + c / 2)));
  }

  lemma StoredFat(g: Geometry, v: Sectors, c: nat, val: Word)
    requires HasFat(v, g) && c < g.nFatent
    ensures HasFat(Stored(v, g, c, val), g)
  {
    hide Stored;
    StoreThenLoad(v, g, c, val, c);
  }

  lemma SetByteSame(g: Geometry, v: Sectors, w: Sectors, i: nat, b: byte)
    requires Same(g, v, w) && HasFat(v, g) && i / SS < g.fsize && Whole(w)
    ensures Same(g, SetByte(v, g.fatbase, i, b), SetByte(w, g.fatbase, i, b)) && HasFat(SetByte(v, g.fatbase, i, b), g)
  {
    assert v[g.fatbase + i / SS] == w[g.fatbase + i / SS];
    SetByteReads(v, g.fatbase, i, b, i);
  }

  /** After the first of the two writes only the entry itself may have changed. */
  lemma FirstHalf(g: Geometry, v: Sectors, c: nat, val: nat)
    requires HasFat(v, g) && g.kind == Fat12 && c < g.nFatent
    ensures OthersKept(g, v, SetByte(v, g.fatbase, c + c / 2, Low12(c, val, FatByte(v, g, c + c / 2))), c)
  {
    hide ByteAt, SetByte, Low12, High12, Entry, FatByte;
    EntryThere(v, g, c);
    var i := c + c / 2;
    var b := Low12(c, val, FatByte(v, g, i));
    var w := SetByte(v, g.fatbase, i, b);
    forall d: nat | d < g.nFatent && d != c ensures Entry(w, g, d) == Entry(v, g, d) {
      var j := EntryAt(Fat12, d);
      EntryIsTwelve(v, g, d); EntryIsTwelve(w, g, d);
      FatByteSet(g, v, i, b, j); FatByteSet(g, v, i, b, j + 1);
      NewBytes(c, val, FatByte(v, g, i), FatByte(v, g, i));
      Neighbours12(c, d);
    }
  }

  lemma FatByteSet(g: Geometry, v: Sectors, i: nat, b: byte, j: nat)
    requires Whole(v) && g.fatbase + i / SS < |v|
    ensures FatByte(SetByte(v, g.fatbase, i, b), g, j) == if i == j then b else FatByte(v, g, j)
  {
    SetByteReads(v, g.fatbase, i, b, j);
  }

  lemma StoredIs12(g: Geometry, v: Sectors, c: nat, val: nat)
    requires HasFat(v, g) && g.kind == Fat12 && c < g.nFatent
    ensures var i := c + c / 2; var v2 := SetByte(v, g.fatbase, i, Low12(c, val, FatByte(v, g, i)));
      Stored(v, g, c, val) == SetByte(v2, g.fatbase, i + 1, High12(c, val, FatByte(v2, g, i + 1)))
  {
  }

  lemma RawOf32(v: Sectors, g: Geometry, c: nat)
    requires g.kind == Fat32
    ensures Raw(v, g, c) == FatByte(v, g, 4 * c) as int + 256 * FatByte(v, g, 4 * c + 1) as int
                            + 0x1_0000 * FatByte(v, g, 4 * c + 2) as int + 0x100_0000 * FatByte(v, g, 4 * c + 3) as int
  {
  }

  lemma StoredIs16(g: Geometry, v: Sectors, c: nat, val: nat)
    requires g.kind == Fat16
    ensures Stored(v, g, c, val) == SetByte(SetByte(v, g.fatbase, 2 * c, val % 256), g.fatbase, 2 * c + 1, val / 256 % 256)
  {
    hide SetByte;
    var v1 := SetByte(v, g.fatbase, 2 * c, val % 256);
    assert StoredBytes(v1, g, 2 * c + 1, val / 256, 1) == SetByte(v1, g.fatbase, 2 * c + 1, val / 256 % 256);
  }

  /** The four bytes of w from byte i on. */
  function Bytes32(v: Sectors, g: Geometry, i: nat, w: Word): Sectors
  {
    var v2 := SetByte(SetByte(v, g.fatbase, i, w % 256), g.fatbase, i + 1, w / 256 % 256);
    SetByte(SetByte(v2, g.fatbase, i + 2, w / 0x1_0000 % 256), g.fatbase, i + 3, w / 0x100_0000 % 256)
  }

  lemma StoredIs32(g: Geometry, v: Sectors, c: nat, val: nat)
    requires g.kind == Fat32
    ensures Kept32(val, Raw(v, g, c)) < W32 && Stored(v, g, c, val) == Bytes32(v, g, 4 * c, Kept32(val, Raw(v, g, c)))
  {
    hide SetByte, Kept32, Raw;
    RawBound(v, g, c);
    KeptBound(val, Raw(v, g, c));
    var w, i := Kept32(val, Raw(v, g, c)), 4 * c;
    var v1 := SetByte(v, g.fatbase, i, w % 256);
    var v2 := SetByte(v1, g.fatbase, i + 1, w / 256 % 256);
    var v3 := SetByte(v2, g.fatbase, i + 2, w / 256 / 256 % 256);
    assert w / 256 / 256 == w / 0x1_0000 && w / 256 / 256 / 256 == w / 0x100_0000;
    assert StoredBytes(v3, g, i + 3, w / 256 / 256 / 256, 1) == SetByte(v3, g.fatbase, i + 3, w / 256 / 256 / 256 % 256);
    assert StoredBytes(v2, g, i + 2, w / 256 / 256, 2) == StoredBytes(v3, g, i + 3, w / 256 / 256 / 256, 1);
    assert StoredBytes(v1, g, i + 1, w / 256, 3) == StoredBytes(v2, g, i + 2, w / 256 / 256, 2);
  }

  /** Storing keeps volumes equal but for the copies. */
  lemma StoredSame(g: Geometry, v: Sectors, w: Sectors, c: nat, val: nat)
    requires Same(g, v, w) && HasFat(v, g) && Whole(w) && c < g.nFatent && g.kind != Fat12
    ensures Same(g, Stored(v, g, c, val), Stored(w, g, c, val))
  {
    hide SetByte, Raw, Kept32;
    SameEntry(g, v, w, c);
    Twelve(c, g.nFatent);
    var i, n := EntryAt(g.kind, c), EntryWidth(g.kind);
    BytesSame(g, v, w, i, if g.kind == Fat16 then val else Kept32(val, Raw(v, g, c)), n);
  }

  lemma {:induction false} BytesSame(g: Geometry, v: Sectors, w: Sectors, i: nat, x: nat, n: nat)
    requires Same(g, v, w) && HasFat(v, g) && Whole(w) && i + n <= g.fsize * SS
    ensures Same(g, StoredBytes(v, g, i, x, n), StoredBytes(w, g, i, x, n))
    decreases n
  {
    hide SetByte, Same;
    if n > 0 {
      Below(i, g.fsize);
      SetByteSame(g, v, w, i, x % 256);
      SetWhole(g, v, w, i, x % 256);
      BytesSame(g, SetByte(v, g.fatbase, i, x % 256), SetByte(w, g.fatbase, i, x % 256), i + 1, x / 256, n - 1);
    }
  }

  lemma SetWhole(g: Geometry, v: Sectors, w: Sectors, i: nat, b: byte)
    requires Same(g, v, w) && HasFat(v, g) && Whole(w) && i / SS < g.fsize
    ensures Whole(SetByte(w, g.fatbase, i, b))
  {
    SetByteReads(w, g.fatbase, i, b, i);
  }
}
