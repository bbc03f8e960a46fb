/** ff.c: the directory cursor, set by dir_sdi and moved on by dir_next. */
module FatDir {

  import opened Bytes
  import opened FatGeometry
  import opened FatTable
  import opened FatVolume
  import opened FatSpans
  import Words

  const MAX_DIR: nat := 0x20_0000
  const ENTRY: nat := 32

  /** The cluster n links after c, if there is one. */
  ghost function Follow(v: Sectors, g: Geometry, c: Word, n: nat): (r: Option<Word>)
  {
    if n == 0 then Some(c)
    else
      var p := Follow(v, g, c, n - 1);
      if p.Some? && IsCluster(g, p.value) && IsCluster(g, Entry(v, g, p.value)) then Some(Entry(v, g, p.value)) else None
  }

  datatype Cursor = Cursor(clust: Word, sect: nat, dir: nat)

  /** Where the entry at offset ofs of a directory is: in the static root table for start 0, else in its cluster chain. */
  ghost function At(v: Sectors, g: Geometry, start: Word, ofs: nat): Option<Cursor>
    requires g.csize > 0 && g.nFatent >= 2
  {
    if ofs >= MAX_DIR || ofs % ENTRY != 0 then None
    else if start == 0 then
      if ofs / ENTRY >= g.nRootdir then None else Some(Cursor(0, g.dirbase + ofs / SS, ofs % SS))
    else
      var c := Follow(v, g, start, ClusterOf(ofs, g.csize));
      if c.None? || Clust2Sect(g, c.value) == 0 then None
      else Some(Cursor(c.value, Clust2Sect(g, c.value) as int + SectorIn(ofs, g.csize), ofs % SS))
  }

  /** The chain ends with cluster c. */
  ghost predicate Ended(v: Sectors, g: Geometry, c: Word)
  {
    2 <= c < g.nFatent && Entry(v, g, c) >= g.nFatent
  }

  class Dir {
    const fs: Volume
    const sclust: Word
    var dptr: Word
    var clust: Word
    var sect: nat
    var dir: nat

    constructor (fs: Volume, sclust: Word)
      ensures this.fs == fs && this.sclust == sclust
    {
      this.fs, this.sclust := fs, sclust;
      dptr, clust, sect, dir := 0, 0, 0, 0;
    }

    ghost predicate Mounted()
      reads this, fs
    {
      fs.Valid() && !fs.wflag && Laid(fs.g, |fs.disk|)
    }

    /** The first cluster of the table: cluster 0 means the root. */
    function Start(): Word
    {
      if sclust == 0 && fs.g.kind == Fat32 then fs.g.dirbase else sclust
    }

    /** The cursor stands where the entry at this offset is. */
    ghost predicate Stands(ofs: nat)
      reads this, fs
      requires fs.g.csize > 0 && fs.g.nFatent >= 2
    {
      && dptr as int == ofs && sect > 0
      && At(fs.disk, fs.g, Start(), ofs) == Some(Cursor(clust, sect, dir))
    }

    /** What setting the cursor to an entry of the first cluster, c, does: no link is followed. */
    ghost predicate InFirst(c: Word, ofs: Word, res: FResult)
      reads this, fs
      requires fs.g.csize > 0 && fs.g.nFatent >= 2
    {
      2 <= c < fs.g.nFatent && ofs < 0x20_0000 && ofs % 32 == 0 && ofs < 512 * fs.g.csize ==>
        res == Ok && clust == c && sect == Clust2Sect(fs.g, c) as int + ofs as int / 512 && dir == ofs as int % 512
    }

    /** dir_sdi: the cursor is set if there is such an entry. */
    method Sdi(ofs: Word) returns (res: FResult)
      requires Mounted()
      modifies this`dptr, this`clust, this`sect, this`dir, fs`disk, fs`win, fs`winsect, fs`wflag, fs`failures
      ensures Mounted() && fs.disk == old(fs.disk) && fs.failures >= old(fs.failures) && fs.g.csize > 0 && fs.g.nFatent >= 2
      ensures res == Ok ==> Stands(ofs)
      ensures res == DiskErr ==> fs.failures > old(fs.failures)
      ensures res != Ok && res != DiskErr ==> res == IntErr && At(fs.disk, fs.g, Start(), ofs).None?
      ensures sclust == 0 && fs.g.kind != Fat32 ==>
                if ofs < 0x20_0000 && ofs % 32 == 0 && ofs / 32 < fs.g.nRootdir
                then res == Ok && clust == 0 && sect == fs.g.dirbase as int + ofs as int / 512 && dir == ofs as int % 512
                else res == IntErr
      ensures sclust == 0 && fs.g.kind == Fat32 ==> InFirst(fs.g.dirbase, ofs, res)
      ensures sclust != 0 ==> InFirst(sclust, ofs, res)
    {
      hide ClusterSize, FatBytes, LaidOrder, LaidSizes, ClusterOf, SectorIn, Clust2Sect, Follow, At;
      ghost var d, g := fs.disk, fs.g;
      LaidCsize(g, |d|);
      AtRoot(d, g, Start(), ofs);
      if ofs as int >= MAX_DIR || ofs as int % ENTRY != 0 {
        return IntErr;
      }
      dptr := ofs;
      var clst := Start();
      if clst == 0 {
        if ofs as int / ENTRY >= fs.g.nRootdir as int {
          return IntErr;
        }
        RootBase(g, |d|);
        sect := fs.g.dirbase;
        clust := clst;
        sect := sect + ofs / SS;
        dir := ofs % SS;
        return Ok;
      }
      var csz := fs.g.csize * SS;
      var left: nat := ofs;
      ghost var k := 0;
      StartNext(0, g.csize);
      FollowZero(d, g, clst);
      while left >= csz
        invariant Mounted() && fs.disk == d && fs.failures >= old(fs.failures) && dptr == ofs
        invariant ofs as int == StartOf(k, g.csize) + left && Follow(d, g, Start(), k) == Some(clst)
        invariant ofs < csz ==> left == ofs && clst == Start()
        decreases left
      {
        CszPositive(g.csize);
        ViewIsDisk();
        ghost var was := clst;
        clst := fs.GetFat(clst);
        if clst == NO_SECTOR {
          return DiskErr;
        }
        FollowOn(d, g, Start(), k, was, clst);
        StartNext(k, g.csize);
        if clst < 2 || clst >= fs.g.nFatent {
          NoFurther(d, g, Start(), k + 1, ofs);
          return IntErr;
        }
        left := left - csz;
        k := k + 1;
      }
      ClusterBetween(ofs, k, g.csize);
      SectorBetween(ofs, k, g.csize);
      ClusterPlace(g, |d|, clst);
      AtCluster(d, g, Start(), ofs, clst);
      sect := Clust2Sect(fs.g, clst);
      clust := clst;
      if sect == 0 {
        return IntErr;
      }
      sect := sect + left / SS;
      dir := ofs % SS;
      res := Ok;
    }

    lemma ViewIsDisk()
      requires Mounted()
      ensures fs.View() == fs.disk
    {
      hide FatBytes, LaidOrder, LaidSizes;
    }

    /** The step to the next cluster of the table, the k-th being over. */
    method Hop(ghost k: nat) returns (res: FResult)
      requires Mounted() && fs.g.csize > 0 && fs.g.nFatent >= 2
      requires Follow(fs.disk, fs.g, Start(), k) == Some(clust)
      modifies this`clust, this`sect, fs`disk, fs`win, fs`winsect, fs`wflag, fs`failures
      ensures Mounted() && fs.disk == old(fs.disk) && fs.failures >= old(fs.failures)
      ensures res == DiskErr ==> fs.failures > old(fs.failures)
      ensures res == Ok ==> IsCluster(fs.g, clust) && Follow(fs.disk, fs.g, Start(), k + 1) == Some(clust)
      ensures res == Ok ==> sect == Clust2Sect(fs.g, clust) as int > 0
      ensures res != Ok && res != DiskErr ==> Follow(fs.disk, fs.g, Start(), k + 1).None?
      ensures res == NoFile ==> Ended(fs.disk, fs.g, old(clust))
      ensures res != Ok && res != DiskErr && res != NoFile ==> res == IntErr && !Ended(fs.disk, fs.g, old(clust))
    {
      hide ClusterSize, FatBytes, LaidOrder, LaidSizes, Clust2Sect, Follow;
      ghost var d, g := fs.disk, fs.g;
      ViewIsDisk();
      ghost var c0 := clust;
      var clst := fs.GetFat(clust);
      FollowOn(d, g, Start(), k, c0, clst);
      if clst <= 1 {
        return IntErr;
      }
      if clst == NO_SECTOR {
        return DiskErr;
      }
      if clst >= fs.g.nFatent {
        sect := 0;
        return NoFile;
      }
      clust := clst;
      sect := Clust2Sect(fs.g, clst);
      ClusterPlace(g, |d|, clst);
      res := Ok;
    }

    /** dir_next, without stretching: to the next entry if there is one. */
    method Next() returns (res: FResult)
      requires Mounted() && fs.g.csize > 0 && fs.g.nFatent >= 2 && Stands(dptr)
      modifies this`dptr, this`clust, this`sect, this`dir, fs`disk, fs`win, fs`winsect, fs`wflag, fs`failures
      ensures Mounted() && fs.disk == old(fs.disk) && fs.failures >= old(fs.failures)
      ensures res == Ok ==> Stands(old(dptr) + ENTRY)
      ensures res == DiskErr ==> fs.failures > old(fs.failures)
      ensures res != Ok && res != DiskErr ==> At(fs.disk, fs.g, Start(), old(dptr) + ENTRY).None?
      ensures res != Ok ==> dptr == old(dptr)
      ensures res != Ok && res != DiskErr ==> res == NoFile || res == IntErr
      ensures res == NoFile ==> old(dptr) + 32 >= 0x20_0000 || (old(clust) == 0 && (old(dptr) + 32) / 32 >= fs.g.nRootdir)
                                || (old(clust) != 0 && Ended(fs.disk, fs.g, old(clust)))
      ensures res == IntErr ==> old(clust) != 0 && !Ended(fs.disk, fs.g, old(clust))
    {
      hide ClusterSize, FatBytes, LaidOrder, LaidSizes, ClusterOf, SectorIn, Clust2Sect, Follow, Words.And;
      ghost var d, g, was := fs.disk, fs.g, dptr;
      LaidCsize(g, |d|);
      var ofs: nat := dptr + ENTRY;
      if sect == 0 || ofs >= MAX_DIR {
        return NoFile;
      }
      if ofs % SS == 0 {
        SectorStep(was, g.csize);
        sect := sect + 1;
        if clust == 0 {
          NoCluster(d, g, Start(), was);
          if ofs / ENTRY >= fs.g.nRootdir as int {
            sect := 0;
            return NoFile;
          }
        } else {
          MaskIsMod(ofs / SS, g.csize);
          if Words.And(ofs / SS, fs.g.csize - 1) == 0 {
            HasCluster(d, g, Start(), was, clust);
            res := Hop(ClusterOf(was, g.csize));
            if res != Ok {
              return;
            }
          }
        }
      } else {
        SameSectorStep(was, g.csize);
        if Start() == 0 { StaticStep(g, |d|, was); }
      }
      dptr := ofs;
      dir := ofs % SS;
      res := Ok;
    }

    /** From the start, k steps: the cursor dir_sdi sets for the k-th entry, or an entry on the way is not there. */
    method Advance(k: nat) returns (res: FResult, j: nat)
      requires Mounted()
      modifies this`dptr, this`clust, this`sect, this`dir, fs`disk, fs`win, fs`winsect, fs`wflag, fs`failures
      ensures Mounted() && fs.disk == old(fs.disk) && fs.failures >= old(fs.failures) && fs.g.csize > 0 && fs.g.nFatent >= 2
      ensures res == Ok ==> Stands(k * ENTRY)
      ensures res == DiskErr ==> fs.failures > old(fs.failures)
      ensures res != Ok && res != DiskErr ==> j <= k && At(fs.disk, fs.g, Start(), j * ENTRY).None?
    {
      hide Stands, At;
      res := Sdi(0);
      j := 0;
      while res == Ok && j < k
        invariant Mounted() && fs.disk == old(fs.disk) && fs.failures >= old(fs.failures) && fs.g.csize > 0 && fs.g.nFatent >= 2 && j <= k
        invariant res == Ok ==> Stands(j * ENTRY)
        invariant res == DiskErr ==> fs.failures > old(fs.failures)
        invariant res != Ok && res != DiskErr ==> At(fs.disk, fs.g, Start(), j * ENTRY).None?
        decreases k - j, res == Ok
      {
        StandsThere(j * ENTRY);
        res := Next();
        j := j + 1;
      }
    }

    lemma StandsThere(ofs: nat)
      requires fs.g.csize > 0 && fs.g.nFatent >= 2 && Stands(ofs)
      ensures dptr as int == ofs && Stands(dptr)
    {
    }
  }

  /** Offsets beyond a directory, and those in the static root. */
  lemma AtRoot(v: Sectors, g: Geometry, start: Word, ofs: nat)
    requires g.csize > 0 && g.nFatent >= 2
    ensures ofs >= MAX_DIR || ofs % ENTRY != 0 ==> At(v, g, start, ofs).None?
    ensures ofs < MAX_DIR && ofs % ENTRY == 0 && start == 0 ==>
              At(v, g, start, ofs) == if ofs / ENTRY >= g.nRootdir then None else Some(Cursor(0, g.dirbase + ofs / SS, ofs % SS))
  {
    hide Follow, ClusterOf, SectorIn, Clust2Sect;
  }

  lemma AtCluster(v: Sectors, g: Geometry, start: Word, ofs: nat, c: Word)
    requires g.csize > 0 && g.nFatent >= 2 && ofs < MAX_DIR && ofs % ENTRY == 0 && start != 0
    requires Follow(v, g, start, ClusterOf(ofs, g.csize)) == Some(c)
    ensures At(v, g, start, ofs)
         == if Clust2Sect(g, c) == 0 then None else Some(Cursor(c, Clust2Sect(g, c) as int + SectorIn(ofs, g.csize), ofs % SS))
  {
    hide Follow, ClusterOf, SectorIn, Clust2Sect;
  }

  /** A directory in a chain of clusters: the entry at an offset is in the cluster that many clusters on, in the sector and at the
      place in it that the rest of the offset tells. */
  lemma {:induction false} EntryInChain(v: Sectors, g: Geometry, end: nat, chain: seq<Word>, ofs: nat)
    requires Laid(g, end) && g.csize > 0 && chain != [] && ofs < 0x20_0000 && ofs % 32 == 0 && ofs / (512 * g.csize) < |chain|
    requires forall i :: 0 <= i < |chain| ==> 2 <= chain[i] < g.nFatent
    requires forall i :: 0 <= i < |chain| - 1 ==> Entry(v, g, chain[i]) == chain[i + 1]
    ensures g.nFatent >= 2 && var c := chain[ofs / (512 * g.csize)];
      At(v, g, chain[0], ofs) == Some(Cursor(c, Clust2Sect(g, c) as int + ofs / 512 % g.csize, ofs % 512))
  {
    hide ClusterSize, FatBytes, LaidOrder, LaidSizes, Clust2Sect, Follow;
    LaidCsize(g, end);
    var n := ofs / (512 * g.csize);
    assert ClusterOf(ofs, g.csize) == n;
    FollowChain(v, g, chain, n);
    ClusterPlace(g, end, chain[n]);
    InsideVolume(g, end, chain[n]);
  }

  lemma {:induction false} FollowChain(v: Sectors, g: Geometry, chain: seq<Word>, n: nat)
    requires n < |chain| && forall i :: 0 <= i < |chain| ==> 2 <= chain[i] < g.nFatent
    requires forall i :: 0 <= i < |chain| - 1 ==> Entry(v, g, chain[i]) == chain[i + 1]
    ensures Follow(v, g, chain[0], n) == Some(chain[n])
  {
    if n > 0 { FollowChain(v, g, chain, n - 1); }
  }

  lemma InsideVolume(g: Geometry, end: nat, c: Word)
    requires Laid(g, end) && g.nFatent >= 2 && Clust2Sect(g, c) as int >= g.fatbase + g.fsize * g.nFats
    ensures Clust2Sect(g, c) != 0
  {
    hide ClusterSize, FatBytes, LaidSizes, Clust2Sect;
    assert g.fsize * g.nFats >= 0;
  }

  lemma LaidCsize(g: Geometry, end: nat)
    requires Laid(g, end)
    ensures ClusterSize(g.csize) && g.csize > 0 && g.nFatent >= 3 && g.csize * SS == ClusterBytes(g.csize) && g.nRootdir % 16 == 0
  {
  }

  lemma RootBase(g: Geometry, end: nat)
    requires Laid(g, end)
    ensures if g.kind == Fat32 then g.nRootdir == 0 else g.dirbase > 0
  {
  }

  lemma CszPositive(c: nat)
    requires ClusterSize(c)
    ensures ClusterBytes(c) > 0
  {
  }

  lemma FollowZero(v: Sectors, g: Geometry, c: Word)
    ensures Follow(v, g, c, 0) == Some(c)
  {
  }

  /** One link followed. */
  lemma FollowOn(v: Sectors, g: Geometry, start: Word, k: nat, was: Word, clst: Word)
    requires Follow(v, g, start, k) == Some(was)
    requires if IsCluster(g, was) then clst == Entry(v, g, was) || clst == NO_SECTOR else clst == 1
    ensures clst != NO_SECTOR ==> Follow(v, g, start, k + 1) == if IsCluster(g, clst) then Some(clst) else None
  {
  }

  lemma {:induction false} FollowEnds(v: Sectors, g: Geometry, start: Word, k: nat, n: nat)
    requires Follow(v, g, start, k).None? && k <= n
    ensures Follow(v, g, start, n).None?
  {
    if k < n { FollowEnds(v, g, start, k, n - 1); }
  }

  /** The chain ends before the offset. */
  lemma NoFurther(v: Sectors, g: Geometry, start: Word, k: nat, ofs: nat)
    requires ClusterSize(g.csize) && g.csize > 0 && g.nFatent >= 2 && start != 0
    requires Follow(v, g, start, k).None? && StartOf(k, g.csize) <= ofs
    ensures At(v, g, start, ofs).None?
  {
    hide ClusterSize, ClusterOf, StartOf, Follow;
    var n := ClusterOf(ofs, g.csize);
    ClusterBetween(ofs, n, g.csize);
    if n < k {
      StartNext(n, g.csize);
      StartsMonotone(n + 1, k, g.csize);
    }
    FollowEnds(v, g, start, k, n);
  }

  /** From the last entry of a sector to the first of the next. */
  lemma SectorStep(was: nat, c: nat)
    requires ClusterSize(c) && c > 0 && was % ENTRY == 0 && (was + ENTRY) % SS == 0
    ensures (was + ENTRY) / SS == was / SS + 1
    ensures if SectorIn(was, c) + 1 < c
            then ClusterOf(was + ENTRY, c) == ClusterOf(was, c) && SectorIn(was + ENTRY, c) == SectorIn(was, c) + 1 && SectorIn(was + ENTRY, c) != 0
            else ClusterOf(was + ENTRY, c) == ClusterOf(was, c) + 1 && SectorIn(was + ENTRY, c) == 0
    ensures (was + ENTRY) / SS % c == SectorIn(was + ENTRY, c)
  {
    hide ClusterSize, ClusterOf;
    NextSector(was, c);
    SameSector(was + ENTRY, was + SS, c);
  }

  /** To the next entry of the same sector. */
  lemma SameSectorStep(was: nat, c: nat)
    requires ClusterSize(c) && c > 0 && was % ENTRY == 0 && (was + ENTRY) % SS != 0
    ensures (was + ENTRY) / SS == was / SS && ClusterOf(was + ENTRY, c) == ClusterOf(was, c) && SectorIn(was + ENTRY, c) == SectorIn(was, c)
  {
    hide ClusterSize, ClusterOf;
    assert (was + ENTRY) / SS == was / SS;
    SameSector(was + ENTRY, was, c);
  }

  /** A static table ends at a sector boundary, so entries of the last sector are all in it. */
  lemma StaticStep(g: Geometry, end: nat, was: nat)
    requires Laid(g, end) && was % ENTRY == 0 && (was + ENTRY) % SS != 0 && was / ENTRY < g.nRootdir
    ensures (was + ENTRY) / ENTRY < g.nRootdir
  {
  }

  lemma ZeroCluster(g: Geometry)
    requires g.nFatent >= 2
    ensures Clust2Sect(g, 0) == 0
  {
  }

  lemma NoCluster(v: Sectors, g: Geometry, start: Word, was: nat)
    requires g.csize > 0 && g.nFatent >= 2 && At(v, g, start, was).Some? && At(v, g, start, was).value.clust == 0
    ensures start == 0
  {
    hide ClusterOf, SectorIn, Follow, Clust2Sect;
    ZeroCluster(g);
  }

  lemma HasCluster(v: Sectors, g: Geometry, start: Word, was: nat, c: Word)
    requires g.csize > 0 && g.nFatent >= 2 && At(v, g, start, was).Some? && At(v, g, start, was).value.clust == c && c != 0
    ensures start != 0 && Follow(v, g, start, ClusterOf(was, g.csize)) == Some(c)
  {
    hide ClusterOf, SectorIn, Follow, Clust2Sect;
  }
}
