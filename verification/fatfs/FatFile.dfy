/** ff.c: f_read and f_lseek over a cluster chain, with one private sector buffer per file. */
module FatFile {

  import opened Bytes
  import opened FatGeometry
  import opened FatTable
  import opened FatVolume
  import opened FatSpans
  import Words

  // ----- what a file contains

  /** The clusters of a chain follow one another in the FAT. */
  ghost predicate Chained(v: Sectors, g: Geometry, chain: seq<Word>)
  {
    && AllClusters(g, chain)
    && forall i {:trigger LinkAt(v, g, chain, i)} :: 0 <= i < |chain| - 1 ==> LinkAt(v, g, chain, i)
  }

  ghost predicate AllClusters(g: Geometry, chain: seq<Word>)
  {
    forall i {:trigger chain[i]} :: 0 <= i < |chain| ==> IsCluster(g, chain[i])
  }

  ghost predicate LinkAt(v: Sectors, g: Geometry, chain: seq<Word>, i: int)
    requires 0 <= i < |chain| - 1
  {
    Entry(v, g, chain[i]) == chain[i + 1] as int
  }

  /** The chain has a cluster for every byte of the file. */
  ghost predicate Covers(g: Geometry, chain: seq<Word>, size: int)
  {
    ClusterSize(g.csize) && 0 <= size <= StartOf(|chain|, g.csize)
  }

  /** The disk sector of byte i. */
  ghost function SectorOf(g: Geometry, chain: seq<Word>, i: nat): nat
    requires g.csize > 0 && g.nFatent >= 2
  {
    if ClusterOf(i, g.csize) < |chain| then Clust2Sect(g, chain[ClusterOf(i, g.csize)]) as int + SectorIn(i, g.csize) else 0
  }

  /** The bytes of a file of this chain and size. */
  ghost function Content(d: Sectors, g: Geometry, chain: seq<Word>, size: nat): (r: seq<byte>)
    requires g.csize > 0 && g.nFatent >= 2
    ensures |r| == size
  {
    seq(size, i requires 0 <= i < size => ByteOf(d, SectorOf(g, chain, i), i % SS))
  }

  function ByteOf(d: Sectors, s: nat, o: nat): byte
  {
    if s < |d| && o < |d[s]| then d[s][o] else 0
  }

  /** A byte of the file is in a sector of the data area. */
  lemma SectorThere(g: Geometry, end: nat, chain: seq<Word>, size: nat, i: nat)
    requires Laid(g, end) && Covers(g, chain, size) && i < size && AllClusters(g, chain)
    ensures ClusterOf(i, g.csize) < |chain| && SectorIn(i, g.csize) < g.csize
    ensures var c := chain[ClusterOf(i, g.csize)];
      && Clust2Sect(g, c) > 0 && SectorOf(g, chain, i) == Clust2Sect(g, c) as int + SectorIn(i, g.csize)
      && Clust2Sect(g, c) + g.csize <= end && 0 < SectorOf(g, chain, i) < end
  {
    hide ClusterSize, Clust2Sect, FatBytes, LaidOrder;
    var k := ClusterOf(i, g.csize);
    LaidCluster(g, end);
    ClusterBetween(i, k, g.csize);
    SectorBetween(i, k, g.csize);
    StartsOrdered(k, |chain|, g.csize);
    ClusterPlace(g, end, chain[k]);
  }

  /** Byte i of a file: in its cluster of 512 * csize bytes, counted along the chain, in its sector there, at its place in that
      sector; cluster 2 being the first behind the root directory. */
  lemma FileByte(d: Sectors, g: Geometry, end: nat, chain: seq<Word>, size: nat, i: nat)
    requires Laid(g, end) && end <= |d| && Covers(g, chain, size) && AllClusters(g, chain) && i < size
    ensures g.csize > 0 && g.nFatent >= 2 && i / (512 * g.csize) < |chain| && chain[i / (512 * g.csize)] >= 2
    ensures var s := g.database + (chain[i / (512 * g.csize)] - 2) * g.csize + i / 512 % g.csize;
      0 <= s < |d| && (|d[s]| == 512 ==> Content(d, g, chain, size)[i] == d[s][i % 512])
  {
    hide ClusterSize, Clust2Sect, FatBytes, LaidOrder, Content;
    LaidCluster(g, end);
    SectorThere(g, end, chain, size, i);
    assert ClusterOf(i, g.csize) == i / (512 * g.csize);
    ClusterPlace(g, end, chain[ClusterOf(i, g.csize)]);
    ContentAt(d, g, chain, size, i);
  }

  lemma LaidCluster(g: Geometry, end: nat)
    requires Laid(g, end)
    ensures ClusterSize(g.csize) && g.csize > 0 && g.nFatent >= 3
  {
  }

  /** Later clusters start later. */
  lemma StartsOrdered(k: nat, n: nat, c: nat)
    requires ClusterSize(c) && StartOf(k, c) < StartOf(n, c)
    ensures k < n
  {
    ConstantStarts(k, c); ConstantStarts(n, c);
  }

  // ----- pieces of the content

  /** Bytes within one sector. */
  lemma ContentInSector(d: Sectors, g: Geometry, chain: seq<Word>, size: nat, i: nat, n: nat)
    requires ClusterSize(g.csize) && g.csize > 0 && g.nFatent >= 2 && i + n <= size && i % SS + n <= SS
    requires SectorOf(g, chain, i) < |d| && |d[SectorOf(g, chain, i)]| == SS
    ensures Content(d, g, chain, size)[i..i + n] == d[SectorOf(g, chain, i)][i % SS..i % SS + n]
  {
    hide ClusterSize, SectorOf, Content;
    var c, s := Content(d, g, chain, size), SectorOf(g, chain, i);
    var x, y := c[i..i + n], d[s][i % SS..i % SS + n];
    forall k | 0 <= k < n ensures x[k] == y[k] {
      WithinSector(i, k);
      SectorStays(g, chain, i, i + k);
      ContentAt(d, g, chain, size, i + k);
    }
  }

  lemma ContentAt(d: Sectors, g: Geometry, chain: seq<Word>, size: nat, i: nat)
    requires g.csize > 0 && g.nFatent >= 2 && i < size
    ensures Content(d, g, chain, size)[i] == ByteOf(d, SectorOf(g, chain, i), i % SS)
  {
    hide SectorOf;
  }

  lemma SectorStays(g: Geometry, chain: seq<Word>, i: nat, j: nat)
    requires ClusterSize(g.csize) && g.csize > 0 && g.nFatent >= 2 && i / SS == j / SS
    ensures SectorOf(g, chain, j) == SectorOf(g, chain, i)
  {
    hide ClusterSize, ClusterOf, SectorIn, Clust2Sect;
    SameSector(i, j, g.csize);
  }

  lemma WithinSector(i: nat, k: nat)
    requires i % SS + k < SS
    ensures (i + k) / SS == i / SS && (i + k) % SS == i % SS + k
  {
  }

  /** n sectors one after the other. */
  function Run(d: Sectors, s: nat, n: nat): seq<byte>
    requires s + n <= |d|
    decreases n
  {
    if n == 0 then [] else d[s] + Run(d, s + 1, n - 1)
  }

  /** Whole sectors of one cluster. */
  lemma {:induction false} ContentOfRun(d: Sectors, g: Geometry, end: nat, chain: seq<Word>, size: nat, i: nat, n: nat)
    requires Laid(g, end) && end <= |d| && Whole(d) && Covers(g, chain, size) && i % SS == 0 && i + n * SS <= size
    requires AllClusters(g, chain)
    requires SectorIn(i, g.csize) + n <= g.csize
    ensures n > 0 ==> SectorOf(g, chain, i) + n <= |d| && Content(d, g, chain, size)[i..i + n * SS] == Run(d, SectorOf(g, chain, i), n)
    decreases n
  {
    hide ClusterSize, ClusterOf, SectorIn, Clust2Sect, FatBytes, LaidOrder, LaidSizes, SectorOf, Content;
    if n > 0 {
      LaidCluster(g, end);
      var s := SectorOf(g, chain, i);
      SectorThere(g, end, chain, size, i);
      ContentInSector(d, g, chain, size, i, SS);
      var c := Content(d, g, chain, size);
      if n > 1 {
        NextSector(i, g.csize);
        SectorThere(g, end, chain, size, i + SS);
        ContentOfRun(d, g, end, chain, size, i + SS, n - 1);
        assert c[i..i + n * SS] == c[i..i + SS] + c[i + SS..i + SS + (n - 1) * SS];
      } else {
        assert Run(d, s + 1, 0) == [];
      }
    }
  }

  // ----- files

  datatype Call = SeekTo(ofs: nat) | ReadUpTo(n: nat)

  /** What the reads among calls give for a file of these bytes, from this position. */
  ghost function Expected(content: seq<byte>, pos: nat, calls: seq<Call>): seq<seq<byte>>
    requires pos <= |content|
    decreases |calls|
  {
    if calls == [] then []
    else
      match calls[0]
      case SeekTo(ofs) => Expected(content, if ofs > |content| then |content| else ofs, calls[1..])
      case ReadUpTo(n) =>
        var end := if n > |content| - pos then |content| else pos + n;
        [content[pos..end]] + Expected(content, end, calls[1..])
  }

  class File {
    const fs: Volume
    const sclust: Word
    const objsize: Word
    var fptr: Word
    var clust: Word
    var sect: Word
    var buf: seq<byte>
    var err: FResult

    /** The volume is mounted without write access and holds all sectors of its clusters. */
    ghost predicate Mounted()
      reads this, fs
    {
      fs.Valid() && !fs.wflag && Laid(fs.g, |fs.disk|)
    }

    /** chain is the file's cluster chain on this disk. */
    ghost predicate Has(chain: seq<Word>)
      reads this, fs
    {
      && Mounted() && Chained(fs.disk, fs.g, chain) && Covers(fs.g, chain, objsize)
      && (chain != [] ==> sclust == chain[0])
    }

    /** Between calls: clust holds the last byte before the pointer, and the buffer the sector sect names, which
        is that of the pointer unless the pointer is sector aligned. */
    ghost predicate Inv(chain: seq<Word>)
      reads this, fs
    {
      && Has(chain) && fptr <= objsize && err == Ok
      && (fptr > 0 ==> ClusterOf(fptr - 1, fs.g.csize) < |chain| && clust == chain[ClusterOf(fptr - 1, fs.g.csize)])
      && (fptr % SS != 0 ==> sect as int == SectorOf(fs.g, chain, fptr - 1) && sect > 0)
      && (sect > 0 ==> sect < |fs.disk| && buf == fs.disk[sect])
    }

    /** The end of f_open: the file object of a directory entry with this start cluster and size. */
    constructor (fs: Volume, sclust: Word, objsize: Word, ghost chain: seq<Word>)
      requires fs.Valid() && !fs.wflag && Laid(fs.g, |fs.disk|) && Chained(fs.disk, fs.g, chain) && Covers(fs.g, chain, objsize)
      requires chain != [] ==> sclust == chain[0]
      ensures this.fs == fs && this.sclust == sclust && this.objsize == objsize && fptr == 0 && Inv(chain)
    {
      this.fs, this.sclust, this.objsize := fs, sclust, objsize;
      fptr, clust, sect, buf, err := 0, 0, 0, [], Ok;
    }

    /** The file, as a byte sequence. */
    ghost function Bytes(chain: seq<Word>): seq<byte>
      requires Has(chain)
      reads this, fs
    {
      LaidCluster(fs.g, |fs.disk|);
      Content(fs.disk, fs.g, chain, objsize)
    }

    /** The cluster and sector of an aligned pointer; the chain is followed at a cluster boundary. */
    method Locate(ghost chain: seq<Word>) returns (res: FResult, s: Word, csect: nat)
      requires Inv(chain) && fptr < objsize && fptr % SS == 0
      modifies this`clust, fs`disk, fs`win, fs`winsect, fs`wflag, fs`failures
      ensures fs.disk == old(fs.disk) && Has(chain) && fs.failures >= old(fs.failures)
      ensures res == Ok || (res == DiskErr && fs.failures > old(fs.failures))
      ensures res == Ok ==>
                && ClusterOf(fptr, fs.g.csize) < |chain| && clust == chain[ClusterOf(fptr, fs.g.csize)]
                && csect == SectorIn(fptr, fs.g.csize) && s as int == SectorOf(fs.g, chain, fptr) && s > 0
    {
      hide ClusterSize, FatBytes, LaidOrder, LaidSizes, ClusterOf, SectorIn, SectorOf, Covers, Words.And, Clust2Sect, IsCluster;
      ghost var d := fs.disk;
      var g := fs.g;
      LaidCluster(g, |d|);
      ChainClusters(d, g, chain);
      SectorThere(g, |d|, chain, objsize, fptr);
      MaskIsMod(fptr / SS, g.csize);
      res, s := IntErr, 0;
      csect := Words.And(fptr / SS, g.csize - 1);
      SectorMod(fptr, g.csize);
      if csect == 0 {
        var clst: Word;
        FirstOfCluster(fptr, g.csize);
        if fptr == 0 {
          clst := sclust;
        } else {
          LinkedCluster(d, g, chain, ClusterOf(fptr - 1, g.csize));
          ViewIsDisk();
          clst := fs.GetFat(clust);
        }
        ClusterNumber(d, g, chain, ClusterOf(fptr, g.csize));
        if clst < 2 {
          return;
        }
        if clst == NO_SECTOR {
          return DiskErr, 0, csect;
        }
        clust := clst;
      } else {
        InsideCluster(fptr, g.csize);
      }
      s := Clust2Sect(g, clust);
      if s == 0 {
        return;
      }
      SectorFits(g, |d|, s, csect);
      s := s + csect;
      res := Ok;
    }

    /** disk_read of n sectors into the caller's memory. */
    method ReadSectors(s: Word, n: nat) returns (ok: bool, data: seq<byte>)
      requires s + n <= |fs.disk|
      modifies fs`failures
      ensures fs.failures >= old(fs.failures)
      ensures ok ==> data == Run(fs.disk, s, n)
      ensures !ok ==> fs.failures > old(fs.failures)
    {
      ok := *;
      if !ok {
        fs.failures := fs.failures + 1;
        return false, [];
      }
      data := Run(fs.disk, s, n);
    }

    /** The pointer is aligned and clust holds its cluster. */
    ghost predicate Located(chain: seq<Word>, s: Word, csect: nat)
      reads this, fs
    {
      && Has(chain) && err == Ok && fptr < objsize && fptr % SS == 0
      && ClusterOf(fptr, fs.g.csize) < |chain| && clust == chain[ClusterOf(fptr, fs.g.csize)]
      && csect == SectorIn(fptr, fs.g.csize) && s as int == SectorOf(fs.g, chain, fptr) && s > 0
      && (sect > 0 ==> sect < |fs.disk| && buf == fs.disk[sect])
    }

    /** Whole sectors go straight to the caller, at most to the end of the cluster. */
    method ReadRun(s: Word, csect: nat, want: nat, ghost chain: seq<Word>) returns (res: FResult, piece: seq<byte>)
      requires Located(chain, s, csect) && SS <= want && fptr + want <= objsize
      modifies this`fptr, this`err, fs`failures
      ensures Has(chain) && fs.failures >= old(fs.failures)
      ensures res == Ok ==> Inv(chain) && 0 < |piece| <= want && fptr as int == old(fptr) + |piece|
      ensures res == Ok ==> piece == Bytes(chain)[old(fptr)..fptr]
      ensures res != Ok ==> res == err == DiskErr && fs.failures > old(fs.failures) && fptr == old(fptr)
    {
      hide ClusterSize, FatBytes, LaidOrder, LaidSizes, ClusterOf, SectorIn, SectorOf, Covers, Clust2Sect, IsCluster, Content, Chained;
      ghost var d, g := fs.disk, fs.g;
      LaidCluster(g, |d|);
      ChainClusters(d, g, chain);
      SectorThere(g, |d|, chain, objsize, fptr);
      var cc := want / SS;
      if csect + cc > fs.g.csize {
        cc := fs.g.csize - csect;
      }
      RunInside(g, |d|, chain, objsize, fptr, cc);
      var ok;
      ok, piece := ReadSectors(s, cc);
      if !ok {
        res, err := DiskErr, DiskErr;
        return;
      }
      RunSize(d, s, cc);
      ContentOfRun(d, g, |d|, chain, objsize, fptr, cc);
      AfterRun(fptr, g.csize, cc);
      fptr := fptr + cc * SS;
      res := Ok;
    }

    /** The sector of the pointer is brought into the buffer, if it is not there. */
    method FillBuffer(s: Word, csect: nat, ghost chain: seq<Word>) returns (res: FResult)
      requires Located(chain, s, csect)
      modifies this`sect, this`buf, this`err, fs`failures
      ensures Has(chain) && fs.failures >= old(fs.failures)
      ensures res == Ok ==> Located(chain, s, csect) && sect == s
      ensures res != Ok ==> res == err == DiskErr && fs.failures > old(fs.failures)
    {
      hide ClusterSize, FatBytes, LaidOrder, LaidSizes, ClusterOf, SectorIn, SectorOf, Covers, Clust2Sect, IsCluster, Content, Chained;
      if sect != s {
        var ok, data := fs.DiskRead(s);
        if !ok {
          res, err := DiskErr, DiskErr;
          return;
        }
        buf := data;
      }
      sect := s;
      res := Ok;
    }

    /** Part of the buffered sector. */
    method TakePart(want: nat, ghost chain: seq<Word>) returns (piece: seq<byte>)
      requires Has(chain) && err == Ok && 0 < want && fptr + want <= objsize
      requires ClusterOf(fptr, fs.g.csize) < |chain| && clust == chain[ClusterOf(fptr, fs.g.csize)]
      requires fs.g.nFatent >= 2 && sect as int == SectorOf(fs.g, chain, fptr) && 0 < sect < |fs.disk| && buf == fs.disk[sect]
      modifies this`fptr
      ensures Inv(chain) && 0 < |piece| <= want && fptr as int == old(fptr) + |piece| && piece == Bytes(chain)[old(fptr)..fptr]
    {
      hide ClusterSize, FatBytes, LaidOrder, LaidSizes, ClusterOf, SectorIn, SectorOf, Covers, Clust2Sect, IsCluster, Content, Chained;
      ghost var d, g := fs.disk, fs.g;
      LaidCluster(g, |d|);
      var n := SS - fptr % SS;
      if n > want {
        n := want;
      }
      DiskSector(d, sect);
      ContentInSector(d, g, chain, objsize, fptr, n);
      piece := buf[fptr % SS..fptr % SS + n];
      AfterPart(g, chain, fptr, n);
      fptr := fptr + n;
    }

    lemma DiskSector(d: Sectors, s: nat)
      requires Mounted() && d == fs.disk && s < |d|
      ensures |d[s]| == SS
    {
      hide ClusterSize, FatBytes, LaidOrder, LaidSizes;
    }

    /** One turn of f_read: the next piece, up to want bytes, from whole sectors or from the buffer. */
    method ReadPiece(want: nat, ghost chain: seq<Word>) returns (res: FResult, piece: seq<byte>)
      requires Inv(chain) && 0 < want && fptr + want <= objsize
      modifies this`fptr, this`clust, this`sect, this`buf, this`err, fs`disk, fs`win, fs`winsect, fs`wflag, fs`failures
      ensures fs.disk == old(fs.disk) && Has(chain) && fs.failures >= old(fs.failures)
      ensures res == Ok ==> Inv(chain) && 0 < |piece| <= want && fptr as int == old(fptr) + |piece|
      ensures res == Ok ==> piece == Bytes(chain)[old(fptr)..fptr]
      ensures res != Ok ==> res == err == DiskErr && fs.failures > old(fs.failures) && fptr == old(fptr)
    {
      hide ClusterSize, FatBytes, LaidOrder, LaidSizes, ClusterOf, SectorIn, SectorOf, Covers, Clust2Sect, IsCluster, Content, Chained;
      ghost var d, g := fs.disk, fs.g;
      piece := [];
      LaidCluster(g, |d|);
      ChainClusters(d, g, chain);
      SectorThere(g, |d|, chain, objsize, fptr);
      if fptr % SS == 0 {
        var s, csect;
        res, s, csect := Locate(chain);
        if res != Ok {
          err := res;
          return;
        }
        var cc := want / SS;
        if cc > 0 {
          res, piece := ReadRun(s, csect, want, chain);
          return;
        }
        res := FillBuffer(s, csect, chain);
        if res != Ok {
          return;
        }
      } else {
        BeforePointer(g, chain, fptr);
      }
      piece := TakePart(want, chain);
      res := Ok;
    }

    /** What f_read gives: the bytes from the pointer on, as many as asked for and there; on a disk error those read so far. */
    ghost predicate ReadResult(chain: seq<Word>, was: Word, btr: nat, res: FResult, data: seq<byte>)
      requires Has(chain) && was <= objsize
      reads this, fs
    {
      && was <= fptr <= objsize && data == Bytes(chain)[was..fptr]
      && (res == Ok ==> fptr as int == was + if btr > objsize - was then objsize - was else btr)
    }

    /** f_read */
    method Read(btr: nat, ghost chain: seq<Word>) returns (res: FResult, data: seq<byte>)
      requires Has(chain) && fptr <= objsize && (err == Ok ==> Inv(chain))
      modifies this`fptr, this`clust, this`sect, this`buf, this`err, fs`disk, fs`win, fs`winsect, fs`wflag, fs`failures
      ensures fs.disk == old(fs.disk) && Has(chain) && ReadResult(chain, old(fptr), btr, res, data) && res == err
      ensures res == Ok ==> Inv(chain)
      ensures fs.failures >= old(fs.failures)
      ensures old(err) == Ok && fs.failures == old(fs.failures) ==> res == Ok
    {
      hide Has, Inv, Content;
      data := [];
      LaidFile(chain);
      if err != Ok {
        assert Bytes(chain)[fptr..fptr] == [];
        return err, [];
      }
      InvParts(chain);
      var want := btr;
      if want > objsize - fptr {
        want := objsize - fptr;
      }
      ghost var content, was := Bytes(chain), fptr;
      while want > 0
        invariant fs.disk == old(fs.disk) && Inv(chain) && Has(chain) && Bytes(chain) == content && err == Ok
        invariant 0 <= want && was <= fptr && fptr + want <= objsize && |content| == objsize as int && data == content[was..fptr]
        invariant fptr + want == was + (if btr > objsize - was then objsize - was else btr)
        invariant fs.failures >= old(fs.failures)
      {
        var piece;
        ghost var p := fptr;
        res, piece := ReadPiece(want, chain);
        LaidFile(chain);
        if res != Ok {
          return;
        }
        InvParts(chain);
        Joined(content, was, p, fptr);
        data := data + piece;
        want := want - |piece|;
      }
      res := Ok;
    }

    // ----- f_lseek

    /** The seek is at the k-th cluster of the chain, left bytes before its goal. */
    ghost predicate Seeking(chain: seq<Word>, k: nat, left: int, goal: int)
      reads this, fs
    {
      && Has(chain) && err == Ok && k < |chain| && clust == chain[k]
      && fptr as int == StartOf(k, fs.g.csize) && fptr + left == goal <= objsize && 0 < left
      && (sect > 0 ==> sect < |fs.disk| && buf == fs.disk[sect])
    }

    /** The loop of f_lseek: cluster by cluster while more than one is left. */
    method FollowChain(start: nat, ghost chain: seq<Word>, ghost k0: nat, ghost goal: int) returns (res: FResult, left: nat, ghost k: nat)
      requires Seeking(chain, k0, start, goal)
      modifies this`fptr, this`clust, fs`disk, fs`win, fs`winsect, fs`wflag, fs`failures
      ensures fs.disk == old(fs.disk) && Has(chain) && fs.failures >= old(fs.failures) && fptr <= objsize
      ensures res == Ok ==> Seeking(chain, k, left, goal) && left <= ClusterBytes(fs.g.csize)
      ensures res != Ok ==> res == DiskErr && fs.failures > old(fs.failures)
    {
      hide ClusterSize, FatBytes, LaidOrder, LaidSizes, Covers, Clust2Sect, Content, Chained, StartOf, AllClusters, LinkAt;
      left, k := start, k0;
      var bcs := fs.g.csize * SS;
      ghost var d, g := fs.disk, fs.g;
      LaidCluster(g, |d|);
      BytesPositive(g.csize);
      res := IntErr;
      while left > bcs
        invariant Seeking(chain, k, left, goal) && fs.disk == d && fs.failures >= old(fs.failures)
        decreases left
      {
        NextThere(d, g, chain, objsize, k, goal);
        LinkedCluster(d, g, chain, k);
        LinkedCluster(d, g, chain, k + 1);
        ViewIsDisk();
        var clst := fs.GetFat(clust);
        ClusterNumber(d, g, chain, k + 1);
        if clst == NO_SECTOR {
          res := DiskErr;
          return;
        }
        if clst <= 1 || clst >= fs.g.nFatent {
          return;
        }
        StartNext(k, g.csize);
        clust := clst;
        fptr := fptr + bcs;
        left := left - bcs;
        k := k + 1;
      }
      res := Ok;
    }

    /** f_lseek, without write access: to the offset, or to the end of the file if that is nearer. */
    method Seek(ofs: nat, ghost chain: seq<Word>) returns (res: FResult)
      requires Has(chain) && fptr <= objsize && (err == Ok ==> Inv(chain))
      modifies this`fptr, this`clust, this`sect, this`buf, this`err, fs`disk, fs`win, fs`winsect, fs`wflag, fs`failures
      ensures fs.disk == old(fs.disk) && Has(chain) && fptr <= objsize && res == err
      ensures res == Ok ==> Inv(chain) && fptr as int == if ofs > objsize then objsize as int else ofs
      ensures fs.failures >= old(fs.failures)
      ensures old(err) == Ok && fs.failures == old(fs.failures) ==> res == Ok
    {
      hide ClusterSize, FatBytes, LaidOrder, LaidSizes, Covers, Clust2Sect, IsCluster, Content, Chained, StartOf, ClusterOf, SectorIn, SectorOf,
           AllClusters;
      if err != Ok {
        return err;
      }
      var ofs := if ofs > objsize then objsize as int else ofs;
      var ifptr := fptr;
      fptr := 0;
      if ofs == 0 {
        return Ok;
      }
      ghost var d, g, goal := fs.disk, fs.g, ofs;
      var bcs := fs.g.csize * SS;
      LaidCluster(g, |d|);
      ghost var k := 0;
      ChainClusters(d, g, chain);
      GoalThere(g, |d|, chain, objsize, goal);
      if ifptr > 0 && (ofs - 1) / bcs >= (ifptr - 1) / bcs {
        k := ClusterOf(ifptr - 1, g.csize);
        SeekForward(ifptr, ofs, g.csize);
        fptr := Words.And(ifptr - 1, Words.Not(bcs - 1));
        ofs := ofs - fptr;
      } else {
        StartNext(0, g.csize);
        clust := sclust;
      }
      var left;
      res, left, k := FollowChain(ofs, chain, k, goal);
      if res != Ok {
        err := res;
        return;
      }
      res := Arrive(left, chain, k, goal);
      if res != Ok { err := res; }
    }

    /** The end of f_lseek: the pointer, and the buffer if the pointer is inside a sector. */
    method Arrive(left: nat, ghost chain: seq<Word>, ghost k: nat, ghost goal: int) returns (res: FResult)
      requires Seeking(chain, k, left, goal) && left <= ClusterBytes(fs.g.csize)
      modifies this`fptr, this`sect, this`buf, fs`failures
      ensures Has(chain) && fptr <= objsize && fs.failures >= old(fs.failures)
      ensures res == Ok ==> Inv(chain) && fptr as int == goal
      ensures res != Ok ==> res == DiskErr && fs.failures > old(fs.failures)
    {
      hide ClusterSize, FatBytes, LaidOrder, LaidSizes, Covers, Clust2Sect, IsCluster, Content, Chained, StartOf, ClusterOf, SectorIn, SectorOf,
           AllClusters;
      ghost var d, g := fs.disk, fs.g;
      LaidCluster(g, |d|);
      ChainClusters(d, g, chain);
      ArrivedAt(g, |d|, chain, objsize, k, left, goal);
      res := IntErr;
      var nsect: nat := 0;
      fptr := fptr + left;
      if left % SS != 0 {
        nsect := Clust2Sect(fs.g, clust);
        if nsect == 0 {
          return;
        }
        nsect := nsect + left / SS;
      }
      if fptr % SS != 0 && nsect != sect as int {
        var ok, data := fs.DiskRead(nsect);
        if !ok {
          return DiskErr;
        }
        buf := data;
        sect := nsect;
      }
      res := Ok;
    }

    /** Any mix of seeks and reads: every read gives the bytes of the file at the position the calls before it left. */
    method Replay(calls: seq<Call>, ghost chain: seq<Word>) returns (res: FResult, outs: seq<seq<byte>>)
      requires Has(chain) && Inv(chain)
      modifies this`fptr, this`clust, this`sect, this`buf, this`err, fs`disk, fs`win, fs`winsect, fs`wflag, fs`failures
      ensures fs.disk == old(fs.disk) && Has(chain)
      ensures res == Ok ==> Inv(chain) && outs == Expected(old(Bytes(chain)), old(fptr), calls)
      ensures fs.failures == old(fs.failures) ==> res == Ok
    {
      hide Has, Inv, Content;
      outs := [];
      ghost var content := Bytes(chain);
      var i := 0;
      res := Ok;
      InvParts(chain);
      LaidFile(chain);
      while i < |calls|
        invariant 0 <= i <= |calls| && fs.disk == old(fs.disk) && Inv(chain) && Has(chain) && fptr <= objsize && err == Ok
        invariant Bytes(chain) == content && |content| == objsize as int && fs.failures >= old(fs.failures)
        invariant res == Ok && Expected(content, old(fptr), calls) == outs + Expected(content, fptr, calls[i..])
        decreases |calls| - i
      {
        assert calls[i..][1..] == calls[i + 1..];
        ghost var was, rest := fptr, calls[i..];
        match calls[i] {
          case SeekTo(ofs) =>
            res := Seek(ofs, chain);
            LaidFile(chain);
            if res != Ok {
              return;
            }
          case ReadUpTo(n) =>
            var data;
            res, data := Read(n, chain);
            LaidFile(chain);
            if res != Ok {
              return;
            }
            assert data == content[was..fptr];
            assert Expected(content, was, rest) == [data] + Expected(content, fptr, rest[1..]);
            assert outs + ([data] + Expected(content, fptr, rest[1..])) == (outs + [data]) + Expected(content, fptr, rest[1..]);
            outs := outs + [data];
        }
        i := i + 1;
        InvParts(chain);
      }
      assert calls[i..] == [];
      assert outs + [] == outs;
    }

    lemma LaidFile(chain: seq<Word>)
      requires Has(chain)
      ensures fs.g.csize > 0 && fs.g.nFatent >= 2
    {
      LaidCluster(fs.g, |fs.disk|);
    }

    lemma InvParts(chain: seq<Word>)
      requires Inv(chain)
      ensures Has(chain) && err == Ok && fptr <= objsize
    {
    }

    lemma ViewIsDisk()
      requires Mounted()
      ensures fs.View() == fs.disk
    {
      hide FatBytes, LaidOrder, LaidSizes;
    }
  }

  lemma RunInside(g: Geometry, end: nat, chain: seq<Word>, size: nat, i: nat, n: nat)
    requires Laid(g, end) && Covers(g, chain, size) && i < size && AllClusters(g, chain)
    requires SectorIn(i, g.csize) + n <= g.csize
    ensures SectorOf(g, chain, i) + n <= end
  {
    hide ClusterSize, Clust2Sect, FatBytes, LaidOrder, LaidSizes, Covers;
    SectorThere(g, end, chain, size, i);
  }

  lemma {:induction false} RunSize(d: Sectors, s: nat, n: nat)
    requires s + n <= |d| && Whole(d)
    ensures |Run(d, s, n)| == n * SS
    decreases n
  {
    if n > 0 { RunSize(d, s + 1, n - 1); }
  }

  /** The last byte of a run lies in the cluster the run started in. */
  lemma {:induction false} AfterRun(i: nat, c: nat, n: nat)
    requires ClusterSize(c) && i % SS == 0 && 0 < n && SectorIn(i, c) + n <= c
    ensures ClusterOf(i + n * SS - 1, c) == ClusterOf(i, c) && (i + n * SS) % SS == 0
    decreases n
  {
    if n == 1 {
      SameSector(i, i + SS - 1, c);
    } else {
      NextSector(i, c);
      AfterRun(i + SS, c, n - 1);
    }
  }

  /** The last byte of a part of a sector. */
  lemma AfterPart(g: Geometry, chain: seq<Word>, i: nat, n: nat)
    requires ClusterSize(g.csize) && g.csize > 0 && g.nFatent >= 2 && 0 < n && i % SS + n <= SS
    ensures ClusterOf(i + n - 1, g.csize) == ClusterOf(i, g.csize) && SectorOf(g, chain, i + n - 1) == SectorOf(g, chain, i)
  {
    WithinSector(i, n - 1);
    SameSector(i, i + n - 1, g.csize);
  }

  /** The byte before a pointer inside a sector. */
  lemma BeforePointer(g: Geometry, chain: seq<Word>, i: nat)
    requires ClusterSize(g.csize) && g.csize > 0 && g.nFatent >= 2 && i % SS != 0
    ensures ClusterOf(i - 1, g.csize) == ClusterOf(i, g.csize) && SectorOf(g, chain, i - 1) == SectorOf(g, chain, i)
  {
    WithinSector(i - 1, 1);
    SameSector(i - 1, i, g.csize);
  }

  lemma Joined(content: seq<byte>, i: nat, j: nat, k: nat)
    requires i <= j <= k <= |content|
    ensures content[i..j] + content[j..k] == content[i..k]
  {
  }

  lemma BytesPositive(c: nat)
    requires ClusterSize(c)
    ensures ClusterBytes(c) == c * SS > 0
  {
  }

  /** While more than a cluster is left there is a next one. */
  lemma NextThere(v: Sectors, g: Geometry, chain: seq<Word>, size: nat, k: nat, goal: int)
    requires Covers(g, chain, size) && k < |chain| && StartOf(k, g.csize) + ClusterBytes(g.csize) < goal <= size
    ensures k + 1 < |chain|
  {
    StartNext(k, g.csize);
    StartsOrdered(k + 1, |chain|, g.csize);
  }

  lemma GoalThere(g: Geometry, end: nat, chain: seq<Word>, size: nat, goal: nat)
    requires Laid(g, end) && Covers(g, chain, size) && 0 < goal <= size && AllClusters(g, chain)
    ensures chain != [] && ClusterSize(g.csize) && g.csize * SS == ClusterBytes(g.csize)
  {
    StartNext(0, g.csize);
  }

  /** A seek forward starts at the current cluster. */
  lemma SeekForward(ifptr: Word, ofs: nat, c: nat)
    requires ClusterSize(c) && c > 0 && ifptr > 0 && ofs > 0 && c * SS == ClusterBytes(c)
    requires (ofs - 1) / (c * SS) >= (ifptr - 1) / (c * SS)
    ensures Words.And(ifptr - 1, Words.Not(c * SS - 1)) == StartOf(ClusterOf(ifptr - 1, c), c) < ofs
  {
    hide Words.And, Words.Not, ClusterSize, StartOf;
    MaskStart(ifptr - 1, c);
    var k, k' := ClusterOf(ifptr - 1, c), ClusterOf(ofs - 1, c);
    ClusterBetween(ofs - 1, k', c);
    StartsMonotone(k, k', c);
  }

  /** Where the pointer is after the last step. */
  lemma ArrivedAt(g: Geometry, end: nat, chain: seq<Word>, size: nat, k: nat, left: nat, goal: int)
    requires Laid(g, end) && Covers(g, chain, size) && AllClusters(g, chain) && k < |chain|
    requires 0 < left <= ClusterBytes(g.csize) && goal == StartOf(k, g.csize) + left && goal <= size < W32
    ensures g.csize > 0 && g.nFatent >= 2 && ClusterOf(goal - 1, g.csize) == k && goal % SS == left % SS
    ensures left % SS != 0 ==>
              && Clust2Sect(g, chain[k]) > 0 && Clust2Sect(g, chain[k]) + left / SS == SectorOf(g, chain, goal - 1)
              && 0 < SectorOf(g, chain, goal - 1) < end < W32
  {
    hide ClusterSize, FatBytes, LaidOrder, Clust2Sect, StartOf, ClusterOf;
    LaidCluster(g, end);
    ClusterBetween(goal - 1, k, g.csize);
    SectorBetween(goal - 1, k, g.csize);
    StartAligned(k, g.csize, left);
    SectorThere(g, end, chain, size, goal - 1);
    EndBefore(g, end);
  }

  lemma EndBefore(g: Geometry, end: nat)
    requires Laid(g, end)
    ensures end < W32
  {
  }

  lemma StartAligned(k: nat, c: nat, left: nat)
    requires ClusterSize(c) && left > 0
    ensures (StartOf(k, c) + left) % SS == left % SS
    ensures left % SS != 0 ==> (left - 1) / SS == left / SS
  {
    var m := c * k;
    assert StartOf(k, c) == SS * m;
    PlusWhole(m, left);
  }

  lemma PlusWhole(m: nat, left: nat)
    ensures (SS * m + left) % SS == left % SS
    ensures left % SS != 0 ==> (left - 1) / SS == left / SS
  {
  }

  lemma SectorMod(i: nat, c: nat)
    requires c > 0
    ensures i / SS % c == SectorIn(i, c)
  {
  }

  /** At the start of a cluster the byte before is in the cluster before. */
  lemma FirstOfCluster(i: nat, c: nat)
    requires ClusterSize(c) && i % SS == 0 && SectorIn(i, c) == 0
    ensures i > 0 ==> ClusterOf(i, c) == ClusterOf(i - 1, c) + 1
    ensures i == 0 ==> ClusterOf(i, c) == 0
  {
    if i > 0 {
      NextSector(i - SS, c);
      SameSector(i - SS, i - 1, c);
    } else {
      ByteOfSector(0, c);
    }
  }

  /** Inside a cluster the byte before an aligned one is in the same cluster. */
  lemma InsideCluster(i: nat, c: nat)
    requires ClusterSize(c) && i % SS == 0 && SectorIn(i, c) != 0
    ensures i > 0 && ClusterOf(i, c) == ClusterOf(i - 1, c)
  {
    assert i > 0 by { ZeroSector(c); }
    NextSector(i - SS, c);
    SameSector(i - SS, i - 1, c);
  }

  lemma ZeroSector(c: nat)
    requires c > 0
    ensures SectorIn(0, c) == 0
  {
  }

  lemma LinkedCluster(v: Sectors, g: Geometry, chain: seq<Word>, i: nat)
    requires Chained(v, g, chain) && i < |chain|
    ensures IsCluster(g, chain[i]) && (i + 1 < |chain| ==> Entry(v, g, chain[i]) == chain[i + 1] as int)
  {
    assert IsCluster(g, chain[i]);
    if i + 1 < |chain| { assert LinkAt(v, g, chain, i); }
  }

  lemma ChainClusters(v: Sectors, g: Geometry, chain: seq<Word>)
    requires Chained(v, g, chain)
    ensures AllClusters(g, chain)
  {
  }

  lemma ClusterNumber(v: Sectors, g: Geometry, chain: seq<Word>, i: nat)
    requires Chained(v, g, chain) && i < |chain| && LaidSizes(g)
    ensures 2 <= chain[i] < NO_SECTOR
  {
    assert IsCluster(g, chain[i]);
  }

  lemma SectorFits(g: Geometry, end: nat, s: Word, k: nat)
    requires Laid(g, end) && s + g.csize <= end && k < g.csize
    ensures s + k < W32
  {
  }
}
