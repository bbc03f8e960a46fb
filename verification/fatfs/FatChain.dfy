/** ff.c: cluster chains made longer and removed. */
module FatChain {

  import opened Bytes
  import opened FatGeometry
  import opened FatTable
  import opened FatVolume
  import opened FatFile

  /** What get_fat returns for a number that is no cluster's. */
  const NO_LINK: Word := 1

  /** The largest value an entry can hold marks the end of a chain. */
  function Eoc(k: Kind): nat
  {
    Limit(k) - 1
  }

  /** Every cluster's number fits an entry and is not the mark: always so but for FAT32 volumes beyond 28 bits. */
  predicate NumbersFit(g: Geometry)
  {
    g.nFatent <= Eoc(g.kind)
  }

  lemma EocIsNoCluster(g: Geometry)
    requires LaidSizes(g)
    ensures NO_SECTOR % Limit(g.kind) == Eoc(g.kind)
    ensures g.kind != Fat32 ==> NumbersFit(g)
  {
    hide ClusterSize;
  }

  /** Links to all clusters can be stored and told from the mark exactly then. */
  lemma NumbersFitExactly(v: Sectors, g: Geometry, c: Word)
    requires HasFat(v, g) && LaidSizes(g) && IsCluster(g, c)
    ensures NumbersFit(g) <==>
            forall d: Word {:trigger Stored(v, g, c, d)} :: IsCluster(g, d) ==> Entry(Stored(v, g, c, d), g, c) == d && d != Eoc(g.kind)
  {
    hide ClusterSize, HasFat, Entry, Stored;
    if NumbersFit(g) {
      forall d: Word | IsCluster(g, d) ensures Entry(Stored(v, g, c, d), g, c) == d && d != Eoc(g.kind) {
        StoreThenLoad(v, g, c, d, c);
      }
    } else {
      EocIsNoCluster(g);
      var d: Word := Eoc(g.kind);
      assert IsCluster(g, d);
      assert Stored(v, g, c, d) == Stored(v, g, c, d);
    }
  }

  /** On a volume that large a link to this cluster is read as a free entry. */
  lemma LinkLost(v: Sectors, g: Geometry, c: Word)
    requires HasFat(v, g) && g.kind == Fat32 && IsCluster(g, c) && IsCluster(g, 0x1000_0000)
    ensures Entry(Stored(v, g, c, 0x1000_0000), g, c) == 0
  {
    hide HasFat, Entry, Stored;
    StoreThenLoad(v, g, c, 0x1000_0000, c);
  }

  /** The entries differ only as written: c now holds e. */
  ghost predicate Changed(g: Geometry, v: Sectors, w: Sectors, c: nat, e: nat)
  {
    forall d {:trigger Entry(w, g, d)} :: IsCluster(g, d) ==> Entry(w, g, d) == if d == c then e else Entry(v, g, d)
  }

  ghost predicate Unchanged(g: Geometry, v: Sectors, w: Sectors)
  {
    forall d {:trigger Entry(w, g, d)} :: IsCluster(g, d) ==> Entry(w, g, d) == Entry(v, g, d)
  }

  lemma SameUnchanged(g: Geometry, v: Sectors, w: Sectors)
    requires Same(g, v, w) && HasFat(v, g)
    ensures Unchanged(g, v, w)
  {
    hide Entry, Same;
    forall d | IsCluster(g, d) ensures Entry(w, g, d) == Entry(v, g, d) { SameEntry(g, v, w, d); }
  }

  lemma StoredChanged(g: Geometry, v: Sectors, w: Sectors, c: nat, val: Word)
    requires HasFat(v, g) && IsCluster(g, c) && Same(g, Stored(v, g, c, val), w)
    ensures Changed(g, v, w, c, val % Limit(g.kind))
  {
    hide Entry, Same, Stored;
    forall d | IsCluster(g, d) ensures Entry(w, g, d) == if d == c then val % Limit(g.kind) else Entry(v, g, d) {
      StoreThenLoad(v, g, c, val, d);
      SameEntry(g, Stored(v, g, c, val), w, d);
    }
  }

  // ----- get_fat and put_fat as this module uses them

  method Get(fs: Volume, clst: Word) returns (val: Word)
    requires fs.Valid()
    modifies fs`disk, fs`win, fs`winsect, fs`wflag, fs`failures
    ensures fs.Valid() && Unchanged(fs.g, old(fs.View()), fs.View()) && fs.failures >= old(fs.failures)
    ensures !IsCluster(fs.g, clst) ==> val == 1
    ensures IsCluster(fs.g, clst) ==> val == Entry(old(fs.View()), fs.g, clst) || (val == NO_SECTOR && fs.failures > old(fs.failures))
    ensures RestKept(fs.g, old(fs.View()), fs.View()) && (old(fs.Mirrored()) && fs.failures == old(fs.failures) ==> fs.Mirrored())
  {
    hide Entry, Same, ClusterSize, FatBytes, FatSectors, RestKept, Mirror, LaidSizes;
    ghost var v := fs.View();
    fs.ShownFat();
    fs.ShownSizes();
    val := fs.GetFat(clst);
    SameUnchanged(fs.g, v, fs.View());
    SameRest(fs.g, v, fs.View());
  }

  method Put(fs: Volume, clst: Word, val: Word) returns (res: FResult)
    requires fs.Valid()
    modifies fs`disk, fs`win, fs`winsect, fs`wflag, fs`failures
    ensures fs.Valid() && fs.failures >= old(fs.failures)
    ensures res == Ok || (res == IntErr && !IsCluster(fs.g, clst)) || (res == DiskErr && fs.failures > old(fs.failures))
    ensures res == Ok ==> IsCluster(fs.g, clst) && Changed(fs.g, old(fs.View()), fs.View(), clst, val % Limit(fs.g.kind))
    ensures res == DiskErr ==> OthersKept(fs.g, old(fs.View()), fs.View(), clst)
    ensures RestKept(fs.g, old(fs.View()), fs.View()) && (old(fs.Mirrored()) && fs.failures == old(fs.failures) ==> fs.Mirrored())
  {
    hide Entry, Same, ClusterSize, FatBytes, FatSectors, Stored, RestKept, Mirror;
    ghost var v := fs.View();
    fs.ShownFat();
    res := fs.PutFat(clst, val);
    if res == Ok { StoredChanged(fs.g, v, fs.View(), clst, val); }
  }

  // ----- create_chain

  /** No cluster is free, nor is any entry the value 1, which is no link. */
  ghost predicate Full(g: Geometry, v: Sectors)
  {
    forall d {:trigger Entry(v, g, d)} :: IsCluster(g, d) ==> Entry(v, g, d) >= 2
  }

  /** The clusters the search has looked at: from after scl on, around the end, up to ncl. */
  predicate Looked(g: Geometry, scl: nat, ncl: nat, wrapped: bool, d: nat)
  {
    IsCluster(g, d) && if wrapped then d > scl || d <= ncl else scl < d <= ncl
  }

  /** How many steps after scl, around the end of the FAT, the search comes to cluster d. */
  function Ahead(g: Geometry, scl: nat, d: nat): int
  {
    if d > scl then d - scl else d + g.nFatent - scl
  }

  /** Cluster ncl is free, and all the search comes to earlier are in use. */
  ghost predicate FirstFree(g: Geometry, v: Sectors, scl: nat, ncl: nat)
  {
    && IsCluster(g, ncl) && Entry(v, g, ncl) == 0
    && forall d {:trigger Entry(v, g, d)} :: IsCluster(g, d) && Ahead(g, scl, d) < Ahead(g, scl, ncl) ==> Entry(v, g, d) >= 2
  }

  /** The search comes to an entry 1 before any free cluster. */
  ghost predicate Bad(g: Geometry, v: Sectors, scl: nat)
  {
    exists b {:trigger Entry(v, g, b)} :: IsCluster(g, b) && Entry(v, g, b) == 1 &&
      forall d {:trigger Entry(v, g, d)} :: IsCluster(g, d) && Ahead(g, scl, d) < Ahead(g, scl, b) ==> Entry(v, g, d) >= 2
  }

  /** Where the search for a cluster to follow clst starts: there or, for a new chain, at the hint, if it is a cluster. */
  function SearchStart(g: Geometry, clst: Word, hint: Word): Word
  {
    if clst != 0 then clst else if hint == 0 || hint >= g.nFatent then 1 else hint
  }

  /** The search of create_chain from after scl, around the end of the FAT. */
  method FindFree(fs: Volume, scl: Word) returns (ncl: Word)
    requires fs.Valid() && 1 <= scl < fs.g.nFatent
    modifies fs`disk, fs`win, fs`winsect, fs`wflag, fs`failures
    ensures fs.Valid() && Unchanged(fs.g, old(fs.View()), fs.View()) && fs.failures >= old(fs.failures)
    ensures ncl == 0 ==> Full(fs.g, old(fs.View()))
    ensures ncl == 1 ==> Bad(fs.g, old(fs.View()), scl)
    ensures ncl == NO_SECTOR ==> fs.failures > old(fs.failures)
    ensures ncl > 1 && ncl != NO_SECTOR ==> FirstFree(fs.g, old(fs.View()), scl, ncl)
    ensures RestKept(fs.g, old(fs.View()), fs.View()) && (old(fs.Mirrored()) && fs.failures == old(fs.failures) ==> fs.Mirrored())
  {
    hide Entry, ClusterSize, FatBytes, FatSectors, HasFat, RestKept, Mirror;
    ghost var v, g := fs.View(), fs.g;
    ghost var wrapped := false;
    SizeLimit(fs);
    RestSelf(g, v);
    ncl := scl;
    while true
      invariant fs.Valid() && Unchanged(g, v, fs.View()) && fs.failures >= old(fs.failures)
      invariant RestKept(g, v, fs.View()) && (old(fs.Mirrored()) && fs.failures == old(fs.failures) ==> fs.Mirrored())
      invariant scl <= ncl < g.nFatent || (wrapped && 2 <= ncl < scl)
      invariant !wrapped ==> scl <= ncl
      invariant wrapped ==> 2 <= ncl < scl
      invariant forall d {:trigger Entry(v, g, d)} :: Looked(g, scl, ncl, wrapped, d) ==> Entry(v, g, d) >= 2
      decreases !wrapped, g.nFatent - ncl
    {
      ncl := ncl + 1;
      if ncl >= fs.g.nFatent {
        ncl := 2;
        wrapped := true;
        if ncl > scl {
          return 0;
        }
      }
      ghost var w := fs.View();
      var cs := Get(fs, ncl);
      RestTrans(g, v, w, fs.View());
      if cs == 0 {
        return;
      }
      if cs == 1 || cs == NO_SECTOR {
        return cs;
      }
      if ncl == scl {
        return 0;
      }
    }
  }

  lemma SizeLimit(fs: Volume)
    requires fs.Valid()
    ensures 3 <= fs.g.nFatent <= MAX_ENTRIES
  {
    hide ClusterSize, FatBytes, FatSectors, HasFat;
  }

  /** Cluster ncl was free and now ends a chain, linked from clst unless that is 0. */
  ghost predicate Linked(g: Geometry, v: Sectors, w: Sectors, clst: nat, ncl: nat)
  {
    && IsCluster(g, ncl) && Entry(v, g, ncl) == 0 && ncl != clst && (clst != 0 ==> IsCluster(g, clst))
    && forall d {:trigger Entry(w, g, d)} :: IsCluster(g, d) ==>
         Entry(w, g, d) == if d == ncl then Eoc(g.kind) else if d == clst then ncl else Entry(v, g, d)
  }

  /** Cluster clst is followed by another. */
  ghost predicate HasNext(g: Geometry, v: Sectors, clst: nat)
  {
    IsCluster(g, clst) && IsCluster(g, Entry(v, g, clst))
  }

  /** The outcomes of create_chain without a disk error: a free cluster taken; the cluster that already follows; none
      free; or an entry that is no link. */
  ghost predicate Created(g: Geometry, v: Sectors, w: Sectors, clst: nat, ncl: nat, scl: nat)
  {
    if clst != 0 && HasNext(g, v, clst) then ncl == Entry(v, g, clst) && Unchanged(g, v, w)
    else if ncl == 0 then Full(g, v) && Unchanged(g, v, w)
    else if ncl == 1 then Unchanged(g, v, w) && if clst != 0 && (!IsCluster(g, clst) || Entry(v, g, clst) < 2) then true else Bad(g, v, scl)
    else Linked(g, v, w, clst, ncl)
  }

  /** What a disk error may leave: nothing changed; or cluster n, which was free, perhaps marked as the end of a chain,
      and only once it is marked perhaps the link from clst changed. */
  ghost predicate Interrupted(g: Geometry, v: Sectors, w: Sectors, clst: nat, n: nat)
  {
    || (n == 0 && Unchanged(g, v, w))
    || (IsCluster(g, n) && Entry(v, g, n) == 0 && n != clst && BothKept(g, v, w, n, n))
    || (IsCluster(g, n) && Entry(v, g, n) == 0 && n != clst && IsCluster(g, clst)
        && Entry(w, g, n) == Eoc(g.kind) && BothKept(g, v, w, clst, n))
  }

  /** Entries other than these two are as before. */
  ghost predicate BothKept(g: Geometry, v: Sectors, w: Sectors, a: nat, b: nat)
  {
    forall d {:trigger Entry(w, g, d)} :: IsCluster(g, d) && d != a && d != b ==> Entry(w, g, d) == Entry(v, g, d)
  }

  lemma InterruptedFirst(g: Geometry, v: Sectors, v2: Sectors, w: Sectors, clst: nat, n: nat)
    requires Unchanged(g, v, v2) && OthersKept(g, v2, w, n) && IsCluster(g, n) && Entry(v, g, n) == 0 && n != clst
    ensures Interrupted(g, v, w, clst, n)
  {
    hide Entry;
    forall d | IsCluster(g, d) && d != n ensures Entry(w, g, d) == Entry(v, g, d) { assert Entry(w, g, d) == Entry(v2, g, d); }
  }

  lemma InterruptedSecond(fs: Volume, g: Geometry, v: Sectors, v2: Sectors, v3: Sectors, w: Sectors, clst: nat, n: nat)
    requires fs.Valid() && g == fs.g && Unchanged(g, v, v2) && Changed(g, v2, v3, n, NO_SECTOR % Limit(g.kind)) && OthersKept(g, v3, w, clst)
    requires IsCluster(g, n) && Entry(v, g, n) == 0 && n != clst && IsCluster(g, clst)
    ensures Interrupted(g, v, w, clst, n)
  {
    hide Entry;
    LimitHolds(fs, n);
    assert Entry(w, g, n) == Entry(v3, g, n);
    forall d | IsCluster(g, d) && d != clst && d != n ensures Entry(w, g, d) == Entry(v, g, d) {
      assert Entry(w, g, d) == Entry(v3, g, d) == Entry(v2, g, d);
    }
  }

  /** create_chain on FAT12, FAT16 and FAT32: 0, 1, 0xFFFFFFFF for a disk error, or a cluster; and the cluster the
      next search starts at. */
  method CreateChain(fs: Volume, clst: Word, lastClst: Word) returns (ncl: Word, last: Word)
    requires fs.Valid() && NumbersFit(fs.g)
    modifies fs`disk, fs`win, fs`winsect, fs`wflag, fs`failures
    ensures fs.Valid() && fs.failures >= old(fs.failures)
    ensures ncl == NO_SECTOR ==> fs.failures > old(fs.failures)
    ensures ncl != NO_SECTOR ==> Created(fs.g, old(fs.View()), fs.View(), clst, ncl, SearchStart(fs.g, clst, lastClst))
    ensures ncl == NO_SECTOR ==> exists n: nat :: Interrupted(fs.g, old(fs.View()), fs.View(), clst, n)
    ensures var v, g := old(fs.View()), fs.g; var taken := ncl >= 2 && ncl != NO_SECTOR && !(clst != 0 && HasNext(g, v, clst));
      && last == (if taken then ncl else lastClst) && (taken ==> FirstFree(g, v, SearchStart(g, clst, lastClst), ncl))
    ensures RestKept(fs.g, old(fs.View()), fs.View()) && (old(fs.Mirrored()) && fs.failures == old(fs.failures) ==> fs.Mirrored())
  {
    hide Entry, ClusterSize, FatBytes, FatSectors, HasFat, Changed, RestKept, Mirror, FirstFree;
    ghost var v, g := fs.View(), fs.g;
    SizeLimit(fs);
    RestSelf(g, v);
    last := lastClst;
    var scl := clst;
    if clst == 0 {
      scl := lastClst;
      if scl == 0 || scl >= fs.g.nFatent {
        scl := 1;
      }
    } else {
      var cs := Get(fs, clst);
      if cs < 2 {
        return 1, last;
      }
      if cs == NO_SECTOR {
        assert Interrupted(g, v, fs.View(), clst, 0);
        return cs, last;
      }
      if cs < fs.g.nFatent {
        return cs, last;
      }
    }
    ghost var v1 := fs.View();
    ncl := FindFree(fs, scl);
    ghost var v2 := fs.View();
    RestTrans(g, v, v1, v2);
    FoundIn(g, v, v1, v2, scl, ncl);
    if ncl > 1 && ncl != NO_SECTOR { FreeBefore(g, v, v1, scl, ncl); }
    if ncl == 0 || ncl == 1 || ncl == NO_SECTOR {
      assert Interrupted(g, v, v2, clst, 0);
      return;
    }
    var res := Put(fs, ncl, NO_SECTOR);
    ghost var v3 := fs.View();
    RestTrans(g, v, v2, v3);
    if res == DiskErr { InterruptedFirst(g, v, v2, v3, clst, ncl); }
    if res == Ok && clst != 0 {
      res := Put(fs, clst, ncl);
      RestTrans(g, v, v3, fs.View());
      if res == DiskErr { InterruptedSecond(fs, g, v, v2, v3, fs.View(), clst, ncl); }
    }
    if res == Ok {
      last := ncl;
      LinkedBy(fs, g, v, v2, v3, fs.View(), clst, ncl);
    } else {
      ncl := FailCode(res);
    }
  }

  /** What create_chain returns when put_fat failed. */
  function FailCode(res: FResult): Word
  {
    if res == DiskErr then NO_SECTOR else NO_LINK
  }

  /** The search saw the FAT as it was before. */
  lemma FoundIn(g: Geometry, v: Sectors, v1: Sectors, v2: Sectors, scl: nat, ncl: nat)
    requires Unchanged(g, v, v1) && Unchanged(g, v1, v2)
    ensures Unchanged(g, v, v2)
    ensures Full(g, v1) ==> Full(g, v)
    ensures Bad(g, v1, scl) ==> Bad(g, v, scl)
    ensures IsCluster(g, ncl) ==> Entry(v, g, ncl) == Entry(v1, g, ncl)
  {
    hide Entry;
    forall d | IsCluster(g, d) ensures Entry(v2, g, d) == Entry(v, g, d) && Entry(v1, g, d) == Entry(v, g, d) { assert Entry(v1, g, d) == Entry(v, g, d); }
    if Bad(g, v1, scl) {
      var b :| IsCluster(g, b) && Entry(v1, g, b) == 1 &&
        forall d {:trigger Entry(v1, g, d)} :: IsCluster(g, d) && Ahead(g, scl, d) < Ahead(g, scl, b) ==> Entry(v1, g, d) >= 2;
      assert Entry(v, g, b) == 1;
      forall d | IsCluster(g, d) && Ahead(g, scl, d) < Ahead(g, scl, b) ensures Entry(v, g, d) >= 2 { assert Entry(v1, g, d) == Entry(v, g, d); }
    }
    if Full(g, v1) {
      forall d | IsCluster(g, d) ensures Entry(v, g, d) >= 2 { assert Entry(v1, g, d) == Entry(v, g, d); }
    }
  }

  lemma FreeBefore(g: Geometry, v: Sectors, v1: Sectors, scl: nat, ncl: nat)
    requires Unchanged(g, v, v1) && FirstFree(g, v1, scl, ncl)
    ensures FirstFree(g, v, scl, ncl) && IsCluster(g, ncl) && Entry(v, g, ncl) == 0
  {
    hide Entry;
    assert Entry(v1, g, ncl) == Entry(v, g, ncl);
    forall d | IsCluster(g, d) && Ahead(g, scl, d) < Ahead(g, scl, ncl) ensures Entry(v, g, d) >= 2 {
      assert Entry(v1, g, d) == Entry(v, g, d);
    }
  }

  lemma LinkedBy(fs: Volume, g: Geometry, v: Sectors, v2: Sectors, v3: Sectors, w: Sectors, clst: Word, ncl: Word)
    requires fs.Valid() && NumbersFit(fs.g) && g == fs.g && Unchanged(g, v, v2) && IsCluster(g, ncl) && Entry(v, g, ncl) == 0
    requires Changed(g, v2, v3, ncl, NO_SECTOR % Limit(g.kind))
    requires if clst == 0 then w == v3 else IsCluster(g, clst) && clst != ncl && Changed(g, v3, w, clst, ncl % Limit(g.kind))
    ensures Linked(g, v, w, clst, ncl)
  {
    hide Entry;
    LimitHolds(fs, ncl);
    forall d | IsCluster(g, d)
      ensures Entry(w, g, d) == if d == ncl then Eoc(g.kind) else if d == clst then ncl as int else Entry(v, g, d)
    {
      assert Entry(v3, g, d) == if d == ncl then NO_SECTOR % Limit(g.kind) else Entry(v2, g, d);
      assert Entry(v2, g, d) == Entry(v, g, d);
    }
  }

  lemma LimitHolds(fs: Volume, c: Word)
    requires fs.Valid() && IsCluster(fs.g, c)
    ensures NO_SECTOR % Limit(fs.g.kind) == Eoc(fs.g.kind)
    ensures NumbersFit(fs.g) ==> c % Limit(fs.g.kind) == c && Eoc(fs.g.kind) >= fs.g.nFatent
  {
    hide ClusterSize, FatBytes, FatSectors, HasFat;
    EocIsNoCluster(fs.g);
  }

  // ----- the FAT as disjoint chains

  /** A chain with its end mark. */
  ghost predicate IsChain(v: Sectors, g: Geometry, chain: seq<Word>)
  {
    chain != [] && Chained(v, g, chain) && Entry(v, g, chain[|chain| - 1]) >= g.nFatent
  }

  /** The k-th cluster of the i-th chain is nowhere else in the chains. */
  ghost predicate Alone(chains: seq<seq<Word>>, i: int, k: int)
    requires 0 <= i < |chains| && 0 <= k < |chains[i]|
  {
    forall j, l {:trigger chains[j][l]} :: 0 <= j < |chains| && 0 <= l < |chains[j]| && chains[j][l] == chains[i][k] ==> j == i && l == k
  }

  /** The clusters in use form these chains, no two sharing a cluster. */
  ghost predicate Partition(v: Sectors, g: Geometry, chains: seq<seq<Word>>)
  {
    && (forall i {:trigger chains[i]} :: 0 <= i < |chains| ==> IsChain(v, g, chains[i]))
    && (forall i, k {:trigger Alone(chains, i, k)} :: 0 <= i < |chains| && 0 <= k < |chains[i]| ==> Alone(chains, i, k))
    && (forall d {:trigger Entry(v, g, d)} :: IsCluster(g, d) && Entry(v, g, d) != 0 ==> InChains(chains, d))
  }

  ghost predicate InChains(chains: seq<seq<Word>>, d: int)
  {
    exists i, k :: 0 <= i < |chains| && 0 <= k < |chains[i]| && chains[i][k] as int == d
  }

  /** The clusters of a chain are in use. */
  lemma InUse(v: Sectors, g: Geometry, chain: seq<Word>, k: nat)
    requires IsChain(v, g, chain) && k < |chain| && g.nFatent >= 2
    ensures IsCluster(g, chain[k]) && Entry(v, g, chain[k]) >= 2
    ensures Entry(v, g, chain[k]) >= g.nFatent <==> k == |chain| - 1
  {
    hide Entry;
    assert IsCluster(g, chain[k]);
    if k + 1 < |chain| {
      assert LinkAt(v, g, chain, k);
      assert IsCluster(g, chain[k + 1]);
    }
  }

  /** A chain whose entries did not change is a chain still. */
  lemma ChainStays(v: Sectors, w: Sectors, g: Geometry, chain: seq<Word>)
    requires IsChain(v, g, chain) && forall k {:trigger chain[k]} :: 0 <= k < |chain| ==> Entry(w, g, chain[k]) == Entry(v, g, chain[k])
    ensures IsChain(w, g, chain)
  {
    hide Entry;
    forall k | 0 <= k < |chain| - 1 ensures LinkAt(w, g, chain, k) { assert LinkAt(v, g, chain, k); }
  }

  /** A free cluster linked to the end of a chain. */
  lemma ChainGrows(v: Sectors, w: Sectors, g: Geometry, chain: seq<Word>, ncl: Word)
    requires g.nFatent >= 2 && Eoc(g.kind) >= g.nFatent
    requires IsChain(v, g, chain) && Linked(g, v, w, chain[|chain| - 1], ncl)
    requires forall k, l {:trigger chain[k], chain[l]} :: 0 <= k < |chain| && 0 <= l < |chain| && chain[k] == chain[l] ==> k == l
    ensures IsChain(w, g, chain + [ncl])
  {
    hide Entry;
    var c := chain + [ncl];
    var n := |chain|;
    forall k | 0 <= k < |c| ensures IsCluster(g, c[k]) { if k < n { assert c[k] == chain[k]; } }
    forall k | 0 <= k < |c| - 1 ensures LinkAt(w, g, c, k) {
      InUse(v, g, chain, k);
      assert c[k] == chain[k];
      if k + 1 < n { assert LinkAt(v, g, chain, k); }
    }
    assert c[|c| - 1] == ncl;
  }

  /** Clusters in chains are not free. */
  lemma FreeIsOutside(v: Sectors, g: Geometry, chains: seq<seq<Word>>, ncl: int)
    requires Partition(v, g, chains) && IsCluster(g, ncl) && Entry(v, g, ncl) == 0
    ensures !InChains(chains, ncl)
  {
    hide Entry;
    if InChains(chains, ncl) {
      var i, k :| 0 <= i < |chains| && 0 <= k < |chains[i]| && chains[i][k] as int == ncl;
      InUse(v, g, chains[i], k);
    }
  }

  /** What create_chain does when it stretches a chain: exactly one free cluster more, at the end of that chain. */
  lemma StretchKeepsChains(v: Sectors, w: Sectors, g: Geometry, chains: seq<seq<Word>>, i: nat, ncl: Word)
    requires g.nFatent >= 2 && Eoc(g.kind) >= g.nFatent
    requires Partition(v, g, chains) && i < |chains| && chains[i] != [] && Linked(g, v, w, chains[i][|chains[i]| - 1], ncl)
    ensures Partition(w, g, chains[i := chains[i] + [ncl]])
  {
    hide Entry, IsChain;
    var clst := chains[i][|chains[i]| - 1];
    var chains' := chains[i := chains[i] + [ncl]];
    FreeIsOutside(v, g, chains, ncl);
    assert Alone(chains, i, |chains[i]| - 1);
    forall j | 0 <= j < |chains'| ensures IsChain(w, g, chains'[j]) {
      if j == i {
        forall k, l | 0 <= k < |chains[i]| && 0 <= l < |chains[i]| && chains[i][k] == chains[i][l] ensures k == l { assert Alone(chains, i, k); }
        ChainGrows(v, w, g, chains[i], ncl);
      } else {
        OtherEntries(v, w, g, chains, j, clst, ncl);
        ChainStays(v, w, g, chains[j]);
      }
    }
    forall j, k | 0 <= j < |chains'| && 0 <= k < |chains'[j]| ensures Alone(chains', j, k) { AloneGrown(chains, i, ncl, j, k); }
    forall d | IsCluster(g, d) && Entry(w, g, d) != 0 ensures InChains(chains', d) {
      if d == ncl {
        assert chains'[i][|chains[i]|] == ncl;
      } else {
        assert d == clst as int || Entry(v, g, d) == Entry(w, g, d);
        InUseIn(v, g, chains, i, |chains[i]| - 1);
        var a, b :| 0 <= a < |chains| && 0 <= b < |chains[a]| && chains[a][b] as int == d;
        assert chains'[a][b] as int == d;
      }
    }
  }

  lemma InUseIn(v: Sectors, g: Geometry, chains: seq<seq<Word>>, i: nat, k: nat)
    requires Partition(v, g, chains) && g.nFatent >= 2 && i < |chains| && k < |chains[i]|
    ensures IsCluster(g, chains[i][k]) && Entry(v, g, chains[i][k]) >= 2
  {
    hide Entry;
    InUse(v, g, chains[i], k);
  }

  /** Entries of another chain than that of clst are not touched. */
  lemma OtherEntries(v: Sectors, w: Sectors, g: Geometry, chains: seq<seq<Word>>, j: nat, clst: Word, ncl: Word)
    requires Partition(v, g, chains) && Linked(g, v, w, clst, ncl) && j < |chains| && !InChains(chains, ncl)
    requires clst == 0 || (InChains(chains, clst) && forall l :: 0 <= l < |chains[j]| ==> chains[j][l] != clst)
    ensures forall k {:trigger chains[j][k]} :: 0 <= k < |chains[j]| ==> Entry(w, g, chains[j][k]) == Entry(v, g, chains[j][k])
  {
    hide Entry;
    forall k | 0 <= k < |chains[j]| ensures Entry(w, g, chains[j][k]) == Entry(v, g, chains[j][k]) {
      assert IsChain(v, g, chains[j]);
      assert IsCluster(g, chains[j][k]);
    }
  }

  lemma AloneGrown(chains: seq<seq<Word>>, i: nat, ncl: Word, j: nat, k: nat)
    requires i < |chains| && !InChains(chains, ncl)
    requires forall a, b {:trigger Alone(chains, a, b)} :: 0 <= a < |chains| && 0 <= b < |chains[a]| ==> Alone(chains, a, b)
    requires j < |chains| && k < |chains[i := chains[i] + [ncl]][j]|
    ensures Alone(chains[i := chains[i] + [ncl]], j, k)
  {
    var chains' := chains[i := chains[i] + [ncl]];
    var n := |chains[i]|;
    forall a, b | 0 <= a < |chains'| && 0 <= b < |chains'[a]| && chains'[a][b] == chains'[j][k] ensures a == j && b == k {
      var old1, old2 := !(a == i && b == n), !(j == i && k == n);
      if old1 { assert chains'[a][b] == chains[a][b]; }
      if old2 { assert chains'[j][k] == chains[j][k]; }
      if old1 && old2 { assert Alone(chains, j, k); }
    }
  }

  /** What create_chain does when it starts a chain: one free cluster becomes a chain of its own. */
  lemma StartKeepsChains(v: Sectors, w: Sectors, g: Geometry, chains: seq<seq<Word>>, ncl: Word)
    requires g.nFatent >= 2 && Eoc(g.kind) >= g.nFatent
    requires Partition(v, g, chains) && Linked(g, v, w, 0, ncl)
    ensures Partition(w, g, chains + [[ncl]])
  {
    hide Entry;
    var chains' := chains + [[ncl]];
    FreeIsOutside(v, g, chains, ncl);
    forall j | 0 <= j < |chains'| ensures IsChain(w, g, chains'[j]) {
      if j < |chains| {
        OtherEntries(v, w, g, chains, j, 0, ncl);
        ChainStays(v, w, g, chains[j]);
      } else {
        assert IsCluster(g, chains'[j][0]) && chains'[j][0] == ncl;
      }
    }
    forall j, k | 0 <= j < |chains'| && 0 <= k < |chains'[j]| ensures Alone(chains', j, k) {
      forall a, b | 0 <= a < |chains'| && 0 <= b < |chains'[a]| && chains'[a][b] == chains'[j][k] ensures a == j && b == k {
        if a < |chains| && j < |chains| { assert Alone(chains, j, k); }
      }
    }
    forall d | IsCluster(g, d) && Entry(w, g, d) != 0 ensures InChains(chains', d) {
      if d == ncl {
        assert chains'[|chains|][0] == ncl;
      } else {
        assert Entry(v, g, d) == Entry(w, g, d);
        var a, b :| 0 <= a < |chains| && 0 <= b < |chains[a]| && chains[a][b] as int == d;
        assert chains'[a][b] as int == d;
      }
    }
  }

  // ----- remove_chain

  /** How many clusters below n are in use. */
  ghost function Used(v: Sectors, g: Geometry, n: nat): nat
  {
    if n == 0 then 0 else Used(v, g, n - 1) + if n - 1 >= 2 && Entry(v, g, n - 1) != 0 then 1 else 0
  }

  /** Freeing a cluster in use leaves one less in use. */
  lemma {:induction false} UsedFreed(v: Sectors, w: Sectors, g: Geometry, c: nat, n: nat)
    requires Changed(g, v, w, c, 0) && IsCluster(g, c) && Entry(v, g, c) != 0 && n <= g.nFatent
    ensures Used(w, g, n) == Used(v, g, n) - if c < n then 1 else 0
  {
    hide Entry;
    if n > 0 { UsedFreed(v, w, g, c, n - 1); }
  }

  lemma {:induction false} UsedSame(v: Sectors, w: Sectors, g: Geometry, n: nat)
    requires Unchanged(g, v, w) && n <= g.nFatent
    ensures Used(w, g, n) == Used(v, g, n)
  {
    hide Entry;
    if n > 0 { UsedSame(v, w, g, n - 1); }
  }

  /** A chain or the rest of one, no cluster twice. */
  ghost predicate IsTail(v: Sectors, g: Geometry, tail: seq<Word>)
  {
    IsChain(v, g, tail) && forall k, l {:trigger tail[k], tail[l]} :: 0 <= k < |tail| && 0 <= l < |tail| && tail[k] == tail[l] ==> k == l
  }

  /** The first k clusters of the tail are free, all else is as before. */
  ghost predicate Freed(v: Sectors, w: Sectors, g: Geometry, tail: seq<Word>, k: nat)
    requires k <= |tail|
  {
    forall d {:trigger Entry(w, g, d)} :: IsCluster(g, d) ==> Entry(w, g, d) == if OneOf(tail[..k], d) then 0 else Entry(v, g, d)
  }

  ghost predicate OneOf(s: seq<Word>, d: int)
  {
    exists i :: 0 <= i < |s| && s[i] as int == d
  }

  lemma FreedNone(v: Sectors, w: Sectors, g: Geometry, tail: seq<Word>)
    requires Unchanged(g, v, w)
    ensures Freed(v, w, g, tail, 0)
  {
    hide Entry;
    forall d | IsCluster(g, d) ensures Entry(w, g, d) == if OneOf(tail[..0], d) then 0 else Entry(v, g, d) { }
  }

  lemma FreedMore(v: Sectors, w: Sectors, w': Sectors, g: Geometry, tail: seq<Word>, k: nat)
    requires k < |tail| && Freed(v, w, g, tail, k) && Changed(g, w, w', tail[k], 0)
    ensures Freed(v, w', g, tail, k + 1)
  {
    hide Entry;
    forall d | IsCluster(g, d) ensures Entry(w', g, d) == if OneOf(tail[..k + 1], d) then 0 else Entry(v, g, d) {
      assert Entry(w, g, d) == if OneOf(tail[..k], d) then 0 else Entry(v, g, d);
      OneMore(tail, k, d);
    }
  }

  lemma OneMore(s: seq<Word>, k: nat, d: int)
    requires k < |s|
    ensures OneOf(s[..k + 1], d) <==> OneOf(s[..k], d) || s[k] as int == d
  {
    if OneOf(s[..k], d) {
      var i :| 0 <= i < |s[..k]| && s[..k][i] as int == d;
      assert s[..k + 1][i] as int == d;
    }
    if OneOf(s[..k + 1], d) {
      var i :| 0 <= i < |s[..k + 1]| && s[..k + 1][i] as int == d;
      if i < k { assert s[..k][i] as int == d; }
    }
    if s[k] as int == d { assert s[..k + 1][k] as int == d; }
  }

  lemma FreedSame(v: Sectors, w: Sectors, w': Sectors, g: Geometry, tail: seq<Word>, k: nat)
    requires k <= |tail| && Freed(v, w, g, tail, k) && Unchanged(g, w, w')
    ensures Freed(v, w', g, tail, k)
  {
    hide Entry;
    forall d | IsCluster(g, d) ensures Entry(w', g, d) == if OneOf(tail[..k], d) then 0 else Entry(v, g, d) {
      assert Entry(w', g, d) == Entry(w, g, d);
    }
  }

  /** The next entry of the tail is still what it was. */
  lemma TailNext(v: Sectors, w: Sectors, g: Geometry, tail: seq<Word>, k: nat)
    requires IsTail(v, g, tail) && k < |tail| && Freed(v, w, g, tail, k) && g.nFatent >= 2
    ensures IsCluster(g, tail[k]) && Entry(w, g, tail[k]) == Entry(v, g, tail[k]) >= 2
    ensures if k + 1 < |tail| then Entry(v, g, tail[k]) == tail[k + 1] as int && IsCluster(g, tail[k + 1]) else Entry(v, g, tail[k]) >= g.nFatent
  {
    hide Entry;
    InUse(v, g, tail, k);
    if k + 1 < |tail| { assert LinkAt(v, g, tail, k); }
  }

  /** What a disk error may leave of the loop: the first k clusters are free, the next one in doubt, all else as before. */
  ghost predicate FreedPart(v: Sectors, w: Sectors, g: Geometry, tail: seq<Word>, k: nat)
  {
    && k < |tail|
    && forall d {:trigger Entry(w, g, d)} :: IsCluster(g, d) && d != tail[k] as int ==>
         Entry(w, g, d) == if OneOf(tail[..k], d) then 0 else Entry(v, g, d)
  }

  lemma FreedUpTo(v: Sectors, w: Sectors, w1: Sectors, w2: Sectors, g: Geometry, tail: seq<Word>, k: nat)
    requires k < |tail| && Freed(v, w, g, tail, k) && Unchanged(g, w, w1) && OthersKept(g, w1, w2, tail[k])
    ensures FreedPart(v, w2, g, tail, k)
  {
    hide Entry;
    forall d | IsCluster(g, d) && d != tail[k] as int ensures Entry(w2, g, d) == if OneOf(tail[..k], d) then 0 else Entry(v, g, d) {
      assert Entry(w2, g, d) == Entry(w1, g, d) == Entry(w, g, d);
    }
  }

  lemma KeptSelf(g: Geometry, v: Sectors, c: nat)
    ensures OthersKept(g, v, v, c)
  {
  }

  /** The loop of remove_chain. It ends on any FAT, a cyclic one too: every turn frees a cluster in use. */
  method FreeChain(fs: Volume, start: Word, ghost tail: seq<Word>) returns (res: FResult)
    requires fs.Valid() && IsCluster(fs.g, start)
    modifies fs`disk, fs`win, fs`winsect, fs`wflag, fs`failures
    ensures fs.Valid() && fs.failures >= old(fs.failures)
    ensures res == DiskErr ==> fs.failures > old(fs.failures)
    ensures IsTail(old(fs.View()), fs.g, tail) && |tail| > 0 && tail[0] == start ==>
              if res == DiskErr then exists k: nat :: FreedPart(old(fs.View()), fs.View(), fs.g, tail, k)
              else res == Ok && Freed(old(fs.View()), fs.View(), fs.g, tail, |tail|)
    ensures RestKept(fs.g, old(fs.View()), fs.View()) && (old(fs.Mirrored()) && fs.failures == old(fs.failures) ==> fs.Mirrored())
  {
    hide RestKept, Mirror, FreedPart, OthersKept, Entry, ClusterSize, FatBytes, FatSectors, HasFat, Changed, Unchanged, Freed, IsTail;
    ghost var v, g := fs.View(), fs.g;
    ghost var known := IsTail(v, g, tail) && |tail| > 0 && tail[0] == start;
    ghost var k := 0;
    SizeLimit(fs);
    LimitHolds(fs, start);
    SelfUnchanged(g, v);
    RestSelf(g, v);
    if known { FreedNone(v, v, g, tail); }
    var clst := start;
    while true
      invariant fs.Valid() && fs.failures >= old(fs.failures) && IsCluster(g, clst)
      invariant RestKept(g, v, fs.View()) && (old(fs.Mirrored()) && fs.failures == old(fs.failures) ==> fs.Mirrored())
      invariant known ==> k < |tail| && clst == tail[k] && Freed(v, fs.View(), g, tail, k)
      decreases Used(fs.View(), g, g.nFatent)
    {
      ghost var w := fs.View();
      var nxt := Get(fs, clst);
      ghost var w1 := fs.View();
      RestTrans(g, v, w, w1);
      if known { TailNext(v, w, g, tail, k); }
      if nxt == 0 {
        return Ok;
      }
      if nxt == 1 {
        return IntErr;
      }
      if nxt == NO_SECTOR {
        KeptSelf(g, w1, clst);
        if known { FreedUpTo(v, w, w1, w1, g, tail, k); }
        return DiskErr;
      }
      UsedSame(w, w1, g, g.nFatent);
      UnchangedAt(g, w, w1, clst);
      res := Put(fs, clst, 0);
      RestTrans(g, v, w1, fs.View());
      if res != Ok {
        if known { FreedUpTo(v, w, w1, fs.View(), g, tail, k); }
        return;
      }
      UsedFreed(w1, fs.View(), g, clst, g.nFatent);
      if known {
        FreedSame(v, w, w1, g, tail, k);
        FreedMore(v, w1, fs.View(), g, tail, k);
        k := k + 1;
      }
      clst := nxt;
      if clst >= fs.g.nFatent {
        return Ok;
      }
    }
  }

  lemma SelfUnchanged(g: Geometry, v: Sectors)
    ensures Unchanged(g, v, v)
  {
  }

  lemma UnchangedAt(g: Geometry, v: Sectors, w: Sectors, c: nat)
    requires Unchanged(g, v, w) && IsCluster(g, c)
    ensures Entry(w, g, c) == Entry(v, g, c)
  {
  }

  /** The FAT with the tail freed and, if there is a cluster before it, the end mark there. */
  ghost predicate Cut(v: Sectors, w: Sectors, g: Geometry, pclst: nat, tail: seq<Word>)
  {
    forall d {:trigger Entry(w, g, d)} :: IsCluster(g, d) ==>
      Entry(w, g, d) == if OneOf(tail, d) then 0 else if pclst != 0 && d == pclst then Eoc(g.kind) else Entry(v, g, d)
  }

  /** What a disk error may leave of that: the first k clusters are free, the cluster before them ends a chain once any is,
      and at most those two and the next one to be freed differ from before. */
  ghost predicate CutPart(v: Sectors, w: Sectors, g: Geometry, pclst: nat, tail: seq<Word>, k: nat)
  {
    && k < |tail|
    && forall d {:trigger Entry(w, g, d)} :: IsCluster(g, d) && d != tail[k] as int ==>
         if OneOf(tail[..k], d) then Entry(w, g, d) == 0
         else if pclst != 0 && d == pclst then k > 0 ==> Entry(w, g, d) == Eoc(g.kind)
         else Entry(w, g, d) == Entry(v, g, d)
  }

  lemma CutAtStart(v: Sectors, w: Sectors, g: Geometry, pclst: nat, tail: seq<Word>)
    requires |tail| > 0 && OthersKept(g, v, w, pclst) && pclst != 0
    ensures CutPart(v, w, g, pclst, tail, 0)
  {
    hide Entry;
  }

  lemma CutUpTo(v: Sectors, w: Sectors, w': Sectors, g: Geometry, pclst: nat, tail: seq<Word>, k: nat)
    requires FreedPart(w, w', g, tail, k) && if pclst == 0 then w == v else Changed(g, v, w, pclst, Eoc(g.kind))
    requires !OneOf(tail, pclst)
    ensures CutPart(v, w', g, pclst, tail, k)
  {
    hide Entry;
    forall d | IsCluster(g, d) && d != tail[k] as int
      ensures if OneOf(tail[..k], d) then Entry(w', g, d) == 0
              else if pclst != 0 && d == pclst then k > 0 ==> Entry(w', g, d) == Eoc(g.kind)
              else Entry(w', g, d) == Entry(v, g, d)
    {
      assert Entry(w', g, d) == if OneOf(tail[..k], d) then 0 else Entry(w, g, d);
      if pclst != 0 { assert Entry(w, g, d) == if d == pclst then Eoc(g.kind) else Entry(v, g, d); }
    }
  }

  /** remove_chain: frees the clusters from clst on and, unless pclst is 0, ends the chain at pclst. */
  method RemoveChain(fs: Volume, clst: Word, pclst: Word, ghost tail: seq<Word>) returns (res: FResult)
    requires fs.Valid()
    modifies fs`disk, fs`win, fs`winsect, fs`wflag, fs`failures
    ensures fs.Valid() && fs.failures >= old(fs.failures)
    ensures !IsCluster(fs.g, clst) ==> res == IntErr && fs.View() == old(fs.View())
    ensures res == DiskErr ==> fs.failures > old(fs.failures)
    ensures IsCluster(fs.g, clst) && IsTail(old(fs.View()), fs.g, tail) && |tail| > 0 && tail[0] == clst && !OneOf(tail, pclst) && (pclst == 0 || IsCluster(fs.g, pclst)) ==>
              if res == DiskErr then exists k: nat :: CutPart(old(fs.View()), fs.View(), fs.g, pclst, tail, k)
              else res == Ok && Cut(old(fs.View()), fs.View(), fs.g, pclst, tail)
    ensures RestKept(fs.g, old(fs.View()), fs.View()) && (old(fs.Mirrored()) && fs.failures == old(fs.failures) ==> fs.Mirrored())
  {
    hide RestKept, Mirror, CutPart, FreedPart, OthersKept, Entry, ClusterSize, FatBytes, FatSectors, HasFat, Changed, Unchanged, Freed, IsTail, Cut, OneOf;
    ghost var v, g := fs.View(), fs.g;
    RestSelf(g, v);
    if clst < 2 || clst >= fs.g.nFatent {
      return IntErr;
    }
    LimitHolds(fs, clst);
    if pclst != 0 {
      res := Put(fs, pclst, NO_SECTOR);
      if res != Ok {
        if res == DiskErr && |tail| > 0 { CutAtStart(v, fs.View(), g, pclst, tail); }
        return;
      }
    }
    ghost var w := fs.View();
    ghost var known := IsTail(v, g, tail) && |tail| > 0 && tail[0] == clst && !OneOf(tail, pclst) && (pclst == 0 || IsCluster(g, pclst));
    if known && pclst != 0 { TailStays(v, w, g, pclst, tail); }
    res := FreeChain(fs, clst, tail);
    RestTrans(g, v, w, fs.View());
    if known && res == Ok { CutBy(v, w, fs.View(), g, pclst, tail); }
    if known && res == DiskErr {
      ghost var k: nat :| FreedPart(w, fs.View(), g, tail, k);
      CutUpTo(v, w, fs.View(), g, pclst, tail, k);
    }
  }

  /** Ending the chain before the tail does not touch the tail. */
  lemma TailStays(v: Sectors, w: Sectors, g: Geometry, pclst: nat, tail: seq<Word>)
    requires IsTail(v, g, tail) && !OneOf(tail, pclst) && Changed(g, v, w, pclst, Eoc(g.kind))
    ensures IsTail(w, g, tail)
  {
    hide Entry;
    forall k | 0 <= k < |tail| ensures Entry(w, g, tail[k]) == Entry(v, g, tail[k]) {
      assert IsCluster(g, tail[k]);
    }
    ChainStays(v, w, g, tail);
  }

  lemma CutBy(v: Sectors, w: Sectors, w': Sectors, g: Geometry, pclst: nat, tail: seq<Word>)
    requires Freed(w, w', g, tail, |tail|) && if pclst == 0 then w == v else Changed(g, v, w, pclst, Eoc(g.kind))
    ensures Cut(v, w', g, pclst, tail)
  {
    hide Entry;
    assert tail[..|tail|] == tail;
    forall d | IsCluster(g, d)
      ensures Entry(w', g, d) == if OneOf(tail, d) then 0 else if pclst != 0 && d == pclst then Eoc(g.kind) else Entry(v, g, d)
    {
      assert Entry(w', g, d) == if OneOf(tail, d) then 0 else Entry(w, g, d);
      if pclst != 0 { assert Entry(w, g, d) == if d == pclst then Eoc(g.kind) else Entry(v, g, d); }
    }
  }

  // ----- remove_chain on disjoint chains

  /** The chains after one is removed from its k-th cluster on. */
  function Shortened(chains: seq<seq<Word>>, i: nat, k: nat): seq<seq<Word>>
    requires i < |chains| && k < |chains[i]|
  {
    if k == 0 then chains[..i] + chains[i + 1..] else chains[i := chains[i][..k]]
  }

  /** The rest of a chain of a partition is a tail, and the cluster before it is not in it. */
  lemma PartitionTail(v: Sectors, g: Geometry, chains: seq<seq<Word>>, i: nat, k: nat)
    requires Partition(v, g, chains) && i < |chains| && k < |chains[i]|
    ensures IsTail(v, g, chains[i][k..]) && chains[i][k..][0] == chains[i][k]
    ensures k > 0 ==> !OneOf(chains[i][k..], chains[i][k - 1]) && IsCluster(g, chains[i][k - 1])
    ensures g.nFatent >= 2 ==> !OneOf(chains[i][k..], 0)
  {
    hide Entry;
    var c := chains[i];
    var t := c[k..];
    assert IsChain(v, g, c);
    forall j | 0 <= j < |t| ensures IsCluster(g, t[j]) { assert t[j] == c[k + j]; }
    forall j | 0 <= j < |t| - 1 ensures LinkAt(v, g, t, j) { assert LinkAt(v, g, c, k + j); }
    forall a, b | 0 <= a < |t| && 0 <= b < |t| && t[a] == t[b] ensures a == b { assert Alone(chains, i, k + a); assert chains[i][k + b] == t[b]; }
    if k > 0 {
      assert IsCluster(g, c[k - 1]);
      assert Alone(chains, i, k - 1);
      forall a | 0 <= a < |t| ensures t[a] != c[k - 1] { assert chains[i][k + a] == t[a]; }
    }
  }

  /** remove_chain frees exactly the clusters from the k-th on and leaves the other chains, and the part before, as they were. */
  lemma RemoveKeepsChains(v: Sectors, w: Sectors, g: Geometry, chains: seq<seq<Word>>, i: nat, k: nat)
    requires g.nFatent >= 2 && Eoc(g.kind) >= g.nFatent
    requires Partition(v, g, chains) && i < |chains| && k < |chains[i]|
    requires Cut(v, w, g, if k == 0 then 0 else chains[i][k - 1], chains[i][k..])
    ensures Partition(w, g, Shortened(chains, i, k))
  {
    hide Entry, IsChain, OneOf;
    var chains' := Shortened(chains, i, k);
    forall j | 0 <= j < |chains'| ensures IsChain(w, g, chains'[j]) {
      if k > 0 && j == i {
        Prefix(v, w, g, chains, i, k);
      } else {
        var j0 := if k == 0 && j >= i then j + 1 else j;
        assert chains'[j] == chains[j0];
        OtherStays(v, w, g, chains, i, k, j0);
      }
    }
    forall j, l | 0 <= j < |chains'| && 0 <= l < |chains'[j]| ensures Alone(chains', j, l) { AloneShort(chains, i, k, j, l); }
    forall d | IsCluster(g, d) && Entry(w, g, d) != 0 ensures InChains(chains', d) { StillIn(v, w, g, chains, i, k, d); }
  }

  lemma Prefix(v: Sectors, w: Sectors, g: Geometry, chains: seq<seq<Word>>, i: nat, k: nat)
    requires g.nFatent >= 2 && Eoc(g.kind) >= g.nFatent && Partition(v, g, chains) && i < |chains| && 0 < k < |chains[i]|
    requires Cut(v, w, g, chains[i][k - 1], chains[i][k..])
    ensures IsChain(w, g, chains[i][..k])
  {
    hide Entry;
    var c := chains[i];
    var p := c[..k];
    assert IsChain(v, g, c);
    forall j | 0 <= j < k ensures IsCluster(g, c[j]) && !OneOf(c[k..], c[j]) && (c[j] == c[k - 1] ==> j == k - 1) {
      assert IsCluster(g, c[j]);
      assert Alone(chains, i, j);
      forall a | 0 <= a < |c[k..]| ensures c[k..][a] != c[j] { assert chains[i][k + a] == c[k..][a]; }
    }
    forall j | 0 <= j < |p| - 1 ensures LinkAt(w, g, p, j) { assert LinkAt(v, g, c, j); }
  }

  /** Another chain shares no cluster with the part removed or the cluster before it. */
  lemma OtherStays(v: Sectors, w: Sectors, g: Geometry, chains: seq<seq<Word>>, i: nat, k: nat, j: nat)
    requires Partition(v, g, chains) && i < |chains| && k < |chains[i]| && j < |chains| && j != i && g.nFatent >= 2
    requires Cut(v, w, g, if k == 0 then 0 else chains[i][k - 1], chains[i][k..])
    ensures IsChain(w, g, chains[j])
  {
    hide Entry;
    var c := chains[i];
    assert IsChain(v, g, chains[j]);
    forall l | 0 <= l < |chains[j]| ensures Entry(w, g, chains[j][l]) == Entry(v, g, chains[j][l]) {
      assert IsCluster(g, chains[j][l]);
      assert Alone(chains, j, l);
      forall a | 0 <= a < |c[k..]| ensures c[k..][a] != chains[j][l] { assert chains[i][k + a] == c[k..][a]; }
      if k > 0 { assert chains[i][k - 1] != chains[j][l]; }
    }
    ChainStays(v, w, g, chains[j]);
  }

  /** Where a cluster of the shortened chains was. */
  function Was(i: nat, k: nat, j: nat): nat
  {
    if k == 0 && j >= i then j + 1 else j
  }

  lemma AloneShort(chains: seq<seq<Word>>, i: nat, k: nat, j: nat, l: nat)
    requires i < |chains| && k < |chains[i]|
    requires forall a, b {:trigger Alone(chains, a, b)} :: 0 <= a < |chains| && 0 <= b < |chains[a]| ==> Alone(chains, a, b)
    requires j < |Shortened(chains, i, k)| && l < |Shortened(chains, i, k)[j]|
    ensures Alone(Shortened(chains, i, k), j, l)
  {
    var chains' := Shortened(chains, i, k);
    assert chains'[j][l] == chains[Was(i, k, j)][l];
    assert Alone(chains, Was(i, k, j), l);
    forall a, b | 0 <= a < |chains'| && 0 <= b < |chains'[a]| && chains'[a][b] == chains'[j][l] ensures a == j && b == l {
      assert chains'[a][b] == chains[Was(i, k, a)][b];
    }
  }

  lemma StillIn(v: Sectors, w: Sectors, g: Geometry, chains: seq<seq<Word>>, i: nat, k: nat, d: int)
    requires Partition(v, g, chains) && i < |chains| && k < |chains[i]| && IsCluster(g, d) && Entry(w, g, d) != 0
    requires g.nFatent >= 2
    requires Cut(v, w, g, if k == 0 then 0 else chains[i][k - 1], chains[i][k..])
    ensures InChains(Shortened(chains, i, k), d)
  {
    hide Entry, InChains, Alone, IsChain, Shortened;
    assert !OneOf(chains[i][k..], d);
    InUseAt(v, w, g, chains, i, k, d);
    KeptPart(chains, i, k, d);
  }

  /** A cluster that is not in the removed part is still in the chains. */
  lemma KeptPart(chains: seq<seq<Word>>, i: nat, k: nat, d: int)
    requires i < |chains| && k < |chains[i]| && !OneOf(chains[i][k..], d) && InChains(chains, d)
    ensures InChains(Shortened(chains, i, k), d)
  {
    var chains' := Shortened(chains, i, k);
    var a, b :| 0 <= a < |chains| && 0 <= b < |chains[a]| && chains[a][b] as int == d;
    if a == i {
      assert k > 0 && chains'[i] == chains[i][..k];
      assert chains'[i][b] as int == d;
    } else {
      var a' := if k == 0 && a > i then a - 1 else a;
      assert chains'[a'] == chains[a];
      assert chains'[a'][b] as int == d;
    }
  }

  lemma InUseAt(v: Sectors, w: Sectors, g: Geometry, chains: seq<seq<Word>>, i: nat, k: nat, d: int)
    requires Partition(v, g, chains) && i < |chains| && k < |chains[i]| && IsCluster(g, d) && Entry(w, g, d) != 0
    requires g.nFatent >= 2
    requires Cut(v, w, g, if k == 0 then 0 else chains[i][k - 1], chains[i][k..])
    ensures InChains(chains, d)
  {
    hide Entry, IsChain, Alone;
    if k > 0 && d == chains[i][k - 1] as int {
      assert chains[i][k - 1] as int == d;
    } else {
      assert Entry(v, g, d) == Entry(w, g, d);
    }
  }
}
