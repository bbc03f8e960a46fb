/** Runs of the pool itself: its entry points take the steps of Runs, and payloads outlive them. */
module PoolRuns {
  import opened Words
  import opened Heap
  import opened FreeLists
  import opened Invariant
  import opened Coalesce
  import opened Frames
  import opened Carve
  import opened NewPool
  import opened Runs
  import opened Tlsf

  // ----- the contracts of the entry points are steps

  /** The block a request names. */
  function Named(req: Request): set<nat>
  {
    if req.Allocate? then {} else {req.b}
  }

  ghost predicate NewlyLive(lo: nat, end: nat, s: Abs, s': Abs, p: nat)
  {
    p >= HDR && Live(lo, end, s'.blk, p - HDR) && !Live(lo, end, s.blk, p - HDR)
  }

  /** What malloc_ex promises is an allocation step, and its block was not live before. */
  lemma GrantStep(lo: nat, end: nat, s: Abs, s': Abs, p: nat, size: u32)
    requires Inv(lo, end, s) && Fits(size) && (p == 0 <==> NoneFits(s.blk, size))
    requires if p == 0 then s' == s else p > HDR && Granted(s, s', p - HDR, size)
    ensures Step(lo, end, s, Allocate(size), s')
    ensures p != 0 ==> NewlyLive(lo, end, s, s', p)
  {
    hide Inv, NoneFits, FirstFrom, TakenAbs, UsedKept;
    if p != 0 {
      GrantedInv(lo, end, s, s', p - HDR, size);
    }
  }

  /** What realloc_ex promises for a live block is a resizing step; the result is the same block or was not live. */
  lemma ResizeStep(lo: nat, end: nat, s: Abs, s': Abs, mem: Memory, mem': Memory, ptr: nat, p: nat, size: u32)
    requires Inv(lo, end, s) && ptr >= HDR && Live(lo, end, s.blk, ptr - HDR) && size != 0
    requires Resized(lo, s, s', mem, mem', ptr, p, size)
    ensures Step(lo, end, s, Resize(ptr - HDR, size), s')
    ensures p != 0 ==> (p == ptr && Live(lo, end, s'.blk, p - HDR)) || NewlyLive(lo, end, s, s', p)
    ensures p == 0 ==> s' == s
  {
    hide Inv, ResizedAbs, InPlace, NoneFits, PrefixKept, UsedKept, Moved, Live, NewlyLive;
    var b, n := ptr - HDR, Adjusted(size);
    if InPlace(s.blk, b, n) {
      ResizedInv(lo, end, s, b, n);
    } else if p != 0 {
      assert MovedTo(lo, s, s', b, p - HDR, n);
      MovedNew(lo, end, s, s', b, p - HDR, n);
    }
  }

  lemma MovedNew(lo: nat, end: nat, s: Abs, s': Abs, b: nat, a: nat, n: u32)
    requires Inv(lo, end, s) && Live(lo, end, s.blk, b) && MovedTo(lo, s, s', b, a, n)
    ensures NewlyLive(lo, end, s, s', a + HDR)
  {
    hide Inv, NoneFits, UsedKept, TakenAbs, FreedAbs;
    assert (a + HDR) - HDR == a;
    MovedInv(lo, end, s, s', b, a, n);
  }

  // ----- traces: a run with the memory before and after each call

  datatype Trace = Trace(reqs: seq<Request>, states: seq<Abs>, mems: seq<Memory>)

  /** The states are a run from a new pool, and no call changes a payload it does not name. */
  ghost predicate Traced(lo: nat, end: nat, t: Trace)
  {
    && Run(lo, end, t.states, t.reqs) && |t.mems| == |t.states|
    && forall i {:trigger t.reqs[i]} :: 0 <= i < |t.reqs| ==> PayloadsKept(t.states[i].blk, Named(t.reqs[i]), t.mems[i], t.mems[i + 1])
  }

  /** The trace ends in this heap and this memory. */
  ghost predicate EndsIn(t: Trace, s: Abs, mem: Memory)
  {
    |t.states| == |t.mems| == |t.reqs| + 1 && t.states[|t.reqs|] == s && t.mems[|t.reqs|] == mem
  }

  function Extended(t: Trace, req: Request, s: Abs, mem: Memory): Trace
  {
    Trace(t.reqs + [req], t.states + [s], t.mems + [mem])
  }

  lemma TraceGrows(lo: nat, end: nat, t: Trace, s: Abs, mem: Memory, req: Request, s': Abs, mem': Memory)
    requires Traced(lo, end, t) && EndsIn(t, s, mem)
    requires Step(lo, end, s, req, s') && PayloadsKept(s.blk, Named(req), mem, mem')
    ensures Traced(lo, end, Extended(t, req, s', mem')) && EndsIn(Extended(t, req, s', mem'), s', mem')
  {
    hide Step, PayloadsKept, Roomy;
    var n, t' := |t.reqs|, Extended(t, req, s', mem');
    forall i | 0 <= i < |t'.reqs|
      ensures Step(lo, end, t'.states[i], t'.reqs[i], t'.states[i + 1])
      ensures PayloadsKept(t'.states[i].blk, Named(t'.reqs[i]), t'.mems[i], t'.mems[i + 1])
    {
      if i < n { assert t'.reqs[i] == t.reqs[i]; }
    }
  }

  /** No call from i to j names the block. */
  ghost predicate Unnamed(reqs: seq<Request>, i: nat, j: nat, u: nat)
    requires j <= |reqs|
  {
    forall k {:trigger reqs[k]} :: i <= k < j ==> u !in Named(reqs[k])
  }

  /** A word of a live payload is, until a call names its block, what it was. */
  lemma {:induction false} PayloadUntilNamed(lo: nat, end: nat, t: Trace, i: nat, j: nat, u: nat, p: nat)
    requires Traced(lo, end, t) && i <= j <= |t.reqs| && Live(lo, end, t.states[i].blk, u) && Unnamed(t.reqs, i, j, u)
    requires PayloadWord(t.states[i].blk, u, p) && p in t.mems[i]
    ensures Live(lo, end, t.states[j].blk, u) && t.states[j].blk[u].size == t.states[i].blk[u].size
    ensures p in t.mems[j] && t.mems[j][p] == t.mems[i][p]
    decreases j
  {
    hide Step, Roomy, PayloadsKept;
    LiveUntilNamed(lo, end, t.states, t.reqs, i, j, u);
    if i < j {
      LiveUntilNamed(lo, end, t.states, t.reqs, i, j - 1, u);
      PayloadUntilNamed(lo, end, t, i, j - 1, u, p);
      assert u !in Named(t.reqs[j - 1]);
      PayloadWordKept(t.states[j - 1].blk, Named(t.reqs[j - 1]), t.mems[j - 1], t.mems[j], u, p);
    }
  }

  lemma PayloadWordKept(blk: Blocks, ex: set<nat>, mem: Memory, mem': Memory, u: nat, p: nat)
    requires PayloadsKept(blk, ex, mem, mem') && u in blk && !blk[u].free && u !in ex && PayloadWord(blk, u, p) && p in mem
    ensures p in mem' && mem'[p] == mem[p]
  {
  }

  // ----- a client that keeps its pointers in a table

  /** The calls of a client: a new entry for each malloc_ex, free_ex and realloc_ex of the k-th entry. */
  datatype Call = Malloc(size: u32) | Free(k: nat) | Realloc(k: nat, size: u32)

  /** The sizes asked for have a class. */
  predicate Served(c: Call)
  {
    match c
    case Malloc(size) => Fits(size)
    case Free(_) => true
    case Realloc(_, size) => size == 0 || Fits(size)
  }

  /** Entries are NULL or lie behind a header. */
  predicate EntriesApart(table: seq<nat>)
  {
    forall i :: 0 <= i < |table| ==> table[i] == 0 || table[i] >= HDR
  }

  /** What a call asks of the pool: nothing if its entry is NULL, or beyond the table, and no size is given. */
  function Requests(table: seq<nat>, c: Call): seq<Request>
    requires EntriesApart(table)
  {
    match c
    case Malloc(size) => [Allocate(size)]
    case Free(k) => if k < |table| && table[k] != 0 then [Release(table[k] - HDR)] else []
    case Realloc(k, size) =>
      if k >= |table| then []
      else if table[k] == 0 then if size == 0 then [] else [Allocate(size)]
      else if size == 0 then [Release(table[k] - HDR)] else [Resize(table[k] - HDR, size)]
  }

  /** What a call does to the table: at most its own entry changes, to NULL if it releases. */
  predicate Answered(table: seq<nat>, c: Call, table': seq<nat>)
  {
    match c
    case Malloc(_) => |table'| == |table| + 1 && table'[..|table|] == table
    case Free(k) => table' == if k < |table| then table[k := 0] else table
    case Realloc(k, size) =>
      if k < |table| then |table'| == |table| && table' == table[k := table'[k]] && (size == 0 ==> table'[k] == 0) else table' == table
  }

  /** The tables before and after each of the calls. */
  predicate Tabled(tables: seq<seq<nat>>, calls: seq<Call>)
  {
    && |tables| == |calls| + 1 && tables[0] == []
    && (forall i :: 0 <= i < |tables| ==> EntriesApart(tables[i]))
    && forall i :: 0 <= i < |calls| ==> Answered(tables[i], calls[i], tables[i + 1])
  }

  /** The requests of the calls, one after the other. */
  function AllRequests(tables: seq<seq<nat>>, calls: seq<Call>): seq<Request>
    requires |calls| <= |tables| && forall i :: 0 <= i < |calls| ==> EntriesApart(tables[i])
    decreases |calls|
  {
    if calls == [] then []
    else var n := |calls| - 1; AllRequests(tables, calls[..n]) + Requests(tables[n], calls[n])
  }

  lemma {:induction false} RequestsLocal(tables: seq<seq<nat>>, table: seq<nat>, calls: seq<Call>)
    requires |calls| <= |tables| && forall i :: 0 <= i < |calls| ==> EntriesApart(tables[i])
    ensures AllRequests(tables + [table], calls) == AllRequests(tables, calls)
    decreases |calls|
  {
    if calls != [] { RequestsLocal(tables, table, calls[..|calls| - 1]); }
  }

  /** One more call. */
  lemma TabledMore(tables: seq<seq<nat>>, calls: seq<Call>, call: Call, table: seq<nat>)
    requires Tabled(tables, calls) && EntriesApart(table) && Answered(tables[|calls|], call, table)
    ensures Tabled(tables + [table], calls + [call])
    ensures AllRequests(tables + [table], calls + [call]) == AllRequests(tables, calls) + Requests(tables[|calls|], call)
  {
    hide Answered, Requests;
    var ts, cs := tables + [table], calls + [call];
    assert cs[..|cs| - 1] == calls;
    RequestsLocal(tables, table, calls);
    forall i | 0 <= i < |cs| ensures Answered(ts[i], cs[i], ts[i + 1]) {
      if i < |calls| { assert cs[i] == calls[i] && ts[i] == tables[i] && ts[i + 1] == tables[i + 1]; }
    }
  }

  /** The entries are NULL or different live blocks. */
  ghost predicate Owned(lo: nat, end: nat, blk: Blocks, table: seq<nat>)
  {
    && (forall i {:trigger table[i]} :: 0 <= i < |table| && table[i] != 0 ==> table[i] >= HDR && Live(lo, end, blk, table[i] - HDR))
    && forall i, j {:trigger table[i], table[j]} :: 0 <= i < j < |table| && table[i] != 0 ==> table[i] != table[j]
  }

  /** A step that names no entry keeps them all. */
  lemma OwnedKeeps(lo: nat, end: nat, s: Abs, req: Request, s': Abs, table: seq<nat>)
    requires Inv(lo, end, s) && Step(lo, end, s, req, s') && Owned(lo, end, s.blk, table)
    requires forall i {:trigger table[i]} :: 0 <= i < |table| && table[i] != 0 ==> table[i] - HDR !in Named(req)
    ensures Owned(lo, end, s'.blk, table)
  {
    hide Inv, Step, Live;
    StepKeepsInv(lo, end, s, req, s');
    forall i | 0 <= i < |table| && table[i] != 0 ensures Live(lo, end, s'.blk, table[i] - HDR) {
      assert Live(lo, end, s.blk, table[i] - HDR) && table[i] - HDR !in Named(req);
    }
  }

  /** The table without its k-th entry names the block of that entry nowhere. */
  lemma OwnedBut(lo: nat, end: nat, blk: Blocks, table: seq<nat>, k: nat)
    requires Owned(lo, end, blk, table) && k < |table| && table[k] != 0
    ensures Owned(lo, end, blk, table[k := 0])
    ensures forall i {:trigger table[k := 0][i]} :: 0 <= i < |table| && table[k := 0][i] != 0 ==> table[k := 0][i] != table[k]
  {
    hide Live;
  }

  /** A block that no entry names goes into a NULL entry. */
  lemma OwnedPut(lo: nat, end: nat, blk: Blocks, table: seq<nat>, k: nat, p: nat)
    requires Owned(lo, end, blk, table) && k < |table| && p >= HDR && Live(lo, end, blk, p - HDR)
    requires forall i {:trigger table[i]} :: 0 <= i < |table| && i != k ==> table[i] != p
    requires table[k] == 0
    ensures Owned(lo, end, blk, table[k := p])
  {
    hide Live;
  }

  lemma OwnedMore(lo: nat, end: nat, blk: Blocks, table: seq<nat>, p: nat)
    requires Owned(lo, end, blk, table) && (p != 0 ==> p >= HDR && Live(lo, end, blk, p - HDR))
    requires forall i {:trigger table[i]} :: 0 <= i < |table| && p != 0 ==> table[i] != p
    ensures Owned(lo, end, blk, table + [p])
  {
    hide Live;
  }

  lemma NotAmong(lo: nat, end: nat, s: Abs, s': Abs, table: seq<nat>, p: nat)
    requires Owned(lo, end, s.blk, table) && NewlyLive(lo, end, s, s', p)
    ensures forall i {:trigger table[i]} :: 0 <= i < |table| ==> table[i] != p
  {
    hide Live;
  }

  /** A heap, memory and table at the end of a trace. */
  ghost predicate Reached(lo: nat, end: nat, t: Trace, s: Abs, mem: Memory, table: seq<nat>)
  {
    Traced(lo, end, t) && EndsIn(t, s, mem) && Owned(lo, end, s.blk, table)
  }

  lemma ReachedEntries(lo: nat, end: nat, t: Trace, s: Abs, mem: Memory, table: seq<nat>)
    requires Reached(lo, end, t, s, mem, table)
    ensures EntriesApart(table)
  {
    hide Traced, EndsIn, Live;
  }

  /** malloc_ex for the client. */
  method Allocating(pool: Pool, size: u32, table: seq<nat>, ghost t: Trace) returns (p: nat, ghost t': Trace)
    requires pool.Valid() && Reached(pool.lo, pool.end, t, Abs(pool.blk, pool.lists), pool.mem, table) && Fits(size)
    modifies pool
    ensures pool.Valid() && Reached(pool.lo, pool.end, t', Abs(pool.blk, pool.lists), pool.mem, table)
    ensures p != 0 ==> p >= HDR && Live(pool.lo, pool.end, pool.blk, p - HDR) && forall i {:trigger table[i]} :: 0 <= i < |table| ==> table[i] != p
    ensures t.mems <= t'.mems && t'.reqs == t.reqs + [Allocate(size)]
  {
    hide Inv, Mapped, HeadersBut, ListsInMemory, NoneFits, Granted, UsedKept, PayloadsKept, Traced, Owned, Live, Step, Fits;
    ghost var s, m := Abs(pool.blk, pool.lists), pool.mem;
    p := pool.MallocEx(size);
    ghost var s' := Abs(pool.blk, pool.lists);
    GrantStep(pool.lo, pool.end, s, s', p, size);
    if p != 0 { NotAmong(pool.lo, pool.end, s, s', table, p); }
    OwnedKeeps(pool.lo, pool.end, s, Allocate(size), s', table);
    TraceGrows(pool.lo, pool.end, t, s, m, Allocate(size), s', pool.mem);
    t' := Extended(t, Allocate(size), s', pool.mem);
  }

  /** free_ex of the k-th entry, which becomes NULL. */
  method Releasing(pool: Pool, table: seq<nat>, k: nat, ghost t: Trace) returns (table': seq<nat>, ghost t': Trace)
    requires pool.Valid() && Reached(pool.lo, pool.end, t, Abs(pool.blk, pool.lists), pool.mem, table) && k < |table|
    requires table[k] == 0 || table[k] >= HDR
    modifies pool
    ensures pool.Valid() && Reached(pool.lo, pool.end, t', Abs(pool.blk, pool.lists), pool.mem, table') && table' == table[k := 0]
    ensures t.mems <= t'.mems && t'.reqs == if table[k] == 0 then t.reqs else t.reqs + [Release(table[k] - HDR)]
  {
    hide Inv, Mapped, HeadersBut, ListsInMemory, FreedAbs, UsedKept, PayloadsKept, Traced, Owned;
    ghost var s, m := Abs(pool.blk, pool.lists), pool.mem;
    table' := table[k := 0];
    if table[k] == 0 {
      assert table' == table;
      pool.FreeEx(0);
      t' := t;
      return;
    }
    OwnedAt(pool.lo, pool.end, pool.blk, table, k);
    ghost var b := table[k] - HDR;
    pool.FreeEx(table[k]);
    ghost var s' := Abs(pool.blk, pool.lists);
    OwnedBut(pool.lo, pool.end, s.blk, table, k);
    OwnedKeeps(pool.lo, pool.end, s, Release(b), s', table');
    TraceGrows(pool.lo, pool.end, t, s, m, Release(b), s', pool.mem);
    t' := Extended(t, Release(b), s', pool.mem);
  }

  lemma OwnedAt(lo: nat, end: nat, blk: Blocks, table: seq<nat>, k: nat)
    requires Owned(lo, end, blk, table) && k < |table| && table[k] != 0
    ensures table[k] >= HDR && Live(lo, end, blk, table[k] - HDR)
  {
  }

  /** realloc_ex of a live k-th entry to a non-zero size. */
  method Resizing(pool: Pool, table: seq<nat>, k: nat, size: u32, ghost t: Trace) returns (table': seq<nat>, ghost t': Trace)
    requires pool.Valid() && Reached(pool.lo, pool.end, t, Abs(pool.blk, pool.lists), pool.mem, table)
    requires k < |table| && table[k] >= HDR && size != 0 && Fits(size)
    modifies pool
    ensures pool.Valid() && Reached(pool.lo, pool.end, t', Abs(pool.blk, pool.lists), pool.mem, table') && |table'| == |table| && table' == table[k := table'[k]]
    ensures t.mems <= t'.mems && t'.reqs == t.reqs + [Resize(table[k] - HDR, size)]
  {
    hide Inv, Mapped, HeadersBut, ListsInMemory, Resized, Granted, FreedAbs, NoneFits, UsedKept, PayloadsKept, Traced, Owned, Step, Fits, Live;
    ghost var s, m := Abs(pool.blk, pool.lists), pool.mem;
    OwnedAt(pool.lo, pool.end, pool.blk, table, k);
    var ptr := table[k];
    ghost var b := ptr - HDR;
    var p := pool.ReallocEx(ptr, size);
    ghost var s' := Abs(pool.blk, pool.lists);
    ResizeStep(pool.lo, pool.end, s, s', m, pool.mem, ptr, p, size);
    OwnedBut(pool.lo, pool.end, s.blk, table, k);
    TraceGrows(pool.lo, pool.end, t, s, m, Resize(b, size), s', pool.mem);
    t' := Extended(t, Resize(b, size), s', pool.mem);
    if p == 0 {
      table' := table;
      return;
    }
    var rest := table[k := 0];
    OwnedKeeps(pool.lo, pool.end, s, Resize(b, size), s', rest);
    if p != ptr { NotAmong(pool.lo, pool.end, s, s', rest, p); }
    OwnedPut(pool.lo, pool.end, s'.blk, rest, k, p);
    table' := table[k := p];
    assert rest[k := p] == table';
  }

  /** One call of the client. */
  method Serve(pool: Pool, table: seq<nat>, call: Call, ghost t: Trace) returns (table': seq<nat>, ghost t': Trace)
    requires pool.Valid() && Reached(pool.lo, pool.end, t, Abs(pool.blk, pool.lists), pool.mem, table) && Served(call)
    modifies pool
    ensures pool.Valid() && Reached(pool.lo, pool.end, t', Abs(pool.blk, pool.lists), pool.mem, table')
    ensures EntriesApart(table) && t.mems <= t'.mems && t'.reqs == t.reqs + Requests(table, call) && Answered(table, call, table')
  {
    hide Inv, Mapped, HeadersBut, ListsInMemory, Traced, EndsIn, Fits, Live;
    ReachedEntries(pool.lo, pool.end, t, Abs(pool.blk, pool.lists), pool.mem, table);
    table', t' := table, t;
    match call {
      case Malloc(size) =>
        var p;
        p, t' := Allocating(pool, size, table, t);
        OwnedMore(pool.lo, pool.end, pool.blk, table, p);
        table' := table + [p];
      case Free(k) =>
        if k < |table| {
          table', t' := Releasing(pool, table, k, t);
        }
      case Realloc(k, size) =>
        if k < |table| {
          if size == 0 {
            table', t' := Releasing(pool, table, k, t);
          } else if table[k] == 0 {
            var p;
            p, t' := Allocating(pool, size, table, t);
            if p != 0 {
              OwnedPut(pool.lo, pool.end, pool.blk, table, k, p);
              table' := table[k := p];
            }
          } else {
            table', t' := Resizing(pool, table, k, size, t);
          }
        }
    }
  }

  /** Any program of calls on a new pool: its states are a run whose requests are those of the calls, its pointers are
      different live blocks, and along the trace PayloadUntilNamed holds of the words of every live payload. */
  method Replay(pool: Pool, calls: seq<Call>) returns (table: seq<nat>, ghost t: Trace, ghost tables: seq<seq<nat>>)
    requires pool.Valid() && Roomy(pool.lo, pool.end) && Abs(pool.blk, pool.lists) == InitialAbs(pool.lo, pool.end)
    requires forall i :: 0 <= i < |calls| ==> Served(calls[i])
    modifies pool
    ensures pool.Valid() && Reached(pool.lo, pool.end, t, Abs(pool.blk, pool.lists), pool.mem, table)
    ensures t.mems[0] == old(pool.mem)
    ensures Follows(tables, calls, table, t.reqs)
  {
    hide Inv, Mapped, HeadersBut, ListsInMemory, Served, Answered, Requests;
    table, tables := [], [[]];
    t := Trace([], [Abs(pool.blk, pool.lists)], [pool.mem]);
    assert Reached(pool.lo, pool.end, t, Abs(pool.blk, pool.lists), pool.mem, table);
    assert calls[..0] == [];
    hide Reached, Tabled, AllRequests;
    for i := 0 to |calls|
      invariant pool.Valid() && Reached(pool.lo, pool.end, t, Abs(pool.blk, pool.lists), pool.mem, table)
      invariant |t.mems| > 0 && t.mems[0] == old(pool.mem)
      invariant Follows(tables, calls[..i], table, t.reqs)
    {
      ghost var before := table;
      ghost var reqs := t.reqs;
      table, t := Serve(pool, table, calls[i], t);
      ReachedEntries(pool.lo, pool.end, t, Abs(pool.blk, pool.lists), pool.mem, table);
      assert calls[..i + 1] == calls[..i] + [calls[i]];
      FollowsOn(tables, calls[..i], before, reqs, calls[i], table);
      tables := tables + [table];
    }
    assert calls[..|calls|] == calls;
  }

  /** The tables and requests of a client that made these calls. */
  ghost predicate Follows(tables: seq<seq<nat>>, calls: seq<Call>, table: seq<nat>, reqs: seq<Request>)
  {
    Tabled(tables, calls) && tables[|calls|] == table && reqs == AllRequests(tables, calls)
  }

  lemma FollowsOn(tables: seq<seq<nat>>, calls: seq<Call>, table: seq<nat>, reqs: seq<Request>, call: Call, table': seq<nat>)
    requires Follows(tables, calls, table, reqs) && EntriesApart(table') && EntriesApart(table) && Answered(table, call, table')
    ensures Follows(tables + [table'], calls + [call], table', reqs + Requests(table, call))
  {
    hide Answered, Requests;
    TabledMore(tables, calls, call, table');
  }

  // ----- the pool restored

  /** malloc_ex and free_ex of its result: the heap, every list head and both levels of bitmaps are as before, and no
      live payload changed. */
  method AllocateRelease(pool: Pool, size: u32) returns (p: nat)
    requires pool.Valid() && Fits(size)
    modifies pool
    ensures pool.Valid() && Abs(pool.blk, pool.lists) == old(Abs(pool.blk, pool.lists))
    ensures pool.matrix == old(pool.matrix) && pool.slBitmap == old(pool.slBitmap) && pool.flBitmap == old(pool.flBitmap)
    ensures PayloadsKept(old(pool.blk), {}, old(pool.mem), pool.mem)
  {
    hide Inv, Mapped, HeadersBut, ListsInMemory, NoneFits, Granted, UsedKept, PayloadsKept, FreedAbs, Fits, Live;
    ghost var s, m, x, sl, fl := Abs(pool.blk, pool.lists), pool.mem, pool.matrix, pool.slBitmap, pool.flBitmap;
    p := pool.MallocEx(size);
    if p == 0 {
      return;
    }
    ghost var s1, m1 := Abs(pool.blk, pool.lists), pool.mem;
    AllocateThenRelease(pool.lo, pool.end, s, s1, p - HDR, size);
    pool.FreeEx(p);
    IndexDetermined(m, x, sl, fl, pool.mem, pool.matrix, pool.slBitmap, pool.flBitmap, s.lists);
    WasFree(s, s1, p - HDR, size);
    KeptPast(s.blk, m, m1, s1.blk, p - HDR, pool.mem);
  }

  lemma WasFree(s: Abs, s': Abs, a: nat, size: u32)
    requires Granted(s, s', a, size)
    ensures a in s.blk && s.blk[a].free
  {
  }

  lemma KeptPast(blk: Blocks, m: Memory, m1: Memory, blk1: Blocks, a: nat, m2: Memory)
    requires PayloadsKept(blk, {}, m, m1) && UsedKept(blk, {}, blk1) && PayloadsKept(blk1, {a}, m1, m2)
    requires a in blk && blk[a].free
    ensures PayloadsKept(blk, {}, m, m2)
  {
    forall u, p: nat | u in blk && !blk[u].free && PayloadWord(blk, u, p) && p in m ensures p in m2 && m2[p] == m[p] {
      assert blk1[u].size == blk[u].size && PayloadWord(blk1, u, p);
    }
  }

  /** free_ex of every live block, in any order: the new pool again, heads and bitmaps included. */
  method ReleaseEach(pool: Pool, order: seq<nat>)
    requires pool.Valid() && Roomy(pool.lo, pool.end) && Distinct(order)
    requires forall a :: a in order <==> Live(pool.lo, pool.end, pool.blk, a)
    modifies pool
    ensures pool.Valid() && Abs(pool.blk, pool.lists) == InitialAbs(pool.lo, pool.end)
  {
    hide Inv, Mapped, HeadersBut, ListsInMemory, FreedAbs, UsedKept, PayloadsKept, Live;
    var i := 0;
    while i < |order|
      invariant 0 <= i <= |order| && pool.Valid() && Distinct(order[i..])
      invariant forall a :: a in order[i..] <==> Live(pool.lo, pool.end, pool.blk, a)
    {
      ghost var s := Abs(pool.blk, pool.lists);
      var b := order[i];
      assert order[i..][0] == b && b in order[i..];
      pool.FreeEx(b + HDR);
      ReleaseStep(pool.lo, pool.end, s, order[i..], b);
      assert order[i..][1..] == order[i + 1..];
      i := i + 1;
    }
    NothingLiveIsInitial(pool.lo, pool.end, Abs(pool.blk, pool.lists)) by { NoneLeft(pool.lo, pool.end, pool.blk, order[i..]); }
  }

  lemma NoneLeft(lo: nat, end: nat, blk: Blocks, order: seq<nat>)
    requires order == [] && forall a :: a in order <==> Live(lo, end, blk, a)
    ensures NothingLive(lo, end, blk)
  {
    hide Live;
  }

  /** Releasing the first block of those that are live leaves the others live. */
  lemma ReleaseStep(lo: nat, end: nat, s: Abs, order: seq<nat>, b: nat)
    requires Inv(lo, end, s) && order != [] && order[0] == b && Live(lo, end, s.blk, b)
    requires Distinct(order)
    requires forall a :: a in order <==> Live(lo, end, s.blk, a)
    ensures forall a :: a in order[1..] <==> Live(lo, end, FreedAbs(lo, s, b).blk, a)
  {
    hide Inv, FreedAbs;
    FreedInv(lo, end, s, b);
    var s' := FreedAbs(lo, s, b);
    forall a ensures a in order[1..] <==> Live(lo, end, s'.blk, a) {
      assert a in order <==> a == b || a in order[1..];
      assert a in s'.blk ==> !s'.blk[a].free || s'.blk[a].free;
    }
  }
}
