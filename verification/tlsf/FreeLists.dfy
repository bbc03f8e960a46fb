/** The matrix of doubly linked free lists and the two levels of bitmaps over it. */
module FreeLists {
  import opened Words
  import opened Mapping
  import opened Heap

  type Matrix = map<Class, nat>

  /** Every list of the matrix is present. */
  predicate Total(lists: Lists)
  {
    forall f, s | 0 <= f < REAL_FLI && 0 <= s < MAX_SLI :: Class(f, s) in lists
  }

  function Remove(l: seq<nat>, x: nat): seq<nat>
  {
    if l == [] then [] else if l[0] == x then l[1..] else [l[0]] + Remove(l[1..], x)
  }

  ghost predicate Distinct(l: seq<nat>)
  {
    forall i, j :: 0 <= i < j < |l| ==> l[i] != l[j]
  }

  lemma {:induction false} RemoveAt(l: seq<nat>, i: nat)
    requires i < |l| && Distinct(l)
    ensures |Remove(l, l[i])| == |l| - 1
    ensures forall j {:trigger Remove(l, l[i])[j]} :: 0 <= j < |l| - 1 ==> Remove(l, l[i])[j] == if j < i then l[j] else l[j + 1]
  {
    if i > 0 {
      var t := l[1..];
      assert t[i - 1] == l[i] && l[0] != l[i];
      RemoveAt(t, i - 1);
      assert Remove(l, l[i]) == [l[0]] + Remove(t, l[i]);
    }
  }

  // ----- links in memory

  /** The two link words in the payload of a free block. */
  predicate LinkedAt(mem: Memory, l: seq<nat>, i: nat)
    requires i < |l|
  {
    && l[i] + 8 in mem && l[i] + 12 in mem
    && mem[l[i] + 8] == (if i == 0 then 0 else l[i - 1])
    && mem[l[i] + 12] == (if i + 1 == |l| then 0 else l[i + 1])
  }

  ghost predicate Linked(mem: Memory, l: seq<nat>)
  {
    forall i: nat :: i < |l| ==> LinkedAt(mem, l, i)
  }

  /** Distinct members are at least a header and two links apart, and none is NULL. */
  ghost predicate Spaced(l: seq<nat>)
  {
    && (forall x :: x in l ==> x > 0)
    && forall x, y :: x in l && y in l && x < y ==> x + SPLIT_MIN <= y
  }

  /** The link words as EXTRACT_BLOCK leaves them. */
  function Unlink(mem: Memory, b: nat): Memory
    requires b + 8 in mem && b + 12 in mem
  {
    var p: u32 := mem[b + 8];
    var n: u32 := mem[b + 12];
    var m1: Memory := if n != 0 then mem[n + 8 := p] else mem;
    var m2: Memory := if p != 0 then m1[p + 12 := n] else m1;
    m2[b + 8 := 0][b + 12 := 0]
  }

  /** The link words as INSERT_BLOCK leaves them, for a list whose head was h. */
  function Link(mem: Memory, b: u32, h: u32): Memory
  {
    var m: Memory := mem[b + 8 := 0][b + 12 := h];
    if h != 0 then m[h + 8 := b] else m
  }

  /** Unlinking l[i] rewrites one link of each neighbour and no other link. */
  lemma UnlinkReads(mem: Memory, l: seq<nat>, i: nat, k: nat)
    requires i < |l| && k < |l| && k != i && Linked(mem, l) && Distinct(l) && Spaced(l)
    ensures LinkedAt(mem, l, i) && LinkedAt(mem, l, k)
    ensures var mem' := Unlink(mem, l[i]);
      && l[k] + 8 in mem' && l[k] + 12 in mem'
      && mem'[l[k] + 8] == (if k == i + 1 then mem[l[i] + 8] else mem[l[k] + 8])
      && mem'[l[k] + 12] == (if k + 1 == i then mem[l[i] + 12] else mem[l[k] + 12])
  {
    assert LinkedAt(mem, l, i) && LinkedAt(mem, l, k);
    WordsApart(l, k, i);
    if i > 0 { WordsApart(l, k, i - 1); }
    if i + 1 < |l| { WordsApart(l, k, i + 1); }
  }

  lemma UnlinkKeepsList(mem: Memory, l: seq<nat>, i: nat)
    requires i < |l| && Linked(mem, l) && Distinct(l) && Spaced(l)
    ensures LinkedAt(mem, l, i)
    ensures Linked(Unlink(mem, l[i]), Remove(l, l[i]))
  {
    assert LinkedAt(mem, l, i);
    var mem' := Unlink(mem, l[i]);
    var l' := Remove(l, l[i]);
    RemoveAt(l, i);
    forall j: nat | j < |l'| ensures LinkedAt(mem', l', j) {
      var k := if j < i then j else j + 1;
      UnlinkReads(mem, l, i, k);
      assert l'[j] == l[k];
      assert j > 0 ==> l'[j - 1] == if j - 1 < i then l[j - 1] else l[j];
      assert j + 1 < |l'| ==> l'[j + 1] == if j + 1 < i then l[j + 1] else l[j + 2];
      hide Unlink, Linked, Distinct, Spaced, Remove;
    }
  }

  lemma WordsApart(l: seq<nat>, j: nat, k: nat)
    requires j < |l| && k < |l| && Distinct(l) && Spaced(l)
    ensures l[j] > 0 && l[k] > 0 && (j != k ==> l[j] + 16 <= l[k] || l[k] + 16 <= l[j])
  {
    assert l[j] in l && l[k] in l;
  }

  /** p is not a link word of any member of l. */
  ghost predicate OffList(l: seq<nat>, p: nat)
  {
    forall x :: x in l ==> p != x + 8 && p != x + 12
  }

  /** Unlinking writes link words of members only. */
  lemma UnlinkFrame(mem: Memory, l: seq<nat>, x: nat, p: nat)
    requires x in l && Linked(mem, l) && OffList(l, p)
    ensures x + 8 in mem && x + 12 in mem
    ensures p in mem <==> p in Unlink(mem, x)
    ensures p in mem ==> Unlink(mem, x)[p] == mem[p]
  {
    var i: nat :| i < |l| && l[i] == x;
    assert LinkedAt(mem, l, i);
    if i > 0 { assert l[i - 1] in l; }
    if i + 1 < |l| { assert l[i + 1] in l; }
  }

  lemma UnlinkDomain(mem: Memory, l: seq<nat>, x: nat)
    requires x in l && Linked(mem, l)
    ensures x + 8 in mem && x + 12 in mem && Unlink(mem, x).Keys == mem.Keys
  {
    var i: nat :| i < |l| && l[i] == x;
    assert LinkedAt(mem, l, i);
    if i > 0 { assert LinkedAt(mem, l, i - 1); }
    if i + 1 < |l| { assert LinkedAt(mem, l, i + 1); }
  }

  lemma LinkExtendsList(mem: Memory, l: seq<nat>, b: u32)
    requires Linked(mem, l) && Distinct([b] + l) && Spaced([b] + l)
    requires l != [] ==> l[0] < WORD
    ensures Linked(Link(mem, b, if l == [] then 0 else l[0]), [b] + l)
  {
    var l' := [b] + l;
    var mem' := Link(mem, b, if l == [] then 0 else l[0]);
    forall j: nat | j < |l'| ensures LinkedAt(mem', l', j) {
      WordsApart(l', 0, j);
      assert j + 1 < |l'| ==> l'[j + 1] == l[j];
      if j > 0 {
        assert l'[j] == l[j - 1] && LinkedAt(mem, l, j - 1);
        assert j > 1 ==> l'[j - 1] == l[j - 2];
        WordsApart(l', 1, j);
      } else if l != [] {
        WordsApart(l', 0, 1);
      }
    }
  }

  /** A list none of whose link words changes stays linked. */
  lemma LinkedElsewhere(mem: Memory, mem': Memory, l: seq<nat>)
    requires Linked(mem, l)
    requires forall x :: x in l ==> x + 8 in mem' && x + 12 in mem'
    requires forall x :: x in l && x + 8 in mem && x + 12 in mem ==> mem'[x + 8] == mem[x + 8] && mem'[x + 12] == mem[x + 12]
    ensures Linked(mem', l)
  {
    forall i: nat | i < |l| ensures LinkedAt(mem', l, i) {
      assert LinkedAt(mem, l, i) && l[i] in l;
    }
  }

  /** Unlinking from l leaves a list with other link words linked. */
  lemma UnlinkOtherList(mem: Memory, l: seq<nat>, x: nat, other: seq<nat>)
    requires x in l && Linked(mem, l) && Linked(mem, other)
    requires forall y :: y in other ==> OffList(l, y + 8) && OffList(l, y + 12)
    ensures x + 8 in mem && x + 12 in mem && Linked(Unlink(mem, x), other)
  {
    UnlinkDomain(mem, l, x);
    var mem' := Unlink(mem, x);
    forall y | y in other
      ensures y + 8 in mem' && y + 12 in mem'
      ensures mem'[y + 8] == mem[y + 8] && mem'[y + 12] == mem[y + 12]
    {
      var j: nat :| j < |other| && other[j] == y;
      assert LinkedAt(mem, other, j);
      UnlinkFrame(mem, l, x, y + 8);
      UnlinkFrame(mem, l, x, y + 12);
    }
    LinkedElsewhere(mem, mem', other);
  }

  lemma LinkOtherList(mem: Memory, l: seq<nat>, x: u32, h: u32, other: seq<nat>)
    requires h == if l == [] then 0 else l[0]
    requires Linked(mem, other)
    requires forall y :: y in other ==> OffList([x] + l, y + 8) && OffList([x] + l, y + 12)
    ensures Linked(Link(mem, x, h), other)
  {
    var mem' := Link(mem, x, h);
    assert x in [x] + l && (l != [] ==> l[0] in [x] + l);
    forall y | y in other
      ensures y + 8 in mem' && y + 12 in mem'
      ensures mem'[y + 8] == mem[y + 8] && mem'[y + 12] == mem[y + 12]
    {
      var j: nat :| j < |other| && other[j] == y;
      assert LinkedAt(mem, other, j);
      assert OffList([x] + l, y + 8) && OffList([x] + l, y + 12);
    }
    LinkedElsewhere(mem, mem', other);
  }

  // ----- bitmaps

  /** A row bit is set exactly for a non-empty list, a level bit exactly for a non-empty row. */
  ghost predicate Bitmaps(sl: seq<u32>, fl: u32, lists: Lists)
  {
    && |sl| == REAL_FLI
    && Total(lists)
    && (forall c: Class :: ValidClass(c) && c in lists ==> (HasBit(sl[c.fl], c.sl) <==> lists[c] != []))
    && (forall f: nat :: f < REAL_FLI ==> (HasBit(fl, f) <==> sl[f] != 0))
    && (forall f: nat :: f >= REAL_FLI ==> !HasBit(fl, f))
  }

  lemma BitmapsAfterInsert(sl: seq<u32>, fl: u32, lists: Lists, c: Class, l: seq<nat>)
    requires Bitmaps(sl, fl, lists) && ValidClass(c) && l != []
    ensures Bitmaps(sl[c.fl := SetBit(c.sl, sl[c.fl])], SetBit(c.fl, fl), lists[c := l])
  {
    var sl' := sl[c.fl := SetBit(c.sl, sl[c.fl])];
    var fl' := SetBit(c.fl, fl);
    var lists' := lists[c := l];
    assert Total(lists');
    forall d: Class | ValidClass(d) && d in lists' ensures HasBit(sl'[d.fl], d.sl) <==> lists'[d] != [] {
      if d.fl == c.fl { SetBitBits(c.sl, sl[c.fl], d.sl); }
    }
    forall f: nat ensures f < REAL_FLI ==> (HasBit(fl', f) <==> sl'[f] != 0)
      ensures f >= REAL_FLI ==> !HasBit(fl', f)
    {
      SetBitBits(c.fl, fl, f);
      if f == c.fl {
        SetBitBits(c.sl, sl[c.fl], c.sl);
        if sl'[f] == 0 { ZeroHasNoBit(c.sl); }
      }
    }
  }

  lemma BitmapsAfterEmptied(sl: seq<u32>, fl: u32, lists: Lists, c: Class)
    requires Bitmaps(sl, fl, lists) && ValidClass(c)
    ensures var w := ClearBit(c.sl, sl[c.fl]);
      Bitmaps(sl[c.fl := w], if w == 0 then ClearBit(c.fl, fl) else fl, lists[c := []])
  {
    var w := ClearBit(c.sl, sl[c.fl]);
    var sl' := sl[c.fl := w];
    var fl' := if w == 0 then ClearBit(c.fl, fl) else fl;
    var lists' := lists[c := []];
    assert Total(lists');
    forall d: Class | ValidClass(d) && d in lists' ensures HasBit(sl'[d.fl], d.sl) <==> lists'[d] != [] {
      if d.fl == c.fl { ClearBitBits(c.sl, sl[c.fl], d.sl); }
    }
    forall f: nat ensures f < REAL_FLI ==> (HasBit(fl', f) <==> sl'[f] != 0)
      ensures f >= REAL_FLI ==> !HasBit(fl', f)
    {
      ClearBitBits(c.fl, fl, f);
      if f == c.fl && w != 0 {
        var k := NonZeroHasBit(w);
        ClearBitBits(c.sl, sl[c.fl], k);
        if sl[c.fl] == 0 { ZeroHasNoBit(k); }
      }
    }
  }

  lemma BitmapsSameShape(sl: seq<u32>, fl: u32, lists: Lists, c: Class, l: seq<nat>)
    requires Bitmaps(sl, fl, lists) && ValidClass(c) && c in lists && (l == [] <==> lists[c] == [])
    ensures Bitmaps(sl, fl, lists[c := l])
  {
    assert Total(lists[c := l]);
  }

  /** The bitmaps are a function of which lists are empty. */
  lemma BitmapsDetermined(sl: seq<u32>, fl: u32, sl': seq<u32>, fl': u32, lists: Lists)
    requires Bitmaps(sl, fl, lists) && Bitmaps(sl', fl', lists)
    ensures sl == sl' && fl == fl'
  {
    forall f: nat | f < REAL_FLI ensures sl[f] == sl'[f] {
      forall k: nat ensures HasBit(sl[f], k) <==> HasBit(sl'[f], k) {
        if k < MAX_SLI {
          assert Class(f, k) in lists && ValidClass(Class(f, k));
        } else {
          Pow2At32();
          HighBitsClear(sl[f], 32, k); HighBitsClear(sl'[f], 32, k);
        }
      }
      EqualByBits(sl[f], sl'[f]);
    }
    assert sl == sl';
    forall k: nat ensures HasBit(fl, k) <==> HasBit(fl', k) {
      if k < REAL_FLI { assert HasBit(fl, k) <==> sl[k] != 0; }
    }
    EqualByBits(fl, fl');
  }

  // ----- FIND_SUITABLE_BLOCK

  /** Every level bit stands for a row with a bit. */
  ghost predicate RowsMatch(sl: seq<u32>, fl: u32)
  {
    |sl| == REAL_FLI && forall f: nat :: HasBit(fl, f) ==> f < REAL_FLI && sl[f] != 0
  }

  /** The first non-empty list at c or after it in the search order, and its head. */
  function FindSuitable(sl: seq<u32>, fl: u32, matrix: Matrix, c: Class): (nat, Class)
    requires RowsMatch(sl, fl) && ValidClass(c)
    requires forall f, s | 0 <= f < REAL_FLI && 0 <= s < MAX_SLI :: Class(f, s) in matrix
  {
    var tmp := MaskFrom(sl[c.fl], c.sl);
    if tmp != 0 then
      LsBitIsLowest(tmp);
      var d := Class(c.fl, LsBit(tmp));
      (matrix[d], d)
    else
      LsBitIsLowest(MaskFrom(fl, c.fl + 1));
      var f := LsBit(MaskFrom(fl, c.fl + 1));
      if f > 0 then
        MaskFromBits(fl, c.fl + 1, f);
        LsBitIsLowest(sl[f]);
        var d := Class(f, LsBit(sl[f]));
        (matrix[d], d)
      else (0, c)
  }

  /** What is asked of a search from c: it fails exactly when every list from c on is empty,
      and otherwise names the first non-empty one. */
  ghost predicate FirstFrom(lists: Lists, c: Class, b: nat, d: Class)
  {
    && (b == 0 ==> forall e :: e in lists && ClassLe(c, e) ==> lists[e] == [])
    && (b != 0 ==> ValidClass(d) && ClassLe(c, d) && d in lists && lists[d] != [] && b == lists[d][0]
                   && forall e :: e in lists && ClassLe(c, e) && lists[e] != [] ==> ClassLe(d, e))
  }

  ghost predicate Heads(matrix: Matrix, lists: Lists)
  {
    && matrix.Keys == lists.Keys
    && forall d: Class :: d in lists ==>
         ValidClass(d) && matrix[d] == (if lists[d] == [] then 0 else lists[d][0]) && (lists[d] != [] ==> lists[d][0] > 0)
  }

  lemma FindIsFirst(sl: seq<u32>, fl: u32, matrix: Matrix, lists: Lists, c: Class)
    requires Bitmaps(sl, fl, lists) && ValidClass(c) && Heads(matrix, lists)
    ensures RowsMatch(sl, fl)
    ensures var (b, d) := FindSuitable(sl, fl, matrix, c); FirstFrom(lists, c, b, d)
  {
    assert RowsMatch(sl, fl);
    var tmp := MaskFrom(sl[c.fl], c.sl);
    if tmp != 0 {
      FindInRow(sl, fl, lists, c);
    } else {
      FindInLaterRow(sl, fl, lists, c);
      var f := LsBit(MaskFrom(fl, c.fl + 1));
      if f > 0 { LowestInRow(sl, fl, lists, f); }
      hide Bitmaps;
    }
  }

  lemma LowestInRow(sl: seq<u32>, fl: u32, lists: Lists, f: nat)
    requires Bitmaps(sl, fl, lists) && f < REAL_FLI && sl[f] != 0
    requires forall d: Class :: d in lists ==> ValidClass(d)
    ensures var s := LsBit(sl[f]);
      && 0 <= s < MAX_SLI && Class(f, s) in lists && lists[Class(f, s)] != []
      && forall e :: e in lists && e.fl == f && lists[e] != [] ==> s <= e.sl
  {
    LsBitIsLowest(sl[f]);
    var s := LsBit(sl[f]);
    assert Class(f, s) in lists && ValidClass(Class(f, s));
    forall e | e in lists && e.fl == f && lists[e] != [] ensures s <= e.sl {
      assert HasBit(sl[f], e.sl);
    }
  }

  lemma FindInRow(sl: seq<u32>, fl: u32, lists: Lists, c: Class)
    requires Bitmaps(sl, fl, lists) && ValidClass(c)
    requires MaskFrom(sl[c.fl], c.sl) != 0
    requires forall d: Class :: d in lists ==> ValidClass(d)
    ensures var s := LsBit(MaskFrom(sl[c.fl], c.sl));
      && c.sl <= s < MAX_SLI && Class(c.fl, s) in lists && lists[Class(c.fl, s)] != []
      && forall e :: e in lists && ClassLe(c, e) && lists[e] != [] ==> ClassLe(Class(c.fl, s), e)
  {
    var tmp := MaskFrom(sl[c.fl], c.sl);
    LsBitIsLowest(tmp);
    var s := LsBit(tmp);
    MaskFromBits(sl[c.fl], c.sl, s);
    assert Class(c.fl, s) in lists && ValidClass(Class(c.fl, s));
    forall e | e in lists && ClassLe(c, e) && lists[e] != [] ensures ClassLe(Class(c.fl, s), e) {
      if e.fl == c.fl {
        MaskFromBits(sl[c.fl], c.sl, e.sl);
        assert HasBit(tmp, e.sl);
      }
    }
  }

  lemma FindInLaterRow(sl: seq<u32>, fl: u32, lists: Lists, c: Class)
    requires Bitmaps(sl, fl, lists) && ValidClass(c)
    requires MaskFrom(sl[c.fl], c.sl) == 0
    requires forall d: Class :: d in lists ==> ValidClass(d)
    ensures var f := LsBit(MaskFrom(fl, c.fl + 1));
      if f <= 0 then f < 0 && forall e :: e in lists && ClassLe(c, e) ==> lists[e] == []
      else c.fl < f < REAL_FLI && sl[f] != 0
           && forall e :: e in lists && ClassLe(c, e) && lists[e] != [] ==> f <= e.fl
  {
    var w := MaskFrom(fl, c.fl + 1);
    LsBitIsLowest(w);
    var f := LsBit(w);
    if w != 0 { MaskFromBits(fl, c.fl + 1, f); }
    forall e | e in lists && ClassLe(c, e) && lists[e] != []
      ensures w != 0 && f <= e.fl
    {
      NonEmptyRow(sl, fl, lists, e);
      if e.fl == c.fl {
        MaskFromBits(sl[c.fl], c.sl, e.sl);
        ZeroHasNoBit(e.sl);
        assert false;
      }
      MaskFromBits(fl, c.fl + 1, e.fl);
      if w == 0 { ZeroHasNoBit(e.fl); }
    }
  }

  lemma NonEmptyRow(sl: seq<u32>, fl: u32, lists: Lists, e: Class)
    requires Bitmaps(sl, fl, lists) && ValidClass(e) && e in lists && lists[e] != []
    ensures HasBit(sl[e.fl], e.sl) && sl[e.fl] != 0 && HasBit(fl, e.fl)
  {
    if sl[e.fl] == 0 { ZeroHasNoBit(e.sl); }
  }
}
