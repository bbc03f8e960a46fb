/** Byte positions of a cluster chain: which cluster, which sector of it. */
module FatSpans {

  import opened Bytes
  import opened FatGeometry
  import Words

  /** The bytes of a cluster. */
  function ClusterBytes(c: nat): nat
  {
    c * SS
  }

  /** The cluster of the chain that holds byte i. */
  function ClusterOf(i: nat, c: nat): nat
    requires c > 0
  {
    i / ClusterBytes(c)
  }

  /** The sector of byte i within its cluster. */
  function SectorIn(i: nat, c: nat): nat
    requires c > 0
  {
    i / SS % c
  }

  /** Where the k-th cluster starts. */
  function StartOf(k: nat, c: nat): nat
  {
    k * ClusterBytes(c)
  }

  lemma StartNext(k: nat, c: nat)
    ensures StartOf(0, c) == 0 && StartOf(k + 1, c) == StartOf(k, c) + ClusterBytes(c)
  {
    assert (k + 1) * ClusterBytes(c) == k * ClusterBytes(c) + ClusterBytes(c);
  }

  lemma ConstantStarts(k: nat, c: nat)
    requires ClusterSize(c)
    ensures ClusterBytes(c) == 512 * c
    ensures StartOf(k, c) == if c == 1 then 512 * k else if c == 2 then 1024 * k else if c == 4 then 2048 * k else if c == 8 then 4096 * k
                             else if c == 16 then 8192 * k else if c == 32 then 16384 * k else if c == 64 then 32768 * k else 65536 * k
  {
  }

  lemma StartsMonotone(k: nat, n: nat, c: nat)
    requires ClusterSize(c) && k <= n
    ensures StartOf(k, c) <= StartOf(n, c)
  {
    ConstantStarts(k, c); ConstantStarts(n, c);
  }

  /** The cluster of a byte is the one between whose ends it lies. */
  lemma ClusterBetween(i: nat, k: nat, c: nat)
    requires ClusterSize(c)
    ensures ClusterOf(i, c) == k <==> StartOf(k, c) <= i < StartOf(k, c) + ClusterBytes(c)
  {
    ConstantStarts(k, c);
    if c == 1 || c == 2 || c == 4 { return; }
    if c == 8 || c == 16 || c == 32 { return; }
  }

  /** The sector within the cluster counts from the cluster's start. */
  lemma SectorBetween(i: nat, k: nat, c: nat)
    requires ClusterSize(c) && StartOf(k, c) <= i < StartOf(k, c) + ClusterBytes(c)
    ensures SectorIn(i, c) == (i - StartOf(k, c)) / SS < c
  {
    ConstantStarts(k, c);
    var d := i - StartOf(k, c);
    assert i / SS == c * k + d / SS by { SectorShift(i, k, c); }
    ModShift(d / SS, k, c);
  }

  lemma SectorShift(i: nat, k: nat, c: nat)
    requires ClusterSize(c) && StartOf(k, c) <= i
    ensures i / SS == c * k + (i - StartOf(k, c)) / SS
  {
    ConstantStarts(k, c);
    if c == 1 || c == 2 || c == 4 { return; }
    if c == 8 || c == 16 || c == 32 { return; }
  }

  lemma ModShift(r: nat, k: nat, c: nat)
    requires ClusterSize(c) && r < c
    ensures (c * k + r) % c == r
  {
    RemainderIs(c * k + r, c, k, r);
  }

  /** Bytes of one sector. */
  lemma SameSector(i: nat, j: nat, c: nat)
    requires ClusterSize(c) && i / SS == j / SS
    ensures ClusterOf(i, c) == ClusterOf(j, c) && SectorIn(i, c) == SectorIn(j, c)
  {
    ByteOfSector(i, c); ByteOfSector(j, c);
  }

  lemma ByteOfSector(i: nat, c: nat)
    requires ClusterSize(c)
    ensures ClusterOf(i, c) == i / SS / c
  {
    if c == 1 || c == 2 || c == 4 { return; }
    if c == 8 || c == 16 || c == 32 { return; }
  }

  /** The next sector: in the same cluster, or the first of the next. */
  lemma NextSector(i: nat, c: nat)
    requires ClusterSize(c)
    ensures var q, q' := i / SS, (i + SS) / SS;
      && q' == q + 1
      && if SectorIn(i, c) + 1 < c then ClusterOf(i + SS, c) == ClusterOf(i, c) && SectorIn(i + SS, c) == SectorIn(i, c) + 1
         else ClusterOf(i + SS, c) == ClusterOf(i, c) + 1 && SectorIn(i + SS, c) == 0
  {
    ByteOfSector(i, c); ByteOfSector(i + SS, c);
    StepDivision(i / SS, c);
  }

  lemma StepDivision(q: nat, c: nat)
    requires ClusterSize(c)
    ensures q % c < c
    ensures if q % c + 1 < c then (q + 1) / c == q / c && (q + 1) % c == q % c + 1 else (q + 1) / c == q / c + 1 && (q + 1) % c == 0
  {
    if c == 1 || c == 2 || c == 4 { return; }
    if c == 8 || c == 16 || c == 32 { return; }
  }

  /** x & ~(bcs - 1) rounds down to the start of the cluster. */
  lemma MaskStart(x: Word, c: nat)
    requires ClusterSize(c)
    ensures Words.And(x, Words.Not(ClusterBytes(c) - 1)) == StartOf(ClusterOf(x, c), c)
  {
    var s := Exponent(c);
    var q := Words.Shr(x, s);
    ExponentIs(c);
    Words.Pow2At32();
    Words.Pow2Monotone(s, 32);
    hide Words.And, Words.Shr, Words.Shl, Words.Pow2, Exponent;
    Words.MaskLow(x, s, 32);
    Words.ShiftRoundsDown(x, s);
    ShiftTimes(q, s);
    StartTimes(q, c);
    ClusterBetween(x, q, c);
  }

  /** The cluster size in bytes as a power of two. */
  function Exponent(c: nat): nat
  {
    if c == 1 then 9 else if c == 2 then 10 else if c == 4 then 11 else if c == 8 then 12
    else if c == 16 then 13 else if c == 32 then 14 else if c == 64 then 15 else 16
  }

  lemma ExponentIs(c: nat)
    requires ClusterSize(c)
    ensures Words.Pow2(Exponent(c)) == ClusterBytes(c) && Exponent(c) <= 32
  {
    PowersToEight();
    assert Words.Pow2(9) == 512;
    assert Words.Pow2(10) == 1024 && Words.Pow2(11) == 2048 && Words.Pow2(12) == 4096;
    assert Words.Pow2(13) == 8192 && Words.Pow2(14) == 16384 && Words.Pow2(15) == 32768 && Words.Pow2(16) == 65536;
  }

  lemma {:induction false} ShiftTimes(q: nat, s: nat)
    ensures Words.Shl(q, s) == q * Words.Pow2(s)
  {
    if s > 0 {
      ShiftTimes(q, s - 1);
      assert q * (2 * Words.Pow2(s - 1)) == 2 * (q * Words.Pow2(s - 1));
    }
  }

  lemma StartTimes(q: nat, c: nat)
    ensures StartOf(q, c) == q * ClusterBytes(c)
  {
  }
}
