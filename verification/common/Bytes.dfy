/** Bytes, big-endian words, C strings and block moves. */
module Bytes {

  import Words

  type byte = x: int | 0 <= x < 256

  const W32: int := Words.WORD

  type Word = Words.u32

  datatype Option<T> = None | Some(value: T)

  // ----- big-endian words

  function U32(s: seq<byte>, o: nat): (v: Word)
    requires o + 4 <= |s|
  {
    s[o] as int * 0x100_0000 + s[o + 1] as int * 0x1_0000 + s[o + 2] as int * 0x100 + s[o + 3] as int
  }

  function Be32(v: Word): (s: seq<byte>)
    ensures |s| == 4
  {
    [v / 0x100_0000, v / 0x1_0000 % 256, v / 0x100 % 256, v % 256]
  }

  lemma WordReadBack(v: Word)
    ensures U32(Be32(v), 0) == v
  {
    var a := v / 256;
    var b := a / 256;
    assert v == 256 * a + v % 256 && a == 256 * b + a % 256 && b == 256 * (b / 256) + b % 256;
    assert v / 0x1_0000 == b && v / 0x100_0000 == b / 256;
    assert U32([b / 256, b % 256, a % 256, v % 256], 0) == v;
  }

  lemma WordOfSlice(s: seq<byte>, i: nat, j: nat, o: nat)
    requires i + o + 4 <= j <= |s|
    ensures U32(s[i..j], o) == U32(s, i + o)
  {
  }

  lemma SameWord(s: seq<byte>, t: seq<byte>, i: nat, j: nat)
    requires i + 4 <= |s| && j + 4 <= |t| && s[i..i + 4] == t[j..j + 4]
    ensures U32(s, i) == U32(t, j)
  {
    assert s[i..i + 4][0] == t[j..j + 4][0] && s[i..i + 4][1] == t[j..j + 4][1];
    assert s[i..i + 4][2] == t[j..j + 4][2] && s[i..i + 4][3] == t[j..j + 4][3];
  }

  // ----- FDT_TAGALIGN

  function Align4(n: nat): (r: nat)
    ensures r % 4 == 0 && n <= r < n + 4
  {
    (n + 3) / 4 * 4
  }

  lemma AlignSum(o: nat, n: nat)
    requires o % 4 == 0
    ensures Align4(o + n) == o + Align4(n)
  {
    var q := o / 4;
    assert o == 4 * q && (o + n + 3) / 4 == q + (n + 3) / 4;
  }

  // ----- C strings

  /** The first zero at or after i, or |s|. */
  function Nul(s: seq<byte>, i: nat): (k: nat)
    requires i <= |s|
    ensures i <= k <= |s| && (forall j :: i <= j < k ==> s[j] != 0) && (k < |s| ==> s[k] == 0)
    decreases |s| - i
  {
    if i == |s| || s[i] == 0 then i else Nul(s, i + 1)
  }

  predicate CString(s: seq<byte>)
  {
    0 !in s
  }

  lemma NulUnique(s: seq<byte>, i: nat, k: nat)
    requires i <= k < |s| && s[k] == 0 && forall j :: i <= j < k ==> s[j] != 0
    ensures Nul(s, i) == k
  {
  }

  /** The string that starts at i, if it ends inside s. */
  function StringAt(s: seq<byte>, i: nat): Option<seq<byte>>
  {
    if i < |s| && Nul(s, i) < |s| then Some(s[i..Nul(s, i)]) else None
  }

  lemma StringInside(strs: seq<byte>, at: nat)
    ensures StringAt(strs, at).Some? ==> at < |strs|
  {
  }

  lemma StringStays(pre: seq<byte>, s: seq<byte>, post: seq<byte>, i: nat)
    requires StringAt(s, i).Some?
    ensures StringAt(pre + s + post, |pre| + i) == StringAt(s, i)
  {
    var b := pre + s + post;
    var k := Nul(s, i);
    NulUnique(b, |pre| + i, |pre| + k);
    assert b[|pre| + i..|pre| + k] == s[i..k];
  }

  // ----- block moves

  lemma SubSlice(s: seq<byte>, i: nat, j: nat, a: nat, b: nat)
    requires i <= j <= |s| && a <= b <= j - i
    ensures s[i..j][a..b] == s[i + a..i + b]
  {
    var x, y := s[i..j][a..b], s[i + a..i + b];
    assert |x| == |y|;
    assert forall k :: 0 <= k < |x| ==> x[k] == s[i + a + k];
    assert x == y;
  }

  /** s with v written at o. */
  function Put(s: seq<byte>, o: nat, v: seq<byte>): (t: seq<byte>)
    requires o + |v| <= |s|
    ensures |t| == |s|
  {
    s[..o] + v + s[o + |v|..]
  }

  lemma PutReads(s: seq<byte>, o: nat, v: seq<byte>, i: nat, j: nat)
    requires o + |v| <= |s| && i <= j <= |s|
    ensures j <= o || o + |v| <= i ==> Put(s, o, v)[i..j] == s[i..j]
    ensures Put(s, o, v)[o..o + |v|] == v
  {
  }

  lemma PutWord(s: seq<byte>, o: nat, v: seq<byte>, i: nat)
    requires o + |v| <= |s| && i + 4 <= |s|
    ensures i + 4 <= o || o + |v| <= i ==> U32(Put(s, o, v), i) == U32(s, i)
    ensures o <= i && i + 4 <= o + |v| ==> U32(Put(s, o, v), i) == U32(v, i - o)
  {
  }
}
