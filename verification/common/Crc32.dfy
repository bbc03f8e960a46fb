/** common/crc32.c: the table-driven CRC-32 against reflected division, one bit at a time (section 8 of RFC 1952). */
module Crc32 {

  const POLY: bv32 := 0xedb8_8320

  function Xor(a: bv32, b: bv32): bv32
  {
    a ^ b
  }

  function Not(a: bv32): bv32
  {
    !a
  }

  /** One step of the division: shift out the low bit and subtract the polynomial if it was set. */
  function Step(r: bv32): bv32
  {
    if r & 1 == 1 then (r >> 1) ^ POLY else r >> 1
  }

  function Steps(r: bv32, n: nat): bv32
    decreases n
  {
    if n == 0 then r else Steps(Step(r), n - 1)
  }

  // ----- the reference: bit by bit

  /** The register after one more bit of the message. */
  function FeedBit(r: bv32, bit: bool): bv32
  {
    Step(Xor(r, BitWord(bit)))
  }

  function BitWord(bit: bool): bv32
  {
    if bit then 1 else 0
  }

  function FeedBits(r: bv32, bits: seq<bool>): bv32
    decreases |bits|
  {
    if bits == [] then r else FeedBits(FeedBit(r, bits[0]), bits[1..])
  }

  /** The bits of an octet, the low one first. */
  function Bits(o: bv8): seq<bool>
  {
    [o & 1 != 0, o & 2 != 0, o & 4 != 0, o & 8 != 0, o & 16 != 0, o & 32 != 0, o & 64 != 0, o & 128 != 0]
  }

  function Message(s: seq<bv8>): seq<bool>
  {
    if s == [] then [] else Bits(s[0]) + Message(s[1..])
  }

  /** The CRC of a message that continues one with CRC crc: all bits fed to the complemented register, complemented again. */
  function Crc(crc: bv32, s: seq<bv8>): bv32
  {
    Not(FeedBits(Not(crc), Message(s)))
  }

  // ----- the division is linear

  lemma XorAssociates(x: bv32, y: bv32, z: bv32)
    ensures Xor(Xor(x, y), z) == Xor(x, Xor(y, z))
  {
    assert (x ^ y) ^ z == x ^ (y ^ z);
  }

  lemma XorCancels(x: bv32, y: bv32, z: bv32)
    ensures Xor(x, y) == Xor(x, z) ==> y == z
  {
  }

  lemma XorZero(x: bv32)
    ensures Xor(x, 0) == x
  {
  }

  lemma NotTwice(x: bv32)
    ensures Not(Not(x)) == x
  {
  }

  lemma NotInjective(x: bv32, y: bv32)
    ensures Not(x) == Not(y) ==> x == y
  {
  }

  lemma ShiftXor(a: bv32, b: bv32)
    ensures (a ^ b) >> 1 == (a >> 1) ^ (b >> 1)
    ensures (a ^ b) & 1 == (a & 1) ^ (b & 1)
  {
  }

  lemma LowBit(a: bv32)
    ensures a & 1 == 0 || a & 1 == 1
  {
  }

  lemma XorParts(x: bv32, y: bv32, p: bv32)
    ensures (x ^ p) ^ (y ^ p) == x ^ y && (x ^ p) ^ y == (x ^ y) ^ p && x ^ (y ^ p) == (x ^ y) ^ p
  {
  }

  lemma StepLinear(a: bv32, b: bv32)
    ensures Step(Xor(a, b)) == Xor(Step(a), Step(b))
  {
    ShiftXor(a, b);
    LowBit(a); LowBit(b);
    XorParts(a >> 1, b >> 1, POLY);
    assert a & 1 == 0 && b & 1 == 0 ==> (a ^ b) & 1 == 0;
    assert a & 1 == 1 && b & 1 == 1 ==> (a ^ b) & 1 == 0;
    assert a & 1 != b & 1 ==> (a ^ b) & 1 == 1;
  }

  lemma {:induction false} StepsLinear(a: bv32, b: bv32, n: nat)
    ensures Steps(Xor(a, b), n) == Xor(Steps(a, n), Steps(b, n))
    decreases n
  {
    hide Step, Xor;
    if n > 0 {
      StepLinear(a, b);
      StepsLinear(Step(a), Step(b), n - 1);
    }
  }

  // ----- n bits at once: up to 32 message bits are a word added to the register

  function Push(bit: bool, w: bv32): bv32
  {
    Xor(BitWord(bit), w << 1)
  }

  /** The word whose low bits are the given ones, the first bit lowest. */
  function Word(bits: seq<bool>): bv32
    decreases |bits|
  {
    if bits == [] then 0 else Push(bits[0], Word(bits[1..]))
  }

  function Half(w: bv32): bv32
  {
    w >> 1
  }

  function Shifted(w: bv32, n: nat): bv32
    decreases n
  {
    if n == 0 then w else Shifted(Half(w), n - 1)
  }

  function Bit(j: nat): bv32
  {
    if j == 0 then 1 else Bit(j - 1) << 1
  }

  lemma {:induction false} ShortIsLow(w: bv32, n: nat, j: nat)
    requires Shifted(w, n) == 0 && n <= j
    ensures w & Bit(j) == 0
    decreases n
  {
    if n > 0 {
      ShortIsLow(Half(w), n - 1, j - 1);
      var p := Bit(j - 1);
      assert (w >> 1) & p == 0 ==> w & (p << 1) == 0;
    }
  }

  lemma TopBit()
    ensures Bit(31) == 0x8000_0000
  {
    assert Bit(8) == 0x100;
    assert Bit(16) == 0x1_0000;
    assert Bit(24) == 0x100_0000;
  }

  ghost predicate TopClear(w: bv32)
  {
    w & 0x8000_0000 == 0
  }

  lemma LowBitAdded(b: bv32, w: bv32)
    requires w & 0x8000_0000 == 0 && b <= 1
    ensures (b ^ (w << 1)) >> 1 == w
    ensures (w << 1) >> 1 == w && (w << 1) & 1 == 0
  {
  }

  lemma PushBit(b: bool, w: bv32)
    requires TopClear(w)
    ensures Half(Push(b, w)) == w
    ensures Step(w << 1) == w
  {
    LowBitAdded(BitWord(b), w);
  }

  lemma PushInjective(b: bool, v: bv32, c: bool, w: bv32)
    requires TopClear(v) && TopClear(w) && Push(b, v) == Push(c, w)
    ensures b == c && v == w
  {
  }

  /** Adding a word whose first bit is b, and stepping, is feeding b and adding the rest of the word. */
  lemma PushSteps(r: bv32, b: bool, w: bv32)
    requires TopClear(w)
    ensures Step(Xor(r, Push(b, w))) == Xor(FeedBit(r, b), w)
  {
    hide Step, Xor, TopClear, BitWord;
    PushBit(b, w);
    XorAssociates(r, BitWord(b), w << 1);
    StepLinear(Xor(r, BitWord(b)), w << 1);
  }

  lemma TopIsClear(w: bv32)
    requires w & Bit(31) == 0
    ensures TopClear(w)
  {
    TopBit();
  }

  lemma {:induction false} WordShort(bits: seq<bool>)
    requires |bits| <= 32
    ensures Shifted(Word(bits), |bits|) == 0
    ensures |bits| < 32 ==> TopClear(Word(bits))
    decreases |bits|
  {
    hide Push, TopClear, Half, Bit;
    if bits != [] {
      WordShort(bits[1..]);
      PushBit(bits[0], Word(bits[1..]));
    }
    if |bits| < 32 {
      ShortIsLow(Word(bits), |bits|, 31);
      TopIsClear(Word(bits));
    }
  }

  /** Up to 32 bits may be added to the register first and divided afterwards. */
  lemma {:induction false} FeedIsWord(r: bv32, bits: seq<bool>)
    requires |bits| <= 32
    ensures FeedBits(r, bits) == Steps(Xor(r, Word(bits)), |bits|)
    decreases |bits|
  {
    hide Step, Push, Xor, FeedBit, TopClear;
    if bits == [] {
      XorZero(r);
    } else {
      FeedIsWord(FeedBit(r, bits[0]), bits[1..]);
      WordShort(bits[1..]);
      PushSteps(r, bits[0], Word(bits[1..]));
    }
  }

  // ----- one octet

  lemma OctetWord(o: bv8)
    ensures Word(Bits(o)) == o as bv32
  {
    WordOf8(Bits(o));
    OctetPushes(o);
  }

  lemma WordOf8(b: seq<bool>)
    requires |b| == 8
    ensures Word(b) == Push(b[0], Push(b[1], Push(b[2], Push(b[3], Push(b[4], Push(b[5], Push(b[6], Push(b[7], 0))))))))
  {
    hide Push;
    WordAt(b, 0); WordAt(b, 1); WordAt(b, 2); WordAt(b, 3); WordAt(b, 4); WordAt(b, 5); WordAt(b, 6); WordAt(b, 7);
    assert b[0..] == b;
  }

  lemma WordAt(b: seq<bool>, k: nat)
    requires k < |b|
    ensures Word(b[k..]) == Push(b[k], Word(b[k + 1..]))
  {
    hide Push;
    assert b[k..][1..] == b[k + 1..];
  }

  lemma OctetPushes(o: bv8)
    ensures Push(o & 1 != 0, Push(o & 2 != 0, Push(o & 4 != 0, Push(o & 8 != 0, Push(o & 16 != 0, Push(o & 32 != 0,
              Push(o & 64 != 0, Push(o & 128 != 0, 0)))))))) == o as bv32
  {
  }

  lemma FeedOctet(r: bv32, o: bv8)
    ensures FeedBits(r, Bits(o)) == Steps(Xor(r, o as bv32), 8)
  {
    hide Steps, Xor, Bits, Word;
    assert |Bits(o)| == 8 by { BitsLength(o); }
    FeedIsWord(r, Bits(o));
    OctetWord(o);
  }

  lemma BitsLength(o: bv8)
    ensures |Bits(o)| == 8
  {
  }

  /** A register whose low octet is clear only shifts. */
  lemma ClearShifts(x: bv32)
    requires x & 0xff == 0
    ensures Steps(x, 8) == x >> 8
  {
    assert Step(x) == x >> 1;
    assert Step(x >> 1) == x >> 2;
    assert Step(x >> 2) == x >> 3;
    assert Step(x >> 3) == x >> 4;
    assert Step(x >> 4) == x >> 5;
    assert Step(x >> 5) == x >> 6;
    assert Step(x >> 6) == x >> 7;
    assert Step(x >> 7) == x >> 8;
  }

  /** Eight steps need a table of the low octet only. */
  lemma TableStep(r: bv32, o: bv8)
    ensures Steps(Xor(r, o as bv32), 8) == Xor(r >> 8, Steps(LowXor(r, o), 8))
  {
    hide Steps, Xor, LowXor;
    RegisterParts(r, o);
    StepsLinear(r & 0xffff_ff00, LowXor(r, o), 8);
    ClearShifts(r & 0xffff_ff00);
  }

  function LowXor(r: bv32, o: bv8): bv32
  {
    (r & 0xff) ^ (o as bv32)
  }

  lemma RegisterParts(r: bv32, o: bv8)
    ensures Xor(r & 0xffff_ff00, LowXor(r, o)) == Xor(r, o as bv32)
    ensures (r & 0xffff_ff00) & 0xff == 0 && (r & 0xffff_ff00) >> 8 == r >> 8
  {
  }

  // ----- whole messages

  lemma {:induction false} FeedConcat(r: bv32, a: seq<bool>, b: seq<bool>)
    ensures FeedBits(r, a + b) == FeedBits(FeedBits(r, a), b)
    decreases |a|
  {
    if a == [] {
      assert a + b == b;
    } else {
      assert (a + b)[1..] == a[1..] + b;
      FeedConcat(FeedBit(r, a[0]), a[1..], b);
    }
  }

  lemma {:induction false} MessageConcat(a: seq<bv8>, b: seq<bv8>)
    ensures Message(a + b) == Message(a) + Message(b)
    decreases |a|
  {
    if a == [] {
      assert a + b == b;
    } else {
      assert (a + b)[1..] == a[1..] + b;
      MessageConcat(a[1..], b);
      assert Bits(a[0]) + (Message(a[1..]) + Message(b)) == (Bits(a[0]) + Message(a[1..])) + Message(b);
    }
  }

  lemma MessageSnoc(a: seq<bv8>, o: bv8)
    ensures Message(a + [o]) == Message(a) + Bits(o)
  {
    MessageConcat(a, [o]);
    assert Message([o]) == Bits(o) + Message([]);
  }

  /** The CRC of two pieces in turn is the CRC of the whole. */
  lemma CrcComposes(crc: bv32, a: seq<bv8>, b: seq<bv8>)
    ensures Crc(Crc(crc, a), b) == Crc(crc, a + b)
  {
    hide FeedBits, Message, Not;
    MessageConcat(a, b);
    FeedConcat(Not(crc), Message(a), Message(b));
    NotTwice(FeedBits(Not(crc), Message(a)));
  }

  // ----- what the code detects

  /** No two registers step to the same one: the polynomial has its top bit set. */
  /** The CRC of no octets is 0 and that of the letter "a" 0xe8b7be43. */
  lemma KnownValues()
    ensures Crc(0, []) == 0 && Crc(0, [0x61]) == 0xe8b7_be43
  {
    hide Step, Steps, Bits;
    var r := Xor(Not(0), 0x61 as bv32);
    assert ([0x61 as bv8])[1..] == [] && Message([0x61]) == Bits(0x61) + [] == Bits(0x61);
    FeedOctet(Not(0), 0x61);
    EightSteps(r);
    LetterSteps();
  }

  lemma EightSteps(r: bv32)
    ensures Steps(r, 8) == Step(Step(Step(Step(Step(Step(Step(Step(r))))))))
  {
    hide Step;
  }

  lemma LetterSteps()
    ensures Step(Step(Step(Step(Step(Step(Step(Step(0xffff_ff9e)))))))) == 0x1748_41bc
  {
    assert Step(0xffff_ff9e) == 0x7fff_ffcf && Step(0x7fff_ffcf) == 0xd247_7cc7 && Step(0xd247_7cc7) == 0x849b_3d43;
    assert Step(0x849b_3d43) == 0xaff5_1d81 && Step(0xaff5_1d81) == 0xba42_0de0 && Step(0xba42_0de0) == 0x5d21_06f0;
    assert Step(0x5d21_06f0) == 0x2e90_8378 && Step(0x2e90_8378) == 0x1748_41bc;
  }

  lemma StepInjective(a: bv32, b: bv32)
    requires Step(a) == Step(b)
    ensures a == b
  {
  }

  lemma {:induction false} StepsInjective(a: bv32, b: bv32, n: nat)
    requires Steps(a, n) == Steps(b, n)
    ensures a == b
    decreases n
  {
    hide Step;
    if n > 0 {
      StepsInjective(Step(a), Step(b), n - 1);
      StepInjective(a, b);
    }
  }

  lemma {:induction false} FeedInjective(r: bv32, q: bv32, bits: seq<bool>)
    requires FeedBits(r, bits) == FeedBits(q, bits)
    ensures r == q
    decreases |bits|
  {
    hide FeedBit;
    if bits != [] {
      FeedInjective(FeedBit(r, bits[0]), FeedBit(q, bits[0]), bits[1..]);
      FeedBitInjective(r, q, bits[0]);
    }
  }

  lemma FeedBitInjective(r: bv32, q: bv32, b: bool)
    requires FeedBit(r, b) == FeedBit(q, b)
    ensures r == q
  {
    StepInjective(Xor(r, BitWord(b)), Xor(q, BitWord(b)));
  }

  lemma {:induction false} WordInjective(x: seq<bool>, y: seq<bool>)
    requires |x| == |y| <= 32 && Word(x) == Word(y)
    ensures x == y
    decreases |x|
  {
    hide Push, TopClear, Shifted;
    if x != [] {
      WordShort(x[1..]); WordShort(y[1..]);
      PushInjective(x[0], Word(x[1..]), y[0], Word(y[1..]));
      WordInjective(x[1..], y[1..]);
      assert x == [x[0]] + x[1..] && y == [y[0]] + y[1..];
    }
  }

  lemma BitsInjective(a: bv8, b: bv8)
    requires Bits(a) == Bits(b)
    ensures a == b
  {
    hide Bits, Word;
    OctetWord(a); OctetWord(b);
    WidenInjective(a, b);
  }

  lemma WidenInjective(a: bv8, b: bv8)
    ensures a as bv32 == b as bv32 ==> a == b
  {
  }

  lemma {:induction false} MessageInjective(x: seq<bv8>, y: seq<bv8>)
    requires |x| == |y| && Message(x) == Message(y)
    ensures x == y
    decreases |x|
  {
    hide Bits;
    if x != [] {
      BitsLength(x[0]); BitsLength(y[0]);
      assert Bits(x[0]) == Message(x)[..8] == Message(y)[..8] == Bits(y[0]);
      assert Message(x[1..]) == Message(x)[8..] == Message(y)[8..] == Message(y[1..]);
      BitsInjective(x[0], y[0]);
      MessageInjective(x[1..], y[1..]);
      assert x == [x[0]] + x[1..] && y == [y[0]] + y[1..];
    }
  }

  lemma {:induction false} MessageLength(x: seq<bv8>)
    ensures |Message(x)| == 8 * |x|
    decreases |x|
  {
    hide Bits;
    if x != [] {
      BitsLength(x[0]);
      MessageLength(x[1..]);
    }
  }

  /** Any change confined to four consecutive octets changes the CRC. */
  lemma BurstDetected(crc: bv32, a: seq<bv8>, x: seq<bv8>, y: seq<bv8>, b: seq<bv8>)
    requires |x| == |y| <= 4 && x != y
    ensures Crc(crc, a + x + b) != Crc(crc, a + y + b)
  {
    hide Crc;
    if Crc(crc, a + x + b) == Crc(crc, a + y + b) {
      CrcComposes(crc, a + x, b); CrcComposes(crc, a + y, b);
      CrcComposes(crc, a, x); CrcComposes(crc, a, y);
      SameTail(Crc(crc, a + x), Crc(crc, a + y), b);
      SameStart(Crc(crc, a), x, y);
      assert false;
    }
  }

  lemma SameTail(c: bv32, d: bv32, b: seq<bv8>)
    requires Crc(c, b) == Crc(d, b)
    ensures c == d
  {
    hide FeedBits, Message, Not;
    NotInjective(FeedBits(Not(c), Message(b)), FeedBits(Not(d), Message(b)));
    FeedInjective(Not(c), Not(d), Message(b));
    NotInjective(c, d);
  }

  lemma SameStart(c: bv32, x: seq<bv8>, y: seq<bv8>)
    requires |x| == |y| <= 4 && Crc(c, x) == Crc(c, y)
    ensures x == y
  {
    hide FeedBits, Message, Not;
    NotInjective(FeedBits(Not(c), Message(x)), FeedBits(Not(c), Message(y)));
    SameFeed(Not(c), x, y);
  }

  /** Up to four octets are determined by the register they lead to from a given one. */
  lemma SameFeed(r: bv32, x: seq<bv8>, y: seq<bv8>)
    requires |x| == |y| <= 4 && FeedBits(r, Message(x)) == FeedBits(r, Message(y))
    ensures x == y
  {
    hide FeedBits, Message, Steps, Xor, Word;
    MessageLength(x); MessageLength(y);
    FeedIsWord(r, Message(x)); FeedIsWord(r, Message(y));
    StepsInjective(Xor(r, Word(Message(x))), Xor(r, Word(Message(y))), |Message(x)|);
    XorCancels(r, Word(Message(x)), Word(Message(y)));
    WordInjective(Message(x), Message(y));
    MessageInjective(x, y);
  }

  // ----- the program

  function Index(x: bv8): nat
  {
    x as int
  }

  ghost predicate TableUpTo(t: seq<bv32>, n: nat)
    requires |t| == 256
  {
    forall x: bv8 :: Index(x) < n ==> t[Index(x)] == Steps(x as bv32, 8)
  }

  lemma TableGrows(t: seq<bv32>, u: seq<bv32>, o: bv8)
    requires |t| == |u| == 256 && TableUpTo(t, Index(o))
    requires u == t[Index(o) := Steps(o as bv32, 8)]
    ensures TableUpTo(u, Index(o) + 1)
  {
    hide Steps;
    forall x: bv8 | Index(x) < Index(o) + 1 ensures u[Index(x)] == Steps(x as bv32, 8) {
      IndexInjective(x, o);
    }
  }

  lemma IndexInjective(x: bv8, y: bv8)
    ensures Index(x) == Index(y) ==> x == y
  {
  }

  /** The function with its static table. */
  class Calculator {
    const table: array<bv32>
    var haveTable: bool

    ghost predicate Valid()
      reads this, table
    {
      table.Length == 256 && (haveTable ==> TableUpTo(table[..], 256))
    }

    constructor ()
      ensures Valid() && !haveTable && fresh(table)
    {
      table := new bv32[256];
      haveTable := false;
    }

    /** One entry: eight steps of polynomial division. */
    static method Remainder(i: bv32) returns (rem: bv32)
      ensures rem == Steps(i, 8)
    {
      rem := i;
      for j := 0 to 8
        invariant Steps(rem, 8 - j) == Steps(i, 8)
      {
        if rem & 1 != 0 {
          rem := rem >> 1;
          rem := rem ^ 0xedb8_8320;
        } else {
          rem := rem >> 1;
        }
      }
    }

    method BuildTable()
      requires table.Length == 256
      modifies this, table
      ensures Valid() && haveTable
    {
      hide Steps, TableUpTo;
      assert TableUpTo(table[..], 0) by { EmptyTable(table[..]); }
      for i := 0 to 256
        invariant TableUpTo(table[..], i)
      {
        var o := i as bv8;
        OctetOf(i);
        ghost var t := table[..];
        var rem := Remainder(o as bv32);
        assert table[..] == t;
        table[i] := rem;
        assert table[..] == t[i := rem];
        TableGrows(t, table[..], o);
      }
      haveTable := true;
    }

    /** The CRC of the first len octets of buf, continuing crc. */
    method RcCrc32(crc: bv32, buf: array<bv8>, len: nat) returns (r: bv32)
      requires Valid() && len <= buf.Length && buf as object != table
      modifies this, table
      ensures Valid() && haveTable
      ensures r == Crc(crc, buf[..len])
    {
      hide Steps, FeedBits, Message, Not, TableUpTo, Xor;
      ghost var message := buf[..];
      if !haveTable {
        BuildTable();
      }
      assert buf[..] == message;
      r := Flipped(crc);
      StartFeed(Not(crc));
      for p := 0 to len
        invariant Valid() && haveTable
        invariant r == FeedBits(Not(crc), Message(message[..p]))
      {
        var octet := buf[p];
        r := Fold(r, octet);
        OctetFed(Not(crc), message, p, octet);
      }
      r := Flipped(r);
    }

    static function Flipped(r: bv32): (q: bv32)
      ensures q == Not(r)
    {
      !r
    }

    method Fold(crc: bv32, octet: bv8) returns (r: bv32)
      requires Valid() && haveTable
      ensures r == FeedBits(crc, Bits(octet))
    {
      hide Steps, FeedBits, TableUpTo, Bits;
      FeedOctet(crc, octet);
      TableStep(crc, octet);
      LookUp(table[..], crc, octet);
      var index := (crc & 0xff) ^ (octet as bv32);
      r := (crc >> 8) ^ table[index as int];
    }
  }

  lemma EmptyTable(t: seq<bv32>)
    requires |t| == 256
    ensures TableUpTo(t, 0)
  {
  }

  lemma OctetOf(i: nat)
    requires i < 256
    ensures Index(i as bv8) == i
  {
  }

  lemma StartFeed(r: bv32)
    ensures FeedBits(r, Message([])) == r
  {
  }

  lemma OctetFed(r: bv32, s: seq<bv8>, p: nat, o: bv8)
    requires p < |s| && s[p] == o
    ensures FeedBits(r, Message(s[..p + 1])) == FeedBits(FeedBits(r, Message(s[..p])), Bits(o))
  {
    hide FeedBits, Message, Bits;
    assert s[..p + 1] == s[..p] + [o];
    MessageSnoc(s[..p], o);
    FeedConcat(r, Message(s[..p]), Bits(o));
  }

  lemma LookUp(t: seq<bv32>, r: bv32, o: bv8)
    requires |t| == 256 && TableUpTo(t, 256)
    ensures LowXor(r, o) as int < 256
    ensures t[LowXor(r, o) as int] == Steps(LowXor(r, o), 8)
  {
    hide Steps;
    var x := LowXor(r, o) as bv8;
    assert x as bv32 == LowXor(r, o);
    assert Index(x) == LowXor(r, o) as int;
  }
}
