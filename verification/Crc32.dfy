/** The table-driven CRC-32 of mi_flash.c against the bit-by-bit polynomial division
    of section 8 of RFC 1952. */
module Crc32 {
  import opened Bytes

  /** Reflected generator polynomial. */
  const POLY: bv32 := 0xedb88320

  /** Exponents of the generator polynomial, without the leading one. */
  const EXPONENTS: seq<nat> := [0, 1, 2, 4, 5, 7, 8, 10, 11, 12, 16, 22, 23, 26]

  function Xor(a: bv32, b: bv32): bv32 { a ^ b }

  function LowBit(a: bv32): bv32 { a & 1 }

  function Half(a: bv32): bv32 { a >> 1 }

  function Double(a: bv32): bv32 { a << 1 }

  function LowByte(a: bv32): bv32 { a & 0xff }

  function DropByte(a: bv32): bv32 { a >> 8 }

  function PushByte(a: bv32): bv32 { a << 8 }

  function Wide(b: Byte): bv32 { Octet(b) as bv32 }

  /** One step of the polynomial division. */
  function BitStep(c: bv32): (r: bv32) {
    if LowBit(c) == 1 then Xor(POLY, Half(c)) else Half(c)
  }

  function Steps(c: bv32, n: nat): (r: bv32)
    decreases n
  {
    if n == 0 then c else Steps(BitStep(c), n - 1)
  }

  /** Absorb one byte, bit by bit. */
  function ByteStep(c: bv32, b: Byte): (r: bv32) {
    Steps(Xor(c, Wide(b)), 8)
  }

  function Absorb(c: bv32, data: seq<Byte>): (r: bv32)
    decreases |data|
  {
    if |data| == 0 then c else Absorb(ByteStep(c, data[0]), data[1..])
  }

  /** The reference CRC: complement, divide, complement. */
  function Crc(c: bv32, data: seq<Byte>): (r: bv32) {
    Xor(Absorb(Xor(c, 0xffffffff), data), 0xffffffff)
  }

  // ----- bit-vector facts

  lemma HalfXor(x: bv32, y: bv32)
    ensures Half(Xor(x, y)) == Xor(Half(x), Half(y))
  {
  }

  lemma LowBitXor(x: bv32, y: bv32)
    ensures LowBit(x) == 0 || LowBit(x) == 1
    ensures LowBit(Xor(x, y)) == if LowBit(x) == LowBit(y) then 0 else 1
  {
  }

  lemma XorCommutes(a: bv32, b: bv32)
    ensures Xor(a, b) == Xor(b, a)
  {
  }

  lemma XorTwice(p: bv32, b: bv32)
    ensures Xor(p, Xor(p, b)) == b
  {
  }

  lemma Complement(a: bv32)
    ensures Xor(Xor(a, 0xffffffff), 0xffffffff) == a
  {
  }

  lemma XorCancel(a: bv32, b: bv32, c: bv32)
    ensures Xor(a, c) == Xor(b, c) ==> a == b
    ensures Xor(c, a) == Xor(c, b) ==> a == b
  {
  }

  lemma XorAssoc(a: bv32, b: bv32, c: bv32)
    ensures Xor(Xor(a, b), c) == Xor(a, Xor(b, c))
  {
  }

  lemma XorZero(a: bv32)
    ensures Xor(a, 0) == a
  {
  }

  lemma ShiftOutClearBit(z: bv32)
    requires z < 0x80000000
    ensures BitStep(Double(z)) == z
  {
  }

  lemma PushByteDoubles(y: bv32)
    ensures PushByte(y) == Double(Double(Double(Double(Double(Double(Double(Double(y))))))))
  {
  }

  lemma SplitLowByte(x: bv32)
    ensures x == Xor(LowByte(x), PushByte(DropByte(x)))
    ensures DropByte(x) < 0x1000000
    ensures LowByte(x) < 256
    ensures ((LowByte(x)) as bv8) as bv32 == LowByte(x)
  {
  }

  lemma ByteStaysLow(c: bv32, b: bv8)
    ensures DropByte(Xor(c, b as bv32)) == DropByte(c)
  {
  }

  lemma IndexCases(o: bv8, i: nat)
    requires o as int <= i < 256
    ensures o as int < i || o == i as bv8
  {
  }

  // ----- the division is linear and injective

  lemma BitStepLinear(x: bv32, y: bv32)
    ensures BitStep(Xor(x, y)) == Xor(BitStep(x), BitStep(y))
  {
    hide Xor, Half, LowBit;
    HalfXor(x, y);
    LowBitXor(x, y);
    LowBitXor(y, x);
    var a, b := Half(x), Half(y);
    XorAssoc(POLY, a, b);
    XorAssoc(POLY, a, Xor(POLY, b));
    XorAssoc(a, POLY, b);
    XorAssoc(POLY, a, b);
    XorCommutes(POLY, a);
    XorTwice(POLY, Xor(a, b));
  }

  lemma BitStepInjective(x: bv32, y: bv32)
    requires BitStep(x) == BitStep(y)
    ensures x == y
  {
  }

  /** The division is linear over exclusive-or. */
  lemma {:induction false} StepsLinear(x: bv32, y: bv32, n: nat)
    ensures Steps(Xor(x, y), n) == Xor(Steps(x, n), Steps(y, n))
    decreases n
  {
    hide Xor, BitStep;
    if n > 0 {
      BitStepLinear(x, y);
      StepsLinear(BitStep(x), BitStep(y), n - 1);
    }
  }

  /** No two states are merged by the division. */
  lemma {:induction false} StepsInjective(x: bv32, y: bv32, n: nat)
    requires Steps(x, n) == Steps(y, n)
    ensures x == y
    decreases n
  {
    hide Xor, BitStep;
    if n > 0 {
      StepsInjective(BitStep(x), BitStep(y), n - 1);
      BitStepInjective(x, y);
    }
  }

  lemma {:induction false} StepsAdd(c: bv32, m: nat, n: nat)
    ensures Steps(c, m + n) == Steps(Steps(c, m), n)
    decreases m
  {
    hide Xor, BitStep;
    if m > 0 {
      StepsAdd(BitStep(c), m - 1, n);
    }
  }

  /** Eight steps over a state whose low byte is clear only shift it down. */
  lemma EightStepsOfPush(y: bv32)
    requires y < 0x1000000
    ensures Steps(PushByte(y), 8) == y
  {
    var z1 := Double(y);
    var z2 := Double(z1);
    var z3 := Double(z2);
    var z4 := Double(z3);
    var z5 := Double(z4);
    var z6 := Double(z5);
    var z7 := Double(z6);
    assert y < 0x80000000 && z1 < 0x80000000 && z2 < 0x80000000 && z3 < 0x80000000;
    assert z4 < 0x80000000 && z5 < 0x80000000 && z6 < 0x80000000 && z7 < 0x80000000;
    hide BitStep, PushByte, Double;
    PushByteDoubles(y);
    ShiftOutClearBit(z7);
    ShiftOutClearBit(z6);
    ShiftOutClearBit(z5);
    ShiftOutClearBit(z4);
    ShiftOutClearBit(z3);
    ShiftOutClearBit(z2);
    ShiftOutClearBit(z1);
    ShiftOutClearBit(y);
    assert Steps(PushByte(y), 8) == Steps(z7, 7) == Steps(z6, 6) == Steps(z5, 5);
    assert Steps(z5, 5) == Steps(z4, 4) == Steps(z3, 3) == Steps(z2, 2);
  }

  /** One table lookup does the work of eight division steps, for every state. */
  lemma TableStep(x: bv32)
    ensures Steps(x, 8) == Xor(Steps(LowByte(x), 8), DropByte(x))
  {
    hide *;
    SplitLowByte(x);
    StepsLinear(LowByte(x), PushByte(DropByte(x)), 8);
    EightStepsOfPush(DropByte(x));
  }

  // ----- the code

  /** The exclusive-or pattern assembled from the first `n` exponents. */
  function PolyOf(n: nat): (r: bv32)
    requires n <= |EXPONENTS|
  {
    if n == 0 then 0
    else PolyOf(n - 1) | Term(EXPONENTS[n - 1])
  }

  /** `1L << (31 - e)`. */
  function Term(e: nat): bv32 {
    if e <= 31 then (1 as bv32) << (31 - e) else 0
  }

  /** The exponent list denotes the polynomial 0xedb88320. */
  lemma PolyOfAll()
    ensures PolyOf(|EXPONENTS|) == POLY
  {
    assert PolyOf(1) == 0x80000000;
    assert PolyOf(2) == 0xc0000000;
    assert PolyOf(3) == 0xe0000000;
    assert PolyOf(4) == 0xe8000000;
    assert PolyOf(5) == 0xec000000;
    assert PolyOf(6) == 0xed000000;
    assert PolyOf(7) == 0xed800000;
    assert PolyOf(8) == 0xeda00000;
    assert PolyOf(9) == 0xedb00000;
    assert PolyOf(10) == 0xedb80000;
    assert PolyOf(11) == 0xedb88000;
    assert PolyOf(12) == 0xedb88200;
    assert PolyOf(13) == 0xedb88300;
  }

  /** Entry `o` of a finished table. */
  ghost predicate EntryDone(table: seq<bv32>, o: bv8) {
    o as int < |table| && table[o as int] == Steps(o as bv32, 8)
  }

  /** The module state `_gu32CrcTable` and `_gbIsCrcTableEmpty`. */
  class CrcEngine {
    const table: array<bv32>
    var isEmpty: bool

    ghost predicate Valid()
      reads this, table
    {
      table.Length == 256 && (!isEmpty ==> forall o: bv8 :: EntryDone(table[..], o))
    }

    constructor ()
      ensures Valid() && isEmpty && fresh(table)
    {
      table := new bv32[256](_ => 0);
      isEmpty := true;
    }

    method CreateTable()
      requires Valid()
      modifies this, table
      ensures Valid() && !isEmpty
    {
      hide Steps, BitStep, Octet, Chr;
      var poly := MakePoly();
      for i := 0 to 256
        invariant forall o: bv8 :: (o as int) < i ==> EntryDone(table[..], o)
      {
        var crc := TableEntry(poly, i as bv8);
        ghost var was := table[..];
        table[i] := crc;
        forall o: bv8 | (o as int) < i + 1
          ensures EntryDone(table[..], o)
        {
          IndexCases(o, i);
          assert o as int < i ==> EntryDone(was, o);
        }
      }
      isEmpty := false;
    }

    method MakePoly() returns (poly: bv32)
      ensures poly == POLY
    {
      hide Term;
      poly := 0;
      for i := 0 to |EXPONENTS|
        invariant poly == PolyOf(i)
      {
        poly := poly | Term(EXPONENTS[i]);
      }
      PolyOfAll();
    }

    /** The inner loop: eight division steps of one table index. */
    method TableEntry(poly: bv32, index: bv8) returns (crc: bv32)
      requires poly == POLY
      ensures crc == Steps(index as bv32, 8)
    {
      crc := index as bv32;
      for j := 0 to 8
        invariant Steps(index as bv32, 8) == Steps(crc, 8 - j)
      {
        ghost var was := crc;
        crc := if LowBit(crc) == 1 then Xor(poly, Half(crc)) else Half(crc);
        assert crc == BitStep(was);
      }
    }

    method Do1(crc: bv32, buf: seq<Byte>, at: nat) returns (r: bv32)
      requires Valid() && !isEmpty && at < |buf|
      ensures r == Absorb(crc, buf[at..at + 1])
    {
      hide Xor, LowByte, DropByte, PushByte, Steps, BitStep, Octet;
      var x := Xor(crc, Wide(buf[at]));
      SplitLowByte(x);
      var index := LowByte(x) as bv8;
      assert EntryDone(table[..], index);
      r := Xor(table[index as int], DropByte(crc));
      TableStep(x);
      ByteStaysLow(crc, Octet(buf[at]));
      assert buf[at..at + 1][1..] == [];
    }

    method Do2(crc: bv32, buf: seq<Byte>, at: nat) returns (r: bv32)
      requires Valid() && !isEmpty && at + 2 <= |buf|
      ensures r == Absorb(crc, buf[at..at + 2])
    {
      hide Absorb;
      r := Do1(crc, buf, at);
      r := Do1(r, buf, at + 1);
      AbsorbSlices(crc, buf, at, at + 1, at + 2);
    }

    method Do4(crc: bv32, buf: seq<Byte>, at: nat) returns (r: bv32)
      requires Valid() && !isEmpty && at + 4 <= |buf|
      ensures r == Absorb(crc, buf[at..at + 4])
    {
      hide Absorb;
      r := Do2(crc, buf, at);
      r := Do2(r, buf, at + 2);
      AbsorbSlices(crc, buf, at, at + 2, at + 4);
    }

    method Do8(crc: bv32, buf: seq<Byte>, at: nat) returns (r: bv32)
      requires Valid() && !isEmpty && at + 8 <= |buf|
      ensures r == Absorb(crc, buf[at..at + 8])
    {
      hide Absorb;
      r := Do4(crc, buf, at);
      r := Do4(r, buf, at + 4);
      AbsorbSlices(crc, buf, at, at + 4, at + 8);
    }

    /** The unrolled loop and its tail compute the reference CRC at every length. */
    method Compute(crc: bv32, buf: seq<Byte>) returns (r: bv32)
      requires Valid()
      modifies this, table
      ensures Valid() && !isEmpty
      ensures r == Crc(crc, buf)
    {
      hide Xor, ByteStep;
      if isEmpty {
        CreateTable();
      }
      ghost var start := Xor(crc, 0xffffffff);
      r := Xor(crc, 0xffffffff);
      var at := 0;
      while |buf| - at >= 8
        invariant Valid() && !isEmpty
        invariant at <= |buf|
        invariant r == Absorb(start, buf[..at])
      {
        AbsorbSlices(start, buf, 0, at, at + 8);
        r := Do8(r, buf, at);
        at := at + 8;
      }
      while at < |buf|
        invariant Valid() && !isEmpty
        invariant at <= |buf|
        invariant r == Absorb(start, buf[..at])
      {
        AbsorbSlices(start, buf, 0, at, at + 1);
        r := Do1(r, buf, at);
        at := at + 1;
      }
      assert buf[..at] == buf;
      r := Xor(r, 0xffffffff);
    }
  }

  // ----- what the CRC promises

  lemma {:induction false} AbsorbAppend(c: bv32, a: seq<Byte>, b: seq<Byte>)
    ensures Absorb(c, a + b) == Absorb(Absorb(c, a), b)
    decreases |a|
  {
    hide ByteStep;
    if |a| == 0 {
      assert a + b == b;
    } else {
      assert (a + b)[1..] == a[1..] + b;
      AbsorbAppend(ByteStep(c, a[0]), a[1..], b);
    }
  }

  lemma AbsorbSlices(c: bv32, buf: seq<Byte>, lo: nat, mid: nat, hi: nat)
    requires lo <= mid <= hi <= |buf|
    ensures Absorb(c, buf[lo..hi]) == Absorb(Absorb(c, buf[lo..mid]), buf[mid..hi])
    ensures lo == 0 ==> Absorb(c, buf[..hi]) == Absorb(Absorb(c, buf[..mid]), buf[mid..hi])
  {
    hide Absorb;
    assert buf[lo..hi] == buf[lo..mid] + buf[mid..hi];
    AbsorbAppend(c, buf[lo..mid], buf[mid..hi]);
    assert buf[..hi] == buf[0..hi] && buf[..mid] == buf[0..mid];
  }

  /** A CRC may be computed piecewise. */
  lemma CrcChains(c: bv32, a: seq<Byte>, b: seq<Byte>)
    ensures Crc(Crc(c, a), b) == Crc(c, a + b)
  {
    hide Absorb, Xor;
    Complement(Absorb(Xor(c, 0xffffffff), a));
    AbsorbAppend(Xor(c, 0xffffffff), a, b);
  }

  lemma {:induction false} AbsorbInjective(x: bv32, y: bv32, data: seq<Byte>)
    requires Absorb(x, data) == Absorb(y, data)
    ensures x == y
    decreases |data|
  {
    hide Xor, Steps;
    if |data| > 0 {
      AbsorbInjective(ByteStep(x, data[0]), ByteStep(y, data[0]), data[1..]);
      StepsInjective(Xor(x, Wide(data[0])), Xor(y, Wide(data[0])), 8);
      XorCancel(x, y, Wide(data[0]));
    }
  }

  /** Up to four bytes as one little-endian word. */
  function Word(w: seq<Byte>): (r: bv32)
    decreases |w|
  {
    if |w| == 0 then 0 else Xor(Wide(w[0]), PushByte(Word(w[1..])))
  }

  lemma WordGrows(b: bv8, r: bv32)
    ensures r < 0x10000 ==> Xor(b as bv32, PushByte(r)) < 0x1000000
    ensures r < 0x100 ==> Xor(b as bv32, PushByte(r)) < 0x10000
    ensures r == 0 ==> Xor(b as bv32, PushByte(r)) < 0x100
  {
  }

  lemma {:induction false} WordBound(w: seq<Byte>)
    requires |w| <= 3
    ensures Word(w) < 0x1000000
    ensures |w| <= 2 ==> Word(w) < 0x10000
    ensures |w| <= 1 ==> Word(w) < 0x100
    ensures |w| == 0 ==> Word(w) == 0
    decreases |w|
  {
    hide Xor, PushByte;
    if |w| > 0 {
      WordBound(w[1..]);
      WordGrows(Octet(w[0]), Word(w[1..]));
    }
  }

  lemma WordParts(b: bv8, r: bv32, b': bv8, r': bv32)
    requires r < 0x1000000 && r' < 0x1000000
    requires Xor(b as bv32, PushByte(r)) == Xor(b' as bv32, PushByte(r'))
    ensures b == b' && r == r'
  {
  }

  lemma {:induction false} WordInjective(w: seq<Byte>, w': seq<Byte>)
    requires |w| == |w'| <= 4
    requires Word(w) == Word(w')
    ensures w == w'
    decreases |w|
  {
    hide Xor, PushByte, Octet;
    if |w| > 0 {
      WordBound(w[1..]);
      WordBound(w'[1..]);
      WordParts(Octet(w[0]), Word(w[1..]), Octet(w'[0]), Word(w'[1..]));
      OctetInjective(w[0], w'[0]);
      WordInjective(w[1..], w'[1..]);
      assert w == [w[0]] + w[1..] && w' == [w'[0]] + w'[1..];
    }
  }

  /** Absorbing up to four bytes is dividing the state exclusive-ored with their word. */
  lemma {:induction false} AbsorbIsWordDivision(c: bv32, w: seq<Byte>)
    requires |w| <= 4
    ensures Absorb(c, w) == Steps(Xor(c, Word(w)), 8 * |w|)
    decreases |w|
  {
    hide Xor, PushByte, Steps;
    if |w| == 0 {
      XorZero(c);
      assert Steps(c, 0) == c by { StepsNone(c); }
    } else {
      var rest := Word(w[1..]);
      AbsorbIsWordDivision(ByteStep(c, w[0]), w[1..]);
      WordBound(w[1..]);
      EightStepsOfPush(rest);
      StepsLinear(Xor(c, Wide(w[0])), PushByte(rest), 8);
      XorAssoc(c, Wide(w[0]), PushByte(rest));
      StepsAdd(Xor(c, Word(w)), 8, 8 * |w[1..]|);
    }
  }

  lemma StepsNone(c: bv32)
    ensures Steps(c, 0) == c
  {
  }

  /** Every corruption confined to at most four consecutive bytes changes the CRC. */
  lemma CrcDetectsBurst(c: bv32, before: seq<Byte>, w: seq<Byte>, w': seq<Byte>, after: seq<Byte>)
    requires |w| == |w'| <= 4
    requires w != w'
    ensures Crc(c, before + w + after) != Crc(c, before + w' + after)
  {
    hide Xor, Absorb, Steps;
    var start := Xor(c, 0xffffffff);
    var mid := Absorb(start, before);
    AbsorbAppend(start, before + w, after);
    AbsorbAppend(start, before, w);
    AbsorbAppend(start, before + w', after);
    AbsorbAppend(start, before, w');
    if Crc(c, before + w + after) == Crc(c, before + w' + after) {
      XorCancel(Absorb(start, before + w + after), Absorb(start, before + w' + after), 0xffffffff);
      AbsorbInjective(Absorb(mid, w), Absorb(mid, w'), after);
      AbsorbIsWordDivision(mid, w);
      AbsorbIsWordDivision(mid, w');
      StepsInjective(Xor(mid, Word(w)), Xor(mid, Word(w')), 8 * |w|);
      XorCancel(Word(w), Word(w'), mid);
      WordInjective(w, w');
    }
  }

  /** The same fact about two whole buffers that agree outside a window of four bytes. */
  lemma CrcDetectsWindow(c: bv32, a: seq<Byte>, b: seq<Byte>, at: nat)
    requires |a| == |b| && at <= |a|
    requires forall k :: 0 <= k < |a| && !(at <= k < at + 4) ==> a[k] == b[k]
    ensures Crc(c, a) == Crc(c, b) <==> a == b
  {
    hide Crc;
    var end := if at + 4 <= |a| then at + 4 else |a|;
    assert a == a[..at] + a[at..end] + a[end..];
    assert b == a[..at] + b[at..end] + a[end..];
    if a[at..end] != b[at..end] {
      CrcDetectsBurst(c, a[..at], a[at..end], b[at..end], a[end..]);
    }
  }

  // ----- the 32-bit little-endian field that stores a CRC

  function Encode32(x: bv32): (r: seq<Byte>)
    ensures |r| == 4
  {
    [Chr(ByteOf(x, 0)), Chr(ByteOf(x, 8)), Chr(ByteOf(x, 16)), Chr(ByteOf(x, 24))]
  }

  function ByteOf(x: bv32, shift: nat): bv8
    requires shift <= 24
  {
    ((x >> shift) & 0xff) as bv8
  }

  function Decode32(w: seq<Byte>): (r: bv32)
    requires |w| == 4
  {
    Word(w)
  }

  lemma FourBytes(x: bv32)
    ensures Xor(ByteOf(x, 0) as bv32, PushByte(Xor(ByteOf(x, 8) as bv32, PushByte(Xor(ByteOf(x, 16) as bv32,
                PushByte(Xor(ByteOf(x, 24) as bv32, PushByte(0)))))))) == x
  {
  }

  lemma Encode32RoundTrip(x: bv32)
    ensures Decode32(Encode32(x)) == x
  {
    hide Xor, PushByte, ByteOf, Octet, Chr;
    var e := Encode32(x);
    OctetChr(ByteOf(x, 0));
    OctetChr(ByteOf(x, 8));
    OctetChr(ByteOf(x, 16));
    OctetChr(ByteOf(x, 24));
    FourBytes(x);
    assert Word(e[4..]) == 0;
    assert e[3..][1..] == e[4..] && e[2..][1..] == e[3..] && e[1..][1..] == e[2..];
  }

  // ----- known values

  lemma XorSwap(a: bv32, b: bv32)
    ensures Xor(a, Xor(a, b)) == b
  {
  }

  lemma StepsOfOnes()
    ensures Steps(0xffffffff, 8) == 0x2dfd1072 && Steps(0x2dfd1072, 8) == 0xbe26ed00
    ensures Steps(0xbe26ed00, 8) == 0x00be26ed && Steps(0x00be26ed, 8) == 0xdebb20e3
  {
  }

  lemma ResidueOfOnes()
    ensures Steps(0xffffffff, 32) == 0xdebb20e3
  {
    hide Steps;
    StepsOfOnes();
    StepsAdd(0xffffffff, 8, 24);
    StepsAdd(0x2dfd1072, 8, 16);
    StepsAdd(0xbe26ed00, 8, 8);
  }

  /** The residue law: whatever the message, the CRC over the message and its own CRC field is one constant. */
  lemma CrcResidue(m: seq<Byte>)
    ensures Crc(0, m + Encode32(Crc(0, m))) == 0x2144df1c
  {
    hide Absorb, Steps, Encode32, Word, Xor;
    var start := Xor(0, 0xffffffff);
    var s := Absorb(start, m);
    var crc := Xor(s, 0xffffffff);
    var field := Encode32(crc);
    AbsorbAppend(start, m, field);
    AbsorbIsWordDivision(s, field);
    Encode32RoundTrip(crc);
    XorSwap(s, 0xffffffff);
    ResidueOfOnes();
    OnesComplemented();
  }

  lemma OnesComplemented()
    ensures Xor(0, 0xffffffff) == 0xffffffff && Xor(0xdebb20e3, 0xffffffff) == 0x2144df1c
  {
  }

  lemma DigitOctets()
    ensures Wide('1') == 0x31 && Wide('2') == 0x32 && Wide('3') == 0x33 && Wide('4') == 0x34 && Wide('5') == 0x35
    ensures Wide('6') == 0x36 && Wide('7') == 0x37 && Wide('8') == 0x38 && Wide('9') == 0x39
  {
  }

  lemma StepsOfCheck()
    ensures Steps(0xffffffce, 8) == 0x7c231048
    ensures Steps(0x7c23107a, 8) == 0xb0acbb32
    ensures Steps(0xb0acbb01, 8) == 0x77b79c2d
    ensures Steps(0x77b79c19, 8) == 0x641c1f5c
    ensures Steps(0x641c1f69, 8) == 0x340ac5e3
    ensures Steps(0x340ac5d5, 8) == 0xf68d2c9e
    ensures Steps(0xf68d2ca9, 8) == 0xaffc9660
    ensures Steps(0xaffc9658, 8) == 0x651f2550
    ensures Steps(0x651f2569, 8) == 0x340bc6d9
  {
  }

  /** The states while the digits 1 to 9 are absorbed. */
  lemma CheckStates()
    ensures ByteStep(0xffffffff, '1') == 0x7c231048
    ensures ByteStep(0x7c231048, '2') == 0xb0acbb32
    ensures ByteStep(0xb0acbb32, '3') == 0x77b79c2d
    ensures ByteStep(0x77b79c2d, '4') == 0x641c1f5c
    ensures ByteStep(0x641c1f5c, '5') == 0x340ac5e3
    ensures ByteStep(0x340ac5e3, '6') == 0xf68d2c9e
    ensures ByteStep(0xf68d2c9e, '7') == 0xaffc9660
    ensures ByteStep(0xaffc9660, '8') == 0x651f2550
    ensures ByteStep(0x651f2550, '9') == 0x340bc6d9
  {
    hide Steps, Wide;
    DigitOctets();
    StepsOfCheck();
  }

  lemma AbsorbSnoc(c: bv32, data: seq<Byte>, b: Byte)
    ensures Absorb(c, data + [b]) == ByteStep(Absorb(c, data), b)
  {
    hide ByteStep;
    AbsorbAppend(c, data, [b]);
    assert [b][1..] == [];
  }

  /** The check value every table of CRC parameters lists. */
  lemma CheckValue()
    ensures Crc(0, "123456789") == 0xcbf43926
  {
    hide ByteStep, Absorb, Xor;
    CheckStates();
    AbsorbSnoc(0xffffffff, "", '1');
    AbsorbSnoc(0xffffffff, "1", '2');
    AbsorbSnoc(0xffffffff, "12", '3');
    AbsorbSnoc(0xffffffff, "123", '4');
    AbsorbSnoc(0xffffffff, "1234", '5');
    AbsorbSnoc(0xffffffff, "12345", '6');
    AbsorbSnoc(0xffffffff, "123456", '7');
    AbsorbSnoc(0xffffffff, "1234567", '8');
    AbsorbSnoc(0xffffffff, "12345678", '9');
    assert "" + ['1'] == "1" && "1" + ['2'] == "12" && "12" + ['3'] == "123";
    assert "123" + ['4'] == "1234" && "1234" + ['5'] == "12345" && "12345" + ['6'] == "123456";
    assert "123456" + ['7'] == "1234567" && "1234567" + ['8'] == "12345678" && "12345678" + ['9'] == "123456789";
    assert Absorb(0xffffffff, []) == 0xffffffff by { AbsorbNothing(0xffffffff); }
    CheckComplemented();
  }

  lemma AbsorbNothing(c: bv32)
    ensures Absorb(c, []) == c
  {
  }

  lemma CheckComplemented()
    ensures Xor(0, 0xffffffff) == 0xffffffff && Xor(0x340bc6d9, 0xffffffff) == 0xcbf43926
  {
  }
}
