/**
 The Ethernet frame checksum (task-3a/framework/control.cpp): the table-driven loops
 compute the complemented remainder that clause 3.2.9 of IEEE 802.3-2018 defines, and
 so reveal every error burst of up to 32 bits.
 */
module FrameChecksum {
  import opened CrcTable
  import opened PolynomialDivision

  type Octet = bv8

  const ONES: bv32 := 0xffff_ffff

  // ----- bits in the order Ethernet transmits them: least significant first

  function OctetBits(v: Octet): (bits: Bits)
    ensures |bits| == 8
  {
    [v & 1 != 0, v & 2 != 0, v & 4 != 0, v & 8 != 0, v & 16 != 0, v & 32 != 0, v & 64 != 0, v & 128 != 0]
  }

  function BitsOf(data: seq<Octet>): (bits: Bits)
    ensures |bits| == 8 * |data|
  {
    if data == [] then [] else OctetBits(data[0]) + BitsOf(data[1..])
  }

  lemma OctetBitsInjective(v: Octet, w: Octet)
    requires OctetBits(v) == OctetBits(w)
    ensures v == w
  {
    var x, y := OctetBits(v), OctetBits(w);
    assert x[0] == y[0] && x[1] == y[1] && x[2] == y[2] && x[3] == y[3];
    assert x[4] == y[4] && x[5] == y[5] && x[6] == y[6] && x[7] == y[7];
  }

  lemma {:induction false} BitsInjective(m: seq<Octet>, n: seq<Octet>)
    requires BitsOf(m) == BitsOf(n)
    ensures m == n
  {
    if m != [] {
      assert OctetBits(m[0]) == BitsOf(m)[..8] == BitsOf(n)[..8] == OctetBits(n[0]);
      OctetBitsInjective(m[0], n[0]);
      assert BitsOf(m[1..]) == BitsOf(m)[8..] == BitsOf(n)[8..] == BitsOf(n[1..]);
      BitsInjective(m[1..], n[1..]);
      assert m == [m[0]] + m[1..] && n == [n[0]] + n[1..];
    }
  }

  // ----- the register as a string of bits

  function MaskAt(i: nat): bv32
    requires i < 32
  {
    if i == 0 then 1 else MaskAt(i - 1) << 1
  }

  predicate Has(w: bv32, mask: bv32) {
    w & mask != 0
  }

  predicate OneHot(mask: bv32) {
    mask & (mask - 1) == 0
  }

  /** The register's bits; the lowest is the coefficient of the highest power. */
  function RegisterBits(w: bv32): (bits: Bits)
    ensures |bits| == 32
    ensures forall i :: 0 <= i < 32 ==> bits[i] == Has(w, MaskAt(i))
  {
    seq(32, i requires 0 <= i < 32 => Has(w, MaskAt(i)))
  }

  lemma OneHotUp(mask: bv32)
    requires OneHot(mask)
    ensures OneHot(mask << 1)
  {
  }

  lemma {:induction false} MaskOneHot(i: nat)
    requires i < 32
    ensures OneHot(MaskAt(i))
  {
    if i > 0 {
      MaskOneHot(i - 1);
      OneHotUp(MaskAt(i - 1));
    }
  }

  lemma MaskValues()
    ensures MaskAt(0) == 0x1 && MaskAt(1) == 0x2 && MaskAt(2) == 0x4 && MaskAt(3) == 0x8
    ensures MaskAt(4) == 0x10 && MaskAt(5) == 0x20 && MaskAt(6) == 0x40 && MaskAt(7) == 0x80
    ensures MaskAt(8) == 0x100 && MaskAt(9) == 0x200 && MaskAt(10) == 0x400 && MaskAt(11) == 0x800
    ensures MaskAt(12) == 0x1000 && MaskAt(13) == 0x2000 && MaskAt(14) == 0x4000 && MaskAt(15) == 0x8000
    ensures MaskAt(16) == 0x10000 && MaskAt(17) == 0x20000 && MaskAt(18) == 0x40000 && MaskAt(19) == 0x80000
    ensures MaskAt(20) == 0x100000 && MaskAt(21) == 0x200000 && MaskAt(22) == 0x400000 && MaskAt(23) == 0x800000
    ensures MaskAt(24) == 0x1000000 && MaskAt(25) == 0x2000000 && MaskAt(26) == 0x4000000 && MaskAt(27) == 0x8000000
    ensures MaskAt(28) == 0x10000000 && MaskAt(29) == 0x20000000 && MaskAt(30) == 0x40000000 && MaskAt(31) == 0x80000000
  {
  }

  lemma {:induction false} MaskNonzero(i: nat)
    requires i < 32
    ensures MaskAt(i) != 0
    decreases 32 - i
  {
    if i == 31 {
      MaskValues();
    } else {
      MaskNonzero(i + 1);
    }
  }

  lemma HasXor(a: bv32, b: bv32, mask: bv32)
    requires OneHot(mask)
    ensures Has(a ^ b, mask) == (Has(a, mask) != Has(b, mask))
  {
  }

  lemma BitsXor(a: bv32, b: bv32)
    ensures RegisterBits(a ^ b) == Xor(RegisterBits(a), RegisterBits(b))
  {
    forall i | 0 <= i < 32
      ensures RegisterBits(a ^ b)[i] == (RegisterBits(a)[i] != RegisterBits(b)[i])
    {
      MaskOneHot(i);
      HasXor(a, b, MaskAt(i));
    }
  }

  lemma BitsListed(w: bv32)
    ensures RegisterBits(w)[0] == (w & 0x1 != 0) && RegisterBits(w)[1] == (w & 0x2 != 0)
    ensures RegisterBits(w)[2] == (w & 0x4 != 0) && RegisterBits(w)[3] == (w & 0x8 != 0)
    ensures RegisterBits(w)[4] == (w & 0x10 != 0) && RegisterBits(w)[5] == (w & 0x20 != 0)
    ensures RegisterBits(w)[6] == (w & 0x40 != 0) && RegisterBits(w)[7] == (w & 0x80 != 0)
    ensures RegisterBits(w)[8] == (w & 0x100 != 0) && RegisterBits(w)[9] == (w & 0x200 != 0)
    ensures RegisterBits(w)[10] == (w & 0x400 != 0) && RegisterBits(w)[11] == (w & 0x800 != 0)
    ensures RegisterBits(w)[12] == (w & 0x1000 != 0) && RegisterBits(w)[13] == (w & 0x2000 != 0)
    ensures RegisterBits(w)[14] == (w & 0x4000 != 0) && RegisterBits(w)[15] == (w & 0x8000 != 0)
    ensures RegisterBits(w)[16] == (w & 0x10000 != 0) && RegisterBits(w)[17] == (w & 0x20000 != 0)
    ensures RegisterBits(w)[18] == (w & 0x40000 != 0) && RegisterBits(w)[19] == (w & 0x80000 != 0)
    ensures RegisterBits(w)[20] == (w & 0x100000 != 0) && RegisterBits(w)[21] == (w & 0x200000 != 0)
    ensures RegisterBits(w)[22] == (w & 0x400000 != 0) && RegisterBits(w)[23] == (w & 0x800000 != 0)
    ensures RegisterBits(w)[24] == (w & 0x1000000 != 0) && RegisterBits(w)[25] == (w & 0x2000000 != 0)
    ensures RegisterBits(w)[26] == (w & 0x4000000 != 0) && RegisterBits(w)[27] == (w & 0x8000000 != 0)
    ensures RegisterBits(w)[28] == (w & 0x10000000 != 0) && RegisterBits(w)[29] == (w & 0x20000000 != 0)
    ensures RegisterBits(w)[30] == (w & 0x40000000 != 0) && RegisterBits(w)[31] == (w & 0x80000000 != 0)
  {
    MaskValues();
  }

  lemma HalfListed(w: bv32, v: bv32)
    requires v == w >> 1
    ensures v & 0x8000_0000 == 0
    ensures (v & 0x1 != 0) == (w & 0x2 != 0) && (v & 0x2 != 0) == (w & 0x4 != 0)
    ensures (v & 0x4 != 0) == (w & 0x8 != 0) && (v & 0x8 != 0) == (w & 0x10 != 0)
    ensures (v & 0x10 != 0) == (w & 0x20 != 0) && (v & 0x20 != 0) == (w & 0x40 != 0)
    ensures (v & 0x40 != 0) == (w & 0x80 != 0) && (v & 0x80 != 0) == (w & 0x100 != 0)
    ensures (v & 0x100 != 0) == (w & 0x200 != 0) && (v & 0x200 != 0) == (w & 0x400 != 0)
    ensures (v & 0x400 != 0) == (w & 0x800 != 0) && (v & 0x800 != 0) == (w & 0x1000 != 0)
    ensures (v & 0x1000 != 0) == (w & 0x2000 != 0) && (v & 0x2000 != 0) == (w & 0x4000 != 0)
    ensures (v & 0x4000 != 0) == (w & 0x8000 != 0) && (v & 0x8000 != 0) == (w & 0x10000 != 0)
    ensures (v & 0x10000 != 0) == (w & 0x20000 != 0) && (v & 0x20000 != 0) == (w & 0x40000 != 0)
    ensures (v & 0x40000 != 0) == (w & 0x80000 != 0) && (v & 0x80000 != 0) == (w & 0x100000 != 0)
    ensures (v & 0x100000 != 0) == (w & 0x200000 != 0) && (v & 0x200000 != 0) == (w & 0x400000 != 0)
    ensures (v & 0x400000 != 0) == (w & 0x800000 != 0) && (v & 0x800000 != 0) == (w & 0x1000000 != 0)
    ensures (v & 0x1000000 != 0) == (w & 0x2000000 != 0) && (v & 0x2000000 != 0) == (w & 0x4000000 != 0)
    ensures (v & 0x4000000 != 0) == (w & 0x8000000 != 0) && (v & 0x8000000 != 0) == (w & 0x10000000 != 0)
    ensures (v & 0x10000000 != 0) == (w & 0x20000000 != 0) && (v & 0x20000000 != 0) == (w & 0x40000000 != 0)
    ensures (v & 0x40000000 != 0) == (w & 0x80000000 != 0)
  {
  }

  lemma ShiftedByOne(x: Bits, y: Bits)
    requires |x| == |y| == 32 && !y[31]
    requires y[0] == x[1] && y[1] == x[2] && y[2] == x[3] && y[3] == x[4]
    requires y[4] == x[5] && y[5] == x[6] && y[6] == x[7] && y[7] == x[8]
    requires y[8] == x[9] && y[9] == x[10] && y[10] == x[11] && y[11] == x[12]
    requires y[12] == x[13] && y[13] == x[14] && y[14] == x[15] && y[15] == x[16]
    requires y[16] == x[17] && y[17] == x[18] && y[18] == x[19] && y[19] == x[20]
    requires y[20] == x[21] && y[21] == x[22] && y[22] == x[23] && y[23] == x[24]
    requires y[24] == x[25] && y[25] == x[26] && y[26] == x[27] && y[27] == x[28]
    requires y[28] == x[29] && y[29] == x[30] && y[30] == x[31]
    ensures y == x[1..] + [false]
  {
  }

  lemma BitsHalf(w: bv32)
    ensures RegisterBits(w >> 1) == RegisterBits(w)[1..] + [false]
  {
    BitsListed(w);
    BitsListed(w >> 1);
    HalfListed(w, w >> 1);
    ShiftedByOne(RegisterBits(w), RegisterBits(w >> 1));
  }

  lemma BitsOnes()
    ensures RegisterBits(ONES) == Complement(Zeros(32))
  {
    forall i | 0 <= i < 32
      ensures RegisterBits(ONES)[i]
    {
      MaskNonzero(i);
      HasOnes(MaskAt(i));
    }
  }

  lemma HasOnes(mask: bv32)
    requires mask != 0
    ensures Has(ONES, mask)
  {
  }

  lemma BitsComplement(w: bv32)
    ensures RegisterBits(w ^ ONES) == Complement(RegisterBits(w))
  {
    BitsXor(w, ONES);
    BitsOnes();
  }

  // ----- the register that divides

  /** Feeds one bit: it is added to the lowest register bit before the shift. */
  function FeedBit(register: bv32, bit: bool): bv32 {
    Shift(if bit then register ^ 1 else register)
  }

  function FeedBits(register: bv32, bits: Bits): bv32
    decreases bits
  {
    if bits == [] then register else FeedBits(FeedBit(register, bits[0]), bits[1..])
  }

  lemma {:induction false} FeedAppend(register: bv32, x: Bits, y: Bits)
    ensures FeedBits(register, x + y) == FeedBits(FeedBits(register, x), y)
    decreases x
  {
    if x == [] {
      assert x + y == y;
    } else {
      assert (x + y)[1..] == x[1..] + y;
      FeedAppend(FeedBit(register, x[0]), x[1..], y);
    }
  }

  /** The generator polynomial without its leading term x^32, highest power first. */
  function Generator(): (low: Bits)
    ensures |low| == 32
  {
    seq(32, i => (31 - i) in {26, 23, 22, 16, 12, 11, 10, 8, 7, 5, 4, 2, 1, 0})
  }

  lemma SameListed(x: Bits, y: Bits)
    requires |x| == |y| == 32
    requires x[0] == y[0] && x[1] == y[1] && x[2] == y[2] && x[3] == y[3]
    requires x[4] == y[4] && x[5] == y[5] && x[6] == y[6] && x[7] == y[7]
    requires x[8] == y[8] && x[9] == y[9] && x[10] == y[10] && x[11] == y[11]
    requires x[12] == y[12] && x[13] == y[13] && x[14] == y[14] && x[15] == y[15]
    requires x[16] == y[16] && x[17] == y[17] && x[18] == y[18] && x[19] == y[19]
    requires x[20] == y[20] && x[21] == y[21] && x[22] == y[22] && x[23] == y[23]
    requires x[24] == y[24] && x[25] == y[25] && x[26] == y[26] && x[27] == y[27]
    requires x[28] == y[28] && x[29] == y[29] && x[30] == y[30] && x[31] == y[31]
    ensures x == y
  {
  }

  lemma PolynomialIsGenerator()
    ensures RegisterBits(POLYNOMIAL) == Generator()
  {
    BitsListed(POLYNOMIAL);
    SameListed(RegisterBits(POLYNOMIAL), Generator());
  }

  /** The division that is still to be done when `register` is about to read `bits`. */
  function Pending(register: bv32, bits: Bits): (dividend: Bits)
    ensures |dividend| == |bits| + 32
  {
    AddFront(bits + Zeros(32), RegisterBits(register))
  }

  lemma LowestIsBit(x: bv32)
    ensures x & 1 == 0 || x & 1 == 1
  {
  }

  lemma FlipLowest(x: bv32)
    ensures (x ^ 1) >> 1 == x >> 1 && ((x ^ 1) & 1 != 0 <==> x & 1 == 0)
  {
  }

  lemma FeedBitCases(register: bv32, bit: bool)
    ensures FeedBit(register, bit)
         == if (register & 1 != 0) != bit then (register >> 1) ^ POLYNOMIAL else register >> 1
  {
    FlipLowest(register);
    ShiftCases(register, register);
    ShiftCases(register ^ 1, register);
  }

  lemma ShiftCases(x: bv32, y: bv32)
    requires x >> 1 == y >> 1
    ensures Shift(x) == if x & 1 != 0 then (y >> 1) ^ POLYNOMIAL else y >> 1
  {
    LowestIsBit(x);
  }

  lemma FeedBitBits(register: bv32, bit: bool)
    ensures var h := RegisterBits(register)[1..] + [false];
      RegisterBits(FeedBit(register, bit)) == if RegisterBits(register)[0] != bit then Xor(h, Generator()) else h
  {
    FeedBitCases(register, bit);
    LowestBit(register);
    BitsHalf(register);
    BitsXor(register >> 1, POLYNOMIAL);
    PolynomialIsGenerator();
  }

  lemma LowestBit(register: bv32)
    ensures RegisterBits(register)[0] == (register & 1 != 0)
  {
    BitsListed(register);
  }

  /** One bit through the register is one row of the long division. */
  lemma FeedBitReduces(register: bv32, bit: bool, rest: Bits)
    ensures Reduce(Pending(register, [bit] + rest), Generator()) == Pending(FeedBit(register, bit), rest)
  {
    var r := RegisterBits(register);
    FeedBitBits(register, bit);
    assert [bit] + rest + Zeros(32) == [bit] + (rest + Zeros(32));
    ReduceRegister(rest + Zeros(32), bit, r, r[1..] + [false], Generator());
  }

  /** The register always holds the remainder of what it has read. */
  lemma {:induction false} RegisterIsRemainder(register: bv32, bits: Bits)
    ensures RegisterBits(FeedBits(register, bits)) == Remainder(Pending(register, bits), Generator())
    decreases bits
  {
    if bits == [] {
      assert Pending(register, []) == RegisterBits(register);
    } else {
      FeedBitReduces(register, bits[0], bits[1..]);
      assert bits == [bits[0]] + bits[1..];
      RegisterIsRemainder(FeedBit(register, bits[0]), bits[1..]);
    }
  }

  // ----- eight bits at once, through the table

  function Shifts(n: nat, register: bv32): bv32
    decreases n
  {
    if n == 0 then register else Shifts(n - 1, Shift(register))
  }

  function Halves(n: nat, w: bv32): bv32
    decreases n
  {
    if n == 0 then w else Halves(n - 1, w >> 1)
  }

  function LowBits(n: nat, w: bv32): Bits
    decreases n
  {
    if n == 0 then [] else [w & 1 != 0] + LowBits(n - 1, w >> 1)
  }

  ghost predicate IsXor(w: bv32, a: bv32, b: bv32) {
    w == a ^ b
  }

  lemma AbsorbBit(register: bv32, e: bv32, u: bv32, bit: bool)
    requires IsXor(register, e, u) && bit == (u & 1 != 0)
    ensures IsXor(FeedBit(register, bit), Shift(e), u >> 1)
  {
    FeedBitCases(register, bit);
    XorHalf(e, u);
    LowestIsBit(e);
    XorExchange(e >> 1, u >> 1, POLYNOMIAL);
  }

  lemma XorHalf(e: bv32, u: bv32)
    ensures (e ^ u) >> 1 == (e >> 1) ^ (u >> 1)
    ensures ((e ^ u) & 1 != 0) == ((e & 1 != 0) != (u & 1 != 0))
  {
  }

  lemma XorExchange(a: bv32, b: bv32, c: bv32)
    ensures (a ^ b) ^ c == (a ^ c) ^ b
  {
  }

  lemma FeedLowest(n: nat, register: bv32, u: bv32)
    requires n > 0
    ensures FeedBits(register, LowBits(n, u)) == FeedBits(FeedBit(register, u & 1 != 0), LowBits(n - 1, u >> 1))
  {
    var bit, rest := u & 1 != 0, LowBits(n - 1, u >> 1);
    assert LowBits(n, u)[0] == bit && LowBits(n, u)[1..] == rest;
  }

  /** Reading the low bits of `u` out of a register e ^ u shifts `e` alone. */
  lemma {:induction false} AbsorbBits(n: nat, register: bv32, e: bv32, u: bv32)
    requires IsXor(register, e, u)
    ensures IsXor(FeedBits(register, LowBits(n, u)), Shifts(n, e), Halves(n, u))
    decreases n
  {
    if n > 0 {
      var bit := u & 1 != 0;
      FeedLowest(n, register, u);
      AbsorbBit(register, e, u, bit);
      AbsorbBits(n - 1, FeedBit(register, bit), Shift(e), u >> 1);
    }
  }

  lemma EightAtOnce(e: bv32, u: bv32)
    ensures Shifts(8, e) == EightShifts(e) && Halves(8, u) == u >> 8
  {
    var e4, u4 := Shift(Shift(Shift(Shift(e)))), (((u >> 1) >> 1) >> 1) >> 1;
    assert Shifts(8, e) == Shifts(4, e4) && Halves(8, u) == Halves(4, u4);
  }

  function FourBits(u: bv32): Bits {
    [Has(u, 1), Has(u, 2), Has(u, 4), Has(u, 8)]
  }

  lemma LowFour(n: nat, u: bv32)
    ensures LowBits(n + 4, u) == FourBits(u) + LowBits(n, u >> 4)
  {
    HalfHas(u);
    HalfHas(u >> 1);
    HalfHas((u >> 1) >> 1);
    assert (((u >> 1) >> 1) >> 1) >> 1 == u >> 4;
    var rest := LowBits(n, u >> 4);
    assert LowBits(n + 1, ((u >> 1) >> 1) >> 1) == [Has(u, 8)] + rest;
    assert LowBits(n + 2, (u >> 1) >> 1) == [Has(u, 4)] + LowBits(n + 1, ((u >> 1) >> 1) >> 1);
    assert LowBits(n + 3, u >> 1) == [Has(u, 2)] + LowBits(n + 2, (u >> 1) >> 1);
  }

  lemma HalfHas(u: bv32)
    ensures Has(u >> 1, 1) == Has(u, 2) && Has(u >> 1, 2) == Has(u, 4) && Has(u >> 1, 4) == Has(u, 8)
  {
  }

  lemma LowEight(u: bv32)
    ensures LowBits(8, u) == FourBits(u) + FourBits(u >> 4)
  {
    LowFour(4, u);
    LowFourOnly(u >> 4);
  }

  lemma LowFourOnly(u: bv32)
    ensures LowBits(4, u) == FourBits(u)
  {
    LowFour(0, u);
    assert FourBits(u) + [] == FourBits(u);
  }

  ghost predicate LowOctet(u: bv32, v: Octet) {
    u & 0xff == v as bv32
  }

  lemma OctetHas(u: bv32, v: Octet)
    requires LowOctet(u, v)
    ensures OctetBits(v) == FourBits(u) + FourBits(u >> 4)
  {
  }

  lemma LowBitsOfOctet(u: bv32, v: Octet)
    requires LowOctet(u, v)
    ensures LowBits(8, u) == OctetBits(v)
  {
    OctetHas(u, v);
    LowEight(u);
  }

  function LowOctetOf(w: bv32): Octet {
    (w & 0xff) as Octet
  }

  /** `crc32step`: one table lookup. */
  function TableStep(sum: bv32, v: Octet): bv32 {
    Combine(sum, Lookup(LowOctetOf(sum ^ v as bv32)))
  }

  function Combine(sum: bv32, entry: bv32): bv32 {
    (sum >> 8) ^ entry
  }

  ghost predicate SameTop(u: bv32, w: bv32) {
    u >> 8 == w >> 8
  }

  lemma SplitForTable(sum: bv32, v: Octet, k: Octet, u: bv32)
    requires k == LowOctetOf(sum ^ v as bv32) && u == sum ^ (k as bv32)
    ensures IsXor(sum, k as bv32, u) && LowOctet(u, v) && SameTop(u, sum)
  {
  }

  lemma AbsorbOctet(register: bv32, e: bv32, u: bv32, v: Octet)
    requires IsXor(register, e, u) && LowOctet(u, v)
    ensures IsXor(FeedBits(register, OctetBits(v)), EightShifts(e), u >> 8)
  {
    AbsorbBits(8, register, e, u);
    EightAtOnce(e, u);
    LowBitsOfOctet(u, v);
  }

  lemma AbsorbThroughTable(register: bv32, k: Octet, u: bv32, v: Octet)
    requires IsXor(register, k as bv32, u) && LowOctet(u, v)
    ensures IsXor(FeedBits(register, OctetBits(v)), Lookup(k), u >> 8)
  {
    Entry(k);
    AbsorbOctet(register, k as bv32, u, v);
  }

  lemma CombineIs(sum: bv32, e: bv32, result: bv32)
    requires result == (sum >> 8) ^ e
    ensures result == Combine(sum, e)
  {
  }

  lemma StepResult(sum: bv32, u: bv32, e: bv32, fed: bv32)
    requires SameTop(u, sum) && IsXor(fed, e, u >> 8)
    ensures Combine(sum, e) == fed
  {
    XorCommutes(e, sum >> 8);
  }

  lemma XorCommutes(a: bv32, b: bv32)
    ensures a ^ b == b ^ a
  {
  }

  /** One table lookup reads the eight bits of an octet. */
  lemma TableStepReadsOctet(sum: bv32, v: Octet)
    ensures TableStep(sum, v) == FeedBits(sum, OctetBits(v))
  {
    var k := LowOctetOf(sum ^ v as bv32);
    var u := sum ^ (k as bv32);
    SplitForTable(sum, v, k, u);
    AbsorbThroughTable(sum, k, u, v);
    StepResult(sum, u, Lookup(k), FeedBits(sum, OctetBits(v)));
  }

  // ----- the checksum loops

  method Crc32Step(sum0: bv32, v: Octet) returns (sum: bv32)
    ensures sum == FeedBits(sum0, OctetBits(v))
  {
    TableStepReadsOctet(sum0, v);
    var entry := Lookup(LowOctetOf(sum0 ^ v as bv32));
    sum := (sum0 >> 8) ^ entry;
    CombineIs(sum0, entry, sum);
  }

  lemma {:induction false} BitsAppend(x: seq<Octet>, y: seq<Octet>)
    ensures BitsOf(x + y) == BitsOf(x) + BitsOf(y)
  {
    if x == [] {
      assert x + y == y;
    } else {
      assert (x + y)[1..] == x[1..] + y;
      BitsAppend(x[1..], y);
    }
  }

  lemma BitsOfOne(v: Octet)
    ensures BitsOf([v]) == OctetBits(v)
  {
  }

  method Crc32Steps(sum0: bv32, data: seq<Octet>) returns (sum: bv32)
    ensures sum == FeedBits(sum0, BitsOf(data))
  {
    sum := sum0;
    for i := 0 to |data|
      invariant sum == FeedBits(sum0, BitsOf(data[..i]))
    {
      assert data[..i + 1] == data[..i] + [data[i]];
      BitsAppend(data[..i], [data[i]]);
      BitsOfOne(data[i]);
      FeedAppend(sum0, BitsOf(data[..i]), OctetBits(data[i]));
      sum := Crc32Step(sum, data[i]);
    }
    assert data[..|data|] == data;
  }

  type MACAddress = m: seq<Octet> | |m| == 6 witness [0, 0, 0, 0, 0, 0]

  type EtherType = t: bv32 | t < 0x1_0000 witness 0

  /** The octets a frame check sequence protects, in transmission order. */
  function Frame(dest: MACAddress, src: MACAddress, etherType: EtherType, data: seq<Octet>): (frame: seq<Octet>)
    ensures |frame| == 14 + |data|
  {
    dest + src + [LowOctetOf(etherType >> 8), LowOctetOf(etherType)] + data
  }

  /** Destination, source, the type with its high octet first, and the data. */
  lemma FrameLayout(dest: MACAddress, src: MACAddress, etherType: EtherType, data: seq<Octet>)
    ensures var frame := Frame(dest, src, etherType, data);
      && frame[..6] == dest && frame[6..12] == src && frame[14..] == data
      && etherType == (frame[12] as bv32 << 8) | frame[13] as bv32
  {
    TypeOctets(etherType);
  }

  lemma TypeOctets(t: EtherType)
    ensures t == (LowOctetOf(t >> 8) as bv32 << 8) | LowOctetOf(t) as bv32
  {
  }

  /** The frame check sequence of clause 3.2.9: complement the first 32 bits, append 32
      zeros, divide by the generator polynomial and complement the remainder. */
  ghost function FrameCheckSequence(frame: seq<Octet>): Bits
    requires |frame| >= 4
  {
    Complement(Remainder(FirstComplemented(BitsOf(frame)) + Zeros(32), Generator()))
  }

  ghost function FirstComplemented(bits: Bits): Bits
    requires |bits| >= 32
  {
    Complement(bits[..32]) + bits[32..]
  }

  /** The register after reading `octets`, complemented before and after. */
  ghost function Checksum(octets: seq<Octet>): bv32 {
    FeedBits(ONES, BitsOf(octets)) ^ ONES
  }

  lemma PendingOnes(bits: Bits)
    requires |bits| >= 32
    ensures Pending(ONES, bits) == FirstComplemented(bits) + Zeros(32)
  {
    BitsOnes();
    var u, v := Pending(ONES, bits), FirstComplemented(bits) + Zeros(32);
    forall i | 0 <= i < |u|
      ensures u[i] == v[i]
    {
    }
  }

  lemma ChecksumIsFrameCheckSequence(frame: seq<Octet>)
    requires |frame| >= 4
    ensures RegisterBits(Checksum(frame)) == FrameCheckSequence(frame)
  {
    var bits := BitsOf(frame);
    BitsComplement(FeedBits(ONES, bits));
    RegisterIsRemainder(ONES, bits);
    PendingOnes(bits);
  }

  method CalculateFrameChecksum(dest: MACAddress, src: MACAddress, etherType: EtherType, data: seq<Octet>)
    returns (checksum: bv32)
    ensures checksum == Checksum(Frame(dest, src, etherType, data))
    ensures RegisterBits(checksum) == FrameCheckSequence(Frame(dest, src, etherType, data))
  {
    var sum: bv32 := 0xffff_ffff;
    sum := Crc32Steps(sum, dest);
    sum := Crc32Steps(sum, src);
    var high, low := LowOctetOf(etherType >> 8), LowOctetOf(etherType);
    sum := Crc32Step(sum, high);
    sum := Crc32Step(sum, low);
    sum := Crc32Steps(sum, data);
    FrameBits(dest, src, high, low, data);
    FeedFrame(ONES, BitsOf(dest), BitsOf(src), OctetBits(high), OctetBits(low), BitsOf(data));
    ChecksumIsFrameCheckSequence(Frame(dest, src, etherType, data));
    return sum ^ 0xffff_ffff;
  }

  lemma FrameBits(dest: seq<Octet>, src: seq<Octet>, high: Octet, low: Octet, data: seq<Octet>)
    ensures BitsOf(dest + src + [high, low] + data)
         == BitsOf(dest) + BitsOf(src) + OctetBits(high) + OctetBits(low) + BitsOf(data)
  {
    BitsOfOne(high);
    BitsOfOne(low);
    BitsAppend(dest, src);
    BitsAppend(dest + src, [high]);
    BitsAppend(dest + src + [high], [low]);
    BitsAppend(dest + src + [high] + [low], data);
    assert dest + src + [high, low] == dest + src + [high] + [low];
  }

  lemma FeedFrame(register: bv32, a: Bits, b: Bits, c: Bits, d: Bits, e: Bits)
    ensures FeedBits(register, a + b + c + d + e)
         == FeedBits(FeedBits(FeedBits(FeedBits(FeedBits(register, a), b), c), d), e)
  {
    FeedAppend(register, a, b);
    FeedAppend(register, a + b, c);
    FeedAppend(register, a + b + c, d);
    FeedAppend(register, a + b + c + d, e);
  }

  // ----- which errors are revealed

  /** Two messages of the same length whose transmitted bits differ only inside 32
      consecutive positions never have the same checksum. */
  lemma BurstDetected(m: seq<Octet>, n: seq<Octet>, p: nat)
    requires |m| == |n| && m != n
    requires AgreeOutside(BitsOf(m), BitsOf(n), p, p + 32)
    ensures Checksum(m) != Checksum(n)
  {
    if Checksum(m) == Checksum(n) {
      var x, y := BitsOf(m), BitsOf(n);
      SameChecksumSameRemainder(x, y);
      GeneratorEndsInOne();
      PendingAgreement(ONES, x, y, p);
      BurstChangesRemainder(Pending(ONES, x), Pending(ONES, y), Generator(), p);
      PendingInjective(ONES, x, y);
      BitsInjective(m, n);
    }
  }

  lemma SameChecksumSameRemainder(x: Bits, y: Bits)
    requires FeedBits(ONES, x) ^ ONES == FeedBits(ONES, y) ^ ONES
    ensures Remainder(Pending(ONES, x), Generator()) == Remainder(Pending(ONES, y), Generator())
  {
    XorCancel(FeedBits(ONES, x), FeedBits(ONES, y));
    RegisterIsRemainder(ONES, x);
    RegisterIsRemainder(ONES, y);
  }

  lemma PendingAgreement(register: bv32, x: Bits, y: Bits, p: nat)
    requires AgreeOutside(x, y, p, p + 32)
    ensures AgreeOutside(Pending(register, x), Pending(register, y), p, p + 32)
  {
  }

  lemma GeneratorEndsInOne()
    ensures Generator()[31]
  {
  }

  lemma XorCancel(a: bv32, b: bv32)
    requires a ^ ONES == b ^ ONES
    ensures a == b
  {
  }

  lemma PendingInjective(register: bv32, x: Bits, y: Bits)
    requires |x| == |y| && Pending(register, x) == Pending(register, y)
    ensures x == y
  {
    var r, u, v := RegisterBits(register), Pending(register, x), Pending(register, y);
    forall i | 0 <= i < |x|
      ensures x[i] == y[i]
    {
      assert u[i] == (if i < 32 then x[i] != r[i] else x[i]);
      assert v[i] == (if i < 32 then y[i] != r[i] else y[i]);
    }
  }

  /** In particular, changing up to four consecutive octets changes the checksum. */
  lemma FourOctetsDetected(before: seq<Octet>, x: seq<Octet>, y: seq<Octet>, after: seq<Octet>)
    requires |x| == |y| <= 4 && x != y
    ensures Checksum(before + x + after) != Checksum(before + y + after)
  {
    var m, n := before + x + after, before + y + after;
    assert m[|before|..|before| + |x|] == x && n[|before|..|before| + |x|] == y;
    BitsInTheMiddle(before, x, after);
    BitsInTheMiddle(before, y, after);
    AgreeAround(BitsOf(before), BitsOf(x), BitsOf(y), BitsOf(after), 32);
    BurstDetected(m, n, 8 * |before|);
  }

  lemma BitsInTheMiddle(before: seq<Octet>, x: seq<Octet>, after: seq<Octet>)
    ensures BitsOf(before + x + after) == BitsOf(before) + BitsOf(x) + BitsOf(after)
  {
    BitsAppend(before, x);
    BitsAppend(before + x, after);
  }

  lemma AgreeAround(a: Bits, x: Bits, y: Bits, b: Bits, n: nat)
    requires |x| == |y| <= n
    ensures AgreeOutside(a + x + b, a + y + b, |a|, |a| + n)
  {
  }

  /** A receiver that divides the frame together with its trailer is left with all ones
      exactly when the trailer is the checksum of the frame. */
  lemma ReceiverAcceptsOnlyChecksum(frame: seq<Octet>, trailer: Bits)
    requires |frame| >= 4 && |trailer| == 32
    ensures Remainder(FirstComplemented(BitsOf(frame)) + trailer, Generator()) == Complement(Zeros(32))
       <==> trailer == RegisterBits(Checksum(frame))
  {
    ChecksumIsFrameCheckSequence(frame);
    ReceiverCheck(FirstComplemented(BitsOf(frame)), trailer, Generator());
  }
}
