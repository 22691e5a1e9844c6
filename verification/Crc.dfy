/** The three CRC-32 updates of util/crc.c: bit by bit, Sarwate's byte by byte,
    and slicing by eight. */
module Crc {

  type byte = bv8

  /** The polynomial of clause 3.2.9 of IEEE 802.3, in reverse bit order. */
  const CCITT_32_POLYNOMIAL: bv32 := 0xEDB88320

  /** One pass of the inner loop of the bitwise update. */
  function Bit(c: bv32): bv32 {
    if Odd(c) then Xor(CCITT_32_POLYNOMIAL, Half(c)) else Half(c)
  }

  predicate Odd(c: bv32) {
    c & 1 == 1
  }

  function Half(c: bv32): bv32 {
    c >> 1
  }

  function Xor(a: bv32, b: bv32): bv32 {
    a ^ b
  }

  function Wide(b: byte): bv32 {
    b as bv32
  }

  /** Shifts by a byte. */
  function Up8(a: bv32): bv32 {
    a << 8
  }

  function Down8(a: bv32): bv32 {
    a >> 8
  }

  function Not(a: bv32): bv32 {
    !a
  }

  /** The same without a branch. */
  lemma BitWithoutBranch(c: bv32)
    ensures ((c & 1) * CCITT_32_POLYNOMIAL) ^ (c >> 1) == Bit(c)
  {
    if c & 1 == 1 {
    } else {
      assert c & 1 == 0;
    }
  }

  function Bits(c: bv32, n: nat): bv32 {
    if n == 0 then c else Bit(Bits(c, n - 1))
  }

  /** Eight passes: what a zero byte does to the register. */
  function Shift8(c: bv32): bv32 {
    Bits(c, 8)
  }

  /** Eight passes for each of `n` bytes. */
  function Shift8s(c: bv32, n: nat): bv32 {
    if n == 0 then c else Shift8(Shift8s(c, n - 1))
  }

  /** The register after the bytes of a buffer: the definition of the CRC. */
  function Register(c: bv32, s: seq<byte>): bv32
    decreases |s|
  {
    if s == [] then c else Register(Shift8(Xor(c, Wide(s[0]))), s[1..])
  }

  /** What RedCrc32Update() is to return. */
  function Crc32(init: bv32, s: seq<byte>): bv32 {
    Not(Register(Not(init), s))
  }

  lemma XorRegroups(a: bv32, b: bv32, c: bv32)
    ensures Xor(a, Xor(b, c)) == Xor(Xor(a, b), c)
  {
  }

  lemma XorCommutes(a: bv32, b: bv32)
    ensures Xor(a, b) == Xor(b, a)
  {
  }

  lemma XorZero(a: bv32)
    ensures Xor(a, 0) == a
  {
  }

  lemma NotNot(a: bv32)
    ensures Not(Not(a)) == a
  {
  }

  lemma OddOfXor(a: bv32, b: bv32)
    ensures Odd(Xor(a, b)) <==> Odd(a) != Odd(b)
  {
    if Odd(a) && !Odd(b) {
      EvenIs(b);
    } else if Odd(b) && !Odd(a) {
      EvenIs(a);
    } else if !Odd(b) && !Odd(a) {
      EvenIs(a);
      EvenIs(b);
    }
  }

  lemma EvenIs(a: bv32)
    requires !Odd(a)
    ensures a & 1 == 0
  {
  }

  lemma HalfOfXor(a: bv32, b: bv32)
    ensures Half(Xor(a, b)) == Xor(Half(a), Half(b))
  {
  }

  lemma XorTwice(a: bv32, b: bv32, p: bv32)
    ensures Xor(Xor(p, a), Xor(p, b)) == Xor(a, b)
    ensures Xor(Xor(p, a), b) == Xor(p, Xor(a, b)) == Xor(a, Xor(p, b))
  {
    XorUndone(p, Xor(a, b));
    XorRegroups(p, a, b);
    XorRegroups(a, p, b);
    XorRegroups(Xor(p, a), p, b);
    XorRegroups(p, a, p);
    XorCommutes(a, p);
    XorRegroups(p, p, a);
    XorUndone(p, a);
    hide Xor;
  }

  lemma XorUndone(p: bv32, a: bv32)
    ensures Xor(p, Xor(p, a)) == a
  {
  }

  lemma BitIsLinear(a: bv32, b: bv32)
    ensures Bit(Xor(a, b)) == Xor(Bit(a), Bit(b))
  {
    OddOfXor(a, b);
    HalfOfXor(a, b);
    XorTwice(Half(a), Half(b), CCITT_32_POLYNOMIAL);
    hide Xor, Odd, Half;
  }

  lemma BitIsInjective(a: bv32, b: bv32)
    requires Bit(a) == Bit(b)
    ensures a == b
  {
  }

  lemma {:induction false} BitsAreLinear(a: bv32, b: bv32, n: nat)
    ensures Bits(Xor(a, b), n) == Xor(Bits(a, n), Bits(b, n))
  {
    hide Bit, Xor;
    if n > 0 {
      BitsAreLinear(a, b, n - 1);
      BitIsLinear(Bits(a, n - 1), Bits(b, n - 1));
    }
  }

  lemma {:induction false} BitsAreInjective(a: bv32, b: bv32, n: nat)
    requires Bits(a, n) == Bits(b, n)
    ensures a == b
  {
    if n > 0 {
      BitIsInjective(Bits(a, n - 1), Bits(b, n - 1));
      BitsAreInjective(a, b, n - 1);
    }
  }

  lemma {:induction false} Shift8sAreLinear(a: bv32, b: bv32, n: nat)
    ensures Shift8s(Xor(a, b), n) == Xor(Shift8s(a, n), Shift8s(b, n))
  {
    hide Bits, Xor;
    if n > 0 {
      Shift8sAreLinear(a, b, n - 1);
      BitsAreLinear(Shift8s(a, n - 1), Shift8s(b, n - 1), 8);
    }
  }

  lemma {:induction false} Shift8sAreInjective(a: bv32, b: bv32, n: nat)
    requires Shift8s(a, n) == Shift8s(b, n)
    ensures a == b
  {
    if n > 0 {
      BitsAreInjective(Shift8s(a, n - 1), Shift8s(b, n - 1), 8);
      Shift8sAreInjective(a, b, n - 1);
    }
  }

  lemma {:induction false} Shift8sInner(c: bv32, n: nat)
    ensures Shift8s(Shift8(c), n) == Shift8s(c, n + 1)
  {
    if n > 0 {
      Shift8sInner(c, n - 1);
    }
  }

  /** With zeros in the low byte, eight passes are a shift. */
  lemma ShiftsOut(v: bv32)
    requires v & 0xFF == 0
    ensures Shift8(v) == Down8(v)
  {
    assert Bits(v, 1) == v >> 1;
    assert Bits(v, 2) == v >> 2;
    assert Bits(v, 3) == v >> 3;
    assert Bits(v, 4) == v >> 4;
    assert Bits(v, 5) == v >> 5;
    assert Bits(v, 6) == v >> 6;
    assert Bits(v, 7) == v >> 7;
  }

  lemma ShiftsBack(v: bv32)
    requires v <= 0xFF_FFFF
    ensures Shift8(Up8(v)) == v
  {
    ShiftsOut(Up8(v));
  }

  /** The first column of the table. */
  function Table(i: bv32): bv32 {
    Shift8(i)
  }

  /** Sarwate's step for a zero byte. */
  function Sarwate(c: bv32): bv32 {
    Xor(Down8(c), Table(LowByte(c)))
  }

  function LowByte(c: bv32): bv32 {
    c & 0xFF
  }

  function HighBytes(c: bv32): bv32 {
    c & 0xFFFF_FF00
  }

  /** Column `k` of the table, derived from the one before and the first. */
  function Column(k: nat, i: bv32): bv32 {
    if k == 0 then Table(i) else Sarwate(Column(k - 1, i))
  }

  /** It does what eight passes do. */
  lemma SarwateStep(c: bv32)
    ensures Sarwate(c) == Shift8(c)
  {
    SplitLow(c);
    hide Bits, Xor, LowByte, HighBytes;
    BitsAreLinear(HighBytes(c), LowByte(c), 8);
    ShiftsOut(HighBytes(c));
  }

  lemma SplitLow(c: bv32)
    ensures c == Xor(HighBytes(c), LowByte(c))
    ensures HighBytes(c) & 0xFF == 0 && Down8(HighBytes(c)) == Down8(c)
  {
  }

  lemma {:induction false} ColumnIs(k: nat, i: bv32)
    ensures Column(k, i) == Shift8s(i, k + 1)
  {
    hide Bits, Sarwate;
    if k > 0 {
      ColumnIs(k - 1, i);
      SarwateStep(Column(k - 1, i));
    }
  }

  lemma {:induction false} RegisterOfBoth(c: bv32, a: seq<byte>, b: seq<byte>)
    ensures Register(c, a + b) == Register(Register(c, a), b)
    decreases |a|
  {
    if a == [] {
      assert a + b == b;
    } else {
      assert (a + b)[1..] == a[1..] + b;
      RegisterOfBoth(Shift8(Xor(c, Wide(a[0]))), a[1..], b);
    }
  }

  /** Updating over one buffer and then another is updating over both. */
  lemma UpdateComposes(init: bv32, a: seq<byte>, b: seq<byte>)
    ensures Crc32(Crc32(init, a), b) == Crc32(init, a + b)
  {
    hide Register, Not;
    RegisterOfBoth(Not(init), a, b);
    NotNot(Register(Not(init), a));
  }

  /** The bytes as a little-endian number. */
  function Little(s: seq<byte>): bv32 {
    if s == [] then 0 else Xor(Wide(s[0]), Up8(Little(s[1..])))
  }

  lemma LittleIsSmall(s: seq<byte>)
    requires |s| <= 3
    ensures Little(s) <= 0xFF_FFFF
    ensures |s| <= 2 ==> Little(s) <= 0xFFFF
    ensures |s| <= 1 ==> Little(s) <= 0xFF
  {
    if s != [] {
      LittleIsSmall(s[1..]);
    }
  }

  /** Up to four bytes enter the register together. */
  lemma {:induction false} FourAtOnce(c: bv32, s: seq<byte>)
    requires |s| <= 4
    ensures Register(c, s) == Shift8s(Xor(c, Little(s)), |s|)
    decreases |s|
  {
    hide Bits, Xor;
    if s != [] {
      var b, v := Wide(s[0]), Little(s[1..]);
      FourAtOnce(Shift8(Xor(c, b)), s[1..]);
      LittleIsSmall(s[1..]);
      ShiftsBack(v);
      BitsAreLinear(Xor(c, b), Up8(v), 8);
      XorRegroups(c, b, Up8(v));
      Shift8sInner(Xor(c, Little(s)), |s| - 1);
    } else {
      XorZero(c);
    }
  }

  /** Sarwate's step for a byte of the buffer. */
  function SarwateByte(c: bv32, b: byte): bv32 {
    Xor(Down8(c), Table(LowByte(Xor(c, Wide(b)))))
  }

  lemma ByteIsLow(c: bv32, b: byte)
    ensures Down8(Xor(c, Wide(b))) == Down8(c)
  {
  }

  lemma SarwateByteIs(c: bv32, b: byte)
    ensures SarwateByte(c, b) == Shift8(Xor(c, Wide(b)))
  {
    ByteIsLow(c, b);
    hide Xor, Bits, LowByte;
    SarwateStep(Xor(c, Wide(b)));
  }

  /** A register is its low byte and the rest of it shifted up. */
  lemma SplitRest(v: bv32)
    ensures v == Xor(LowByte(v), Up8(Down8(v))) && Down8(v) <= 0xFF_FFFF
  {
  }

  lemma Peel(v: bv32, n: nat)
    requires n > 0
    ensures Shift8s(v, n) == Xor(Shift8s(LowByte(v), n), Shift8s(Down8(v), n - 1))
  {
    SplitRest(v);
    PeelSum(LowByte(v), Down8(v), n);
  }

  lemma PeelSum(low: bv32, rest: bv32, n: nat)
    requires n > 0 && rest <= 0xFF_FFFF
    ensures Shift8s(Xor(low, Up8(rest)), n) == Xor(Shift8s(low, n), Shift8s(rest, n - 1))
  {
    ShiftsBack(rest);
    hide Xor, Bits, Up8;
    Shift8sAreLinear(low, Up8(rest), n);
    Shift8sInner(Up8(rest), n - 1);
  }

  lemma PeelBytes(s: seq<byte>, n: nat)
    requires 0 < |s| <= 4 && n > 0
    ensures Shift8s(Little(s), n) == Xor(Shift8s(Wide(s[0]), n), Shift8s(Little(s[1..]), n - 1))
  {
    LittleIsSmall(s[1..]);
    PeelSum(Wide(s[0]), Little(s[1..]), n);
  }

  /** Byte `k` of a register. */
  function ByteAt(v: bv32, k: nat): bv32
    requires k < 4
  {
    if k == 0 then LowByte(v) else if k == 1 then LowByte(v >> 8) else if k == 2 then LowByte(v >> 16) else LowByte(v >> 24)
  }

  lemma BytesAre(v: bv32)
    ensures ByteAt(v, 1) == LowByte(Down8(v)) && ByteAt(v, 2) == LowByte(Down8(Down8(v)))
    ensures ByteAt(v, 3) == Down8(Down8(Down8(v)))
  {
  }

  /** The eight table look-ups of a slice, combined as in the source. */
  function Slice(c: bv32, s: seq<byte>): bv32
    requires |s| == 8
  {
    var x := Xor(c, Little(s[..4]));
    Xor(Xor(Xor(Xor(Xor(Xor(Xor(
      Column(4, ByteAt(x, 3)),
      Column(5, ByteAt(x, 2))),
      Column(6, ByteAt(x, 1))),
      Column(7, ByteAt(x, 0))),
      Column(0, Wide(s[7]))),
      Column(1, Wide(s[6]))),
      Column(2, Wide(s[5]))),
      Column(3, Wide(s[4])))
  }

  /** What the first four bytes, mixed with the register, contribute. */
  lemma RegisterPart(x: bv32)
    ensures Shift8s(x, 8) == Xor(Xor(Xor(Column(4, ByteAt(x, 3)), Column(5, ByteAt(x, 2))), Column(6, ByteAt(x, 1))), Column(7, ByteAt(x, 0)))
  {
    hide Xor, Bits, LowByte, Down8, Column, Shift8s;
    BytesAre(x);
    Peel(x, 8);
    Peel(Down8(x), 7);
    Peel(Down8(Down8(x)), 6);
    var b0, b1, b2, b3 := ByteAt(x, 0), ByteAt(x, 1), ByteAt(x, 2), ByteAt(x, 3);
    ColumnIs(7, b0);
    ColumnIs(6, b1);
    ColumnIs(5, b2);
    ColumnIs(4, b3);
    Reverse4(Column(7, b0), Column(6, b1), Column(5, b2), Column(4, b3));
  }

  /** What the other four bytes contribute. */
  lemma DataPart(s: seq<byte>)
    requires |s| == 4
    ensures Shift8s(Little(s), 4) ==
              Xor(Xor(Xor(Column(0, Wide(s[3])), Column(1, Wide(s[2]))), Column(2, Wide(s[1]))), Column(3, Wide(s[0])))
  {
    hide Xor, Bits, Column, Shift8s, Little;
    LittleOfOne(s[3..]);
    Tails(s);
    PeelBytes(s, 4);
    PeelBytes(s[1..], 3);
    PeelBytes(s[2..], 2);
    ColumnIs(3, Wide(s[0]));
    ColumnIs(2, Wide(s[1]));
    ColumnIs(1, Wide(s[2]));
    ColumnIs(0, Wide(s[3]));
    Reverse4(Column(3, Wide(s[0])), Column(2, Wide(s[1])), Column(1, Wide(s[2])), Column(0, Wide(s[3])));
  }

  lemma Tails(s: seq<byte>)
    requires |s| == 4
    ensures s[1..][1..] == s[2..] && s[2..][1..] == s[3..]
    ensures s[1..][0] == s[1] && s[2..][0] == s[2] && s[3..][0] == s[3]
  {
  }

  lemma LittleOfOne(s: seq<byte>)
    requires |s| == 1
    ensures Little(s) == Wide(s[0])
  {
    assert Little(s[1..]) == 0;
    XorZero(Wide(s[0]));
  }

  lemma Reverse4(a: bv32, b: bv32, c: bv32, d: bv32)
    ensures Xor(a, Xor(b, Xor(c, d))) == Xor(Xor(Xor(d, c), b), a)
  {
    hide Xor;
    XorCommutes(c, d);
    XorCommutes(b, Xor(c, d));
    XorCommutes(a, Xor(b, Xor(c, d)));
  }

  lemma Append4(x: bv32, a: bv32, b: bv32, c: bv32, d: bv32)
    ensures Xor(x, Xor(Xor(Xor(a, b), c), d)) == Xor(Xor(Xor(Xor(x, a), b), c), d)
  {
    hide Xor;
    XorRegroups(x, Xor(Xor(a, b), c), d);
    XorRegroups(x, Xor(a, b), c);
    XorRegroups(x, a, b);
  }

  /** A slice does to the register what its eight bytes do one by one. */
  lemma SliceIsEightBytes(c: bv32, s: seq<byte>)
    requires |s| == 8
    ensures Slice(c, s) == Register(c, s)
  {
    hide Register, Xor, Bits, Column, Little, Shift8s;
    var first, second := s[..4], s[4..];
    assert s == first + second;
    var x := Xor(c, Little(first));
    RegisterOfBoth(c, first, second);
    FourAtOnce(c, first);
    FourAtOnce(Shift8s(x, 4), second);
    Shift8sAreLinear(Shift8s(x, 4), Little(second), 4);
    Shift8sTwice(x, 4, 4);
    RegisterPart(x);
    DataPart(second);
    SliceParts(c, s);
  }

  lemma SliceParts(c: bv32, s: seq<byte>)
    requires |s| == 8
    ensures var x := Xor(c, Little(s[..4]));
            Slice(c, s) == Xor(
              Xor(Xor(Xor(Column(4, ByteAt(x, 3)), Column(5, ByteAt(x, 2))), Column(6, ByteAt(x, 1))), Column(7, ByteAt(x, 0))),
              Xor(Xor(Xor(Column(0, Wide(s[7])), Column(1, Wide(s[6]))), Column(2, Wide(s[5]))), Column(3, Wide(s[4]))))
  {
    hide Xor, Column, Little, ByteAt;
    var x := Xor(c, Little(s[..4]));
    Append4(
      Xor(Xor(Xor(Column(4, ByteAt(x, 3)), Column(5, ByteAt(x, 2))), Column(6, ByteAt(x, 1))), Column(7, ByteAt(x, 0))),
      Column(0, Wide(s[7])), Column(1, Wide(s[6])), Column(2, Wide(s[5])), Column(3, Wide(s[4])));
  }

  lemma {:induction false} Shift8sTwice(x: bv32, m: nat, n: nat)
    ensures Shift8s(Shift8s(x, m), n) == Shift8s(x, m + n)
  {
    if n > 0 {
      Shift8sTwice(x, m, n - 1);
    }
  }

  lemma RegisterIsInjective(c: bv32, d: bv32, s: seq<byte>)
    requires Register(c, s) == Register(d, s)
    ensures c == d
    decreases |s|
  {
    hide Bits, Xor;
    if s != [] {
      var e, f := Xor(c, Wide(s[0])), Xor(d, Wide(s[0]));
      RegisterIsInjective(Shift8(e), Shift8(f), s[1..]);
      BitsAreInjective(e, f, 8);
      XorCancels(c, d, Wide(s[0]));
    }
  }

  lemma XorCancels(a: bv32, b: bv32, c: bv32)
    requires Xor(a, c) == Xor(b, c)
    ensures a == b
  {
  }

  lemma SumSplits(b: byte, rest: bv32)
    requires rest <= 0xFF_FFFF
    ensures LowByte(Xor(Wide(b), Up8(rest))) == Wide(b) && Down8(Xor(Wide(b), Up8(rest))) == rest
  {
  }

  lemma WideIsInjective(a: byte, b: byte)
    requires Wide(a) == Wide(b)
    ensures a == b
  {
  }

  /** No two runs of up to four bytes make the same number. */
  lemma {:induction false} LittleIsInjective(s: seq<byte>, t: seq<byte>)
    requires |s| == |t| <= 4 && Little(s) == Little(t)
    ensures s == t
    decreases |s|
  {
    if s != [] {
      LittleIsSmall(s[1..]);
      LittleIsSmall(t[1..]);
      hide Xor, Up8, Down8, LowByte, Wide;
      SumSplits(s[0], Little(s[1..]));
      SumSplits(t[0], Little(t[1..]));
      WideIsInjective(s[0], t[0]);
      LittleIsInjective(s[1..], t[1..]);
      assert s == [s[0]] + s[1..] && t == [t[0]] + t[1..];
    }
  }

  /** What is written as eight passes. */
  lemma ByteSteps(c: bv32)
    ensures Shift8(c) == Bit(Bit(Bit(Bit(Bit(Bit(Bit(Bit(c))))))))
  {
    hide Bit;
    assert Bits(c, 1) == Bit(c);
    assert Bits(c, 2) == Bit(Bits(c, 1));
    assert Bits(c, 3) == Bit(Bits(c, 2));
    assert Bits(c, 4) == Bit(Bits(c, 3));
    assert Bits(c, 5) == Bit(Bits(c, 4));
    assert Bits(c, 6) == Bit(Bits(c, 5));
    assert Bits(c, 7) == Bit(Bits(c, 6));
  }

  /** What four zero bytes make of a register full of ones. */
  lemma OnesShifted()
    ensures Shift8s(0xFFFF_FFFF, 4) == 0xDEBB_20E3
  {
    ByteSteps(0xFFFF_FFFF);
    ByteSteps(0x2DFD_1072);
    ByteSteps(0xBE26_ED00);
    ByteSteps(0x00BE_26ED);
    var one, two, three := Shift8(0xFFFF_FFFF), Shift8(0x2DFD_1072), Shift8(0xBE26_ED00);
    hide Shift8;
    assert Shift8s(0xFFFF_FFFF, 0) == 0xFFFF_FFFF;
    assert Shift8s(0xFFFF_FFFF, 1) == one && Shift8s(0xFFFF_FFFF, 2) == two && Shift8s(0xFFFF_FFFF, 3) == three;
  }

  /** Whatever the buffer, its CRC appended to it, low byte first, gives one and
      the same CRC: the residue of CRC-32. */
  lemma ResidueIs(init: bv32, s: seq<byte>, crc: seq<byte>)
    requires |crc| == 4 && Little(crc) == Crc32(init, s)
    ensures Crc32(init, s + crc) == 0x2144_DF1C
  {
    hide Register, Xor, Bits, Little, Not, Shift8s;
    var c := Register(Not(init), s);
    RegisterOfBoth(Not(init), s, crc);
    FourAtOnce(c, crc);
    OnesIs(c);
    OnesShifted();
    NotOf();
  }

  lemma OnesIs(c: bv32)
    ensures Xor(c, Not(c)) == 0xFFFF_FFFF
  {
  }

  lemma NotOf()
    ensures Not(0xDEBB_20E3) == 0x2144_DF1C
  {
  }

  /** The CRC of nothing is the one it started from. */
  lemma NothingKeepsCrc(init: bv32)
    ensures Crc32(init, []) == init
  {
    NotNot(init);
  }

  /** A change confined to at most four consecutive bytes changes the CRC. */
  lemma BurstChangesCrc(init: bv32, before: seq<byte>, s: seq<byte>, t: seq<byte>, after: seq<byte>)
    requires |s| == |t| <= 4 && s != t
    ensures Crc32(init, before + s + after) != Crc32(init, before + t + after)
  {
    hide Register, Xor, Bits, Little, Not, Shift8s;
    if Crc32(init, before + s + after) == Crc32(init, before + t + after) {
      NotNot(Register(Not(init), before + s + after));
      NotNot(Register(Not(init), before + t + after));
      var c := Register(Not(init), before);
      RegisterOfThree(Not(init), before, s, after);
      RegisterOfThree(Not(init), before, t, after);
      RegisterIsInjective(Register(c, s), Register(c, t), after);
      FourAtOnce(c, s);
      FourAtOnce(c, t);
      Shift8sAreInjective(Xor(c, Little(s)), Xor(c, Little(t)), |s|);
      XorCommutes(c, Little(s));
      XorCommutes(c, Little(t));
      XorCancels(Little(s), Little(t), c);
      LittleIsInjective(s, t);
    }
  }

  lemma RegisterOfThree(c: bv32, a: seq<byte>, b: seq<byte>, d: seq<byte>)
    ensures Register(c, a + b + d) == Register(Register(Register(c, a), b), d)
  {
    RegisterOfBoth(c, a + b, d);
    RegisterOfBoth(c, a, b);
  }

  /** The bitwise update. */
  method Crc32Bitwise(init: bv32, buffer: seq<byte>) returns (crc: bv32)
    ensures crc == Crc32(init, buffer)
  {
    hide Xor, Not, Bit;
    crc := Not(init);
    var i := 0;
    while i < |buffer|
      invariant i <= |buffer| && Register(crc, buffer[i..]) == Register(Not(init), buffer)
    {
      assert buffer[i..][1..] == buffer[i + 1..];
      crc := Xor(crc, Wide(buffer[i]));
      ghost var mixed := crc;
      var bit := 0;
      while bit < 8
        invariant bit <= 8 && crc == Bits(mixed, bit)
      {
        BitWithoutBranch(crc);
        crc := ((crc & 1) * CCITT_32_POLYNOMIAL) ^ (crc >> 1);
        bit := bit + 1;
      }
      i := i + 1;
    }
    crc := Not(crc);
  }

  lemma NextByte(crc: bv32, buffer: seq<byte>, i: nat)
    requires i < |buffer|
    ensures Register(crc, buffer[i..]) == Register(SarwateByte(crc, buffer[i]), buffer[i + 1..])
  {
    assert buffer[i..][1..] == buffer[i + 1..];
    SarwateByteIs(crc, buffer[i]);
  }

  lemma NextSlice(crc: bv32, buffer: seq<byte>, i: nat)
    requires i + 8 <= |buffer|
    ensures Register(crc, buffer[i..]) == Register(Slice(crc, buffer[i..i + 8]), buffer[i + 8..])
  {
    hide Register, Slice;
    SliceIsEightBytes(crc, buffer[i..i + 8]);
    RegisterOfBoth(crc, buffer[i..i + 8], buffer[i + 8..]);
    assert buffer[i..] == buffer[i..i + 8] + buffer[i + 8..];
  }

  lemma NothingLeft(crc: bv32, buffer: seq<byte>)
    ensures Register(crc, buffer[|buffer|..]) == crc
  {
  }

  /** The update by Sarwate's algorithm. */
  method Crc32Sarwate(init: bv32, buffer: seq<byte>) returns (crc: bv32)
    ensures crc == Crc32(init, buffer)
  {
    hide Not, SarwateByte;
    crc := Not(init);
    var i := 0;
    while i < |buffer|
      invariant i <= |buffer| && Register(crc, buffer[i..]) == Register(Not(init), buffer)
    {
      NextByte(crc, buffer, i);
      crc := SarwateByte(crc, buffer[i]);
      i := i + 1;
    }
    crc := Not(crc);
  }

  type Alignment = n: nat | 1 <= n witness 1
  /** REDCONF_ALIGNMENT_SIZE. */
  const ALIGNMENT_SIZE: Alignment

  /** The update by slices of eight bytes, for a buffer at any address. */
  method Crc32SliceBy8(init: bv32, buffer: seq<byte>, address: nat) returns (crc: bv32)
    ensures crc == Crc32(init, buffer)
  {
    hide Not, SarwateByte, Slice, Register;
    ghost var register := Register(Not(init), buffer);
    assert buffer[0..] == buffer;
    crc := Not(init);
    var i := 0;
    while i < |buffer| && (address + i) % ALIGNMENT_SIZE != 0
      invariant i <= |buffer| && Register(crc, buffer[i..]) == register
    {
      NextByte(crc, buffer, i);
      crc := SarwateByte(crc, buffer[i]);
      i := i + 1;
    }
    var sliceLen := (|buffer| - i) / 8 * 8 + i;
    while i < sliceLen
      invariant i <= sliceLen <= |buffer| && (sliceLen - i) % 8 == 0
      invariant Register(crc, buffer[i..]) == register
    {
      NextSlice(crc, buffer, i);
      crc := Slice(crc, buffer[i..i + 8]);
      i := i + 8;
    }
    while i < |buffer|
      invariant i <= |buffer| && Register(crc, buffer[i..]) == register
    {
      NextByte(crc, buffer, i);
      crc := SarwateByte(crc, buffer[i]);
      i := i + 1;
    }
    NothingLeft(crc, buffer);
    crc := Not(crc);
  }
}
