// packages/minidb/src/crc32.ts: CRC-32 (IEEE 802.3, reflected), in the table form the
// source runs, against bit-by-bit polynomial division.
//
// Registers are combined through `Xor` and read through `LowByte` and `Word` so that the
// lemmas below reason about names; only the lemmas of the first section look at bits.
module Crc32 {
  import opened Bytes

  const ALL_ONES: bv32 := 0xffffffff

  function Xor(a: bv32, b: bv32): bv32 {
    a ^ b
  }

  /** A byte as the low eight bits of a register. */
  function Bits(b: byte): bv32 {
    (b as bv8) as bv32
  }

  /** The low eight bits of a register as a byte. */
  function LowByte(c: bv32): byte {
    ((c & 0xff) as bv8) as int
  }

  /** The register shifted up by one byte. */
  function Up(v: bv32): bv32 {
    v << 8
  }

  /** Four bytes as a register, least significant first (their bits do not meet). */
  function Word(b0: byte, b1: byte, b2: byte, b3: byte): bv32 {
    Xor(Bits(b0), Xor(Up(Bits(b1)), Xor(Up(Up(Bits(b2))), Up(Up(Up(Bits(b3)))))))
  }

  // ---- facts about bits ----------------------------------------------------

  lemma WidenInjective(a: bv8, b: bv8)
    requires a as bv32 == b as bv32
    ensures a == b
  {
  }

  lemma NarrowLow(b: byte)
    requires b < 128
    ensures (b as bv8) as int == b
  {
    if b < 32 {
      assert (b as bv8) as int == b;
    } else if b < 64 {
      assert (b as bv8) as int == b;
    } else if b < 96 {
      assert (b as bv8) as int == b;
    } else {
      assert (b as bv8) as int == b;
    }
  }

  lemma NarrowHigh(b: byte)
    requires 128 <= b
    ensures (b as bv8) as int == b
  {
    if b < 160 {
      assert (b as bv8) as int == b;
    } else if b < 192 {
      assert (b as bv8) as int == b;
    } else if b < 224 {
      assert (b as bv8) as int == b;
    } else {
      assert (b as bv8) as int == b;
    }
  }

  lemma BitsInjective(a: byte, b: byte)
    requires Bits(a) == Bits(b)
    ensures a == b
  {
    WidenInjective(a as bv8, b as bv8);
    NarrowExact(a);
    NarrowExact(b);
  }

  lemma NarrowExact(b: byte)
    ensures (b as bv8) as int == b
  {
    if b < 128 {
      NarrowLow(b);
    } else {
      NarrowHigh(b);
    }
  }

  lemma IntExact(x: bv8)
    ensures (x as int) as bv8 == x
  {
  }

  lemma MaskExact(c: bv32)
    ensures ((c & 0xff) as bv8) as bv32 == c & 0xff
  {
  }

  lemma LowByteExact(c: bv32)
    ensures Bits(LowByte(c)) == c & 0xff
  {
    IntExact((c & 0xff) as bv8);
    MaskExact(c);
  }

  lemma WidenIsLow(x: bv8)
    ensures (x as bv32) & 0xff == x as bv32
  {
  }

  /** A byte leaves the upper 24 bits of a register clear. */
  lemma BitsAreLow(b: byte)
    ensures Bits(b) & 0xff == Bits(b)
  {
    WidenIsLow(b as bv8);
  }

  lemma XorCancels(a: bv32, b: bv32)
    ensures Xor(Xor(a, b), b) == a
  {
  }

  lemma XorInjective(a: bv32, b: bv32, x: bv32)
    requires Xor(x, a) == Xor(x, b)
    ensures a == b
  {
  }

  lemma SplitAgainst(c: bv32, v: bv32)
    requires v & 0xff == v
    ensures var x := Xor(c, v);
            x == Xor(x & 0xff, x & 0xffffff00) && (x & 0xffffff00) >> 8 == c >> 8
  {
  }

  /** What a table lookup splits off: the low byte, and the rest shifted down. */
  lemma SplitLowByte(c: bv32, b: byte)
    ensures var x := Xor(c, Bits(b));
            x == Xor(x & 0xff, x & 0xffffff00) && (x & 0xffffff00) >> 8 == c >> 8
  {
    BitsAreLow(b);
    SplitAgainst(c, Bits(b));
  }

  // ---- the register, one bit at a time -------------------------------------

  /** One bit of polynomial division on the reflected register (POLY = 0xedb88320). */
  function BitStep(c: bv32): bv32 {
    if c & 1 == 1 then 0xedb88320 ^ (c >> 1) else c >> 1
  }

  function BitSteps(c: bv32, k: nat): bv32
    decreases k
  {
    if k == 0 then c else BitStep(BitSteps(c, k - 1))
  }

  /** What one zero byte does to the register. */
  function ByteStep(c: bv32): bv32 {
    BitSteps(c, 8)
  }

  lemma BothOdd(a: bv32, b: bv32)
    requires a & 1 == 1 && b & 1 == 1
    ensures (a ^ b) & 1 != 1
    ensures (a ^ b) >> 1 == (0xedb88320 ^ (a >> 1)) ^ (0xedb88320 ^ (b >> 1))
  {
  }

  lemma BothEven(a: bv32, b: bv32)
    requires a & 1 != 1 && b & 1 != 1
    ensures BitStep(Xor(a, b)) == Xor(BitStep(a), BitStep(b))
  {
  }

  lemma OddEven(a: bv32, b: bv32)
    requires a & 1 == 1 && b & 1 != 1
    ensures BitStep(Xor(a, b)) == Xor(BitStep(a), BitStep(b))
  {
  }

  lemma XorCommutes(a: bv32, b: bv32)
    ensures Xor(a, b) == Xor(b, a)
  {
  }

  lemma BitStepLinear(a: bv32, b: bv32)
    ensures BitStep(Xor(a, b)) == Xor(BitStep(a), BitStep(b))
  {
    if a & 1 == 1 {
      if b & 1 == 1 {
        BothOdd(a, b);
      } else {
        OddEven(a, b);
      }
    } else if b & 1 == 1 {
      OddEven(b, a);
      XorCommutes(a, b);
      XorCommutes(BitStep(a), BitStep(b));
    } else {
      BothEven(a, b);
    }
  }

  lemma BitStepInjective(a: bv32, b: bv32)
    requires BitStep(a) == BitStep(b)
    ensures a == b
  {
  }

  lemma {:induction false} BitStepsLinear(a: bv32, b: bv32, k: nat)
    ensures BitSteps(Xor(a, b), k) == Xor(BitSteps(a, k), BitSteps(b, k))
  {
    if k > 0 {
      BitStepsLinear(a, b, k - 1);
      BitStepLinear(BitSteps(a, k - 1), BitSteps(b, k - 1));
    }
  }

  lemma {:induction false} BitStepsInjective(a: bv32, b: bv32, k: nat)
    requires BitSteps(a, k) == BitSteps(b, k)
    ensures a == b
  {
    if k > 0 {
      BitStepInjective(BitSteps(a, k - 1), BitSteps(b, k - 1));
      BitStepsInjective(a, b, k - 1);
    }
  }

  lemma BitStepShifts(c: bv32)
    requires c & 0xff == 0
    ensures BitStep(c) == c >> 1 && BitStep(c >> 1) == c >> 2
    ensures BitStep(c >> 2) == c >> 3 && BitStep(c >> 3) == c >> 4
    ensures BitStep(c >> 4) == c >> 5 && BitStep(c >> 5) == c >> 6
    ensures BitStep(c >> 6) == c >> 7 && BitStep(c >> 7) == c >> 8
  {
  }

  /** With a clear low byte, eight bits of division only shift the register. */
  lemma ByteStepShifts(c: bv32)
    requires c & 0xff == 0
    ensures ByteStep(c) == c >> 8
  {
    BitStepShifts(c);
    assert BitSteps(c, 0) == c;
    BitStepsStep(c, 1);
    BitStepsStep(c, 2);
    BitStepsStep(c, 3);
    BitStepsStep(c, 4);
    BitStepsStep(c, 5);
    BitStepsStep(c, 6);
    BitStepsStep(c, 7);
    BitStepsStep(c, 8);
  }

  lemma BitStepsStep(c: bv32, k: nat)
    requires k > 0
    ensures BitSteps(c, k) == BitStep(BitSteps(c, k - 1))
  {
  }

  // ---- the register, one byte at a time ------------------------------------

  /** The register after the bytes of `bs`, each folded in bit by bit. */
  function Register(c: bv32, bs: bytes): bv32
    decreases |bs|
  {
    if bs == [] then c
    else ByteStep(Xor(Register(c, bs[..|bs| - 1]), Bits(bs[|bs| - 1])))
  }

  /** CRC-32 of `bs`, continuing from a previous CRC. */
  function Crc(bs: bytes, prev: bv32 := 0): bv32 {
    Xor(Register(Xor(prev, ALL_ONES), bs), ALL_ONES)
  }

  lemma {:induction false} RegisterConcat(c: bv32, a: bytes, b: bytes)
    ensures Register(c, a + b) == Register(Register(c, a), b)
    decreases |b|
  {
    if b == [] {
      assert a + b == a;
    } else {
      var b' := b[..|b| - 1];
      assert (a + b)[..|a + b| - 1] == a + b';
      RegisterConcat(c, a, b');
    }
  }

  /** Checksumming in slices gives the checksum of the whole. */
  lemma CrcStreams(a: bytes, b: bytes, prev: bv32)
    ensures Crc(a + b, prev) == Crc(b, Crc(a, prev))
  {
    RegisterConcat(Xor(prev, ALL_ONES), a, b);
    XorCancels(Register(Xor(prev, ALL_ONES), a), ALL_ONES);
  }

  lemma {:induction false} RegisterInjective(c: bv32, d: bv32, bs: bytes)
    requires Register(c, bs) == Register(d, bs)
    ensures c == d
    decreases |bs|
  {
    if bs != [] {
      var n, x := |bs| - 1, Bits(bs[|bs| - 1]);
      BitStepsInjective(Xor(Register(c, bs[..n]), x), Xor(Register(d, bs[..n]), x), 8);
      XorCancels(Register(c, bs[..n]), x);
      XorCancels(Register(d, bs[..n]), x);
      RegisterInjective(c, d, bs[..n]);
    }
  }

  // ---- four bytes at once, and burst damage --------------------------------

  function FourByteSteps(c: bv32): bv32 {
    ByteStep(ByteStep(ByteStep(ByteStep(c))))
  }

  lemma UpThenDown(v: bv32)
    requires v & 0xff000000 == 0
    ensures Up(v) & 0xff == 0 && Up(v) >> 8 == v
  {
  }

  /** A value folded in after a byte step is the same value, one byte up, folded in before. */
  lemma FoldEarlier(z: bv32, v: bv32)
    requires v & 0xff000000 == 0
    ensures Xor(ByteStep(z), v) == ByteStep(Xor(z, Up(v)))
  {
    UpThenDown(v);
    ByteStepShifts(Up(v));
    BitStepsLinear(z, Up(v), 8);
  }

  lemma RoomAboveLow(v: bv32)
    requires v & 0xff == v
    ensures v & 0xff000000 == 0 && Up(v) & 0xff000000 == 0 && Up(Up(v)) & 0xff000000 == 0
  {
  }

  lemma RoomAbove(b: byte)
    ensures Bits(b) & 0xff000000 == 0 && Up(Bits(b)) & 0xff000000 == 0 && Up(Up(Bits(b))) & 0xff000000 == 0
  {
    BitsAreLow(b);
    RoomAboveLow(Bits(b));
  }

  lemma XorAssociates(a: bv32, b: bv32, c: bv32)
    ensures Xor(Xor(a, b), c) == Xor(a, Xor(b, c))
  {
  }

  lemma XorWord(c: bv32, b0: byte, b1: byte, b2: byte, b3: byte)
    ensures Xor(Xor(Xor(Xor(c, Bits(b0)), Up(Bits(b1))), Up(Up(Bits(b2)))), Up(Up(Up(Bits(b3)))))
            == Xor(c, Word(b0, b1, b2, b3))
  {
    var x0, x1, x2, x3 := Bits(b0), Up(Bits(b1)), Up(Up(Bits(b2))), Up(Up(Up(Bits(b3))));
    XorAssociates(Xor(Xor(c, x0), x1), x2, x3);
    XorAssociates(Xor(c, x0), x1, Xor(x2, x3));
    XorAssociates(c, x0, Xor(x1, Xor(x2, x3)));
  }

  lemma RegisterSnoc(c: bv32, bs: bytes, b: byte)
    ensures Register(c, bs + [b]) == ByteStep(Xor(Register(c, bs), Bits(b)))
  {
    assert (bs + [b])[..|bs + [b]| - 1] == bs;
  }

  // ---- the published check value --------------------------------------------

  /** One byte of the check, its eight bits of division one by one. */
  lemma EightSteps(c0: bv32, c1: bv32, c2: bv32, c3: bv32, c4: bv32, c5: bv32, c6: bv32, c7: bv32, c8: bv32)
    requires BitStep(c0) == c1 && BitStep(c1) == c2 && BitStep(c2) == c3 && BitStep(c3) == c4
    requires BitStep(c4) == c5 && BitStep(c5) == c6 && BitStep(c6) == c7 && BitStep(c7) == c8
    ensures ByteStep(c0) == c8
  {
    hide BitStep;
    assert BitSteps(c0, 0) == c0;
    BitStepsStep(c0, 1);
    BitStepsStep(c0, 2);
    BitStepsStep(c0, 3);
    BitStepsStep(c0, 4);
    BitStepsStep(c0, 5);
    BitStepsStep(c0, 6);
    BitStepsStep(c0, 7);
    BitStepsStep(c0, 8);
  }

  lemma Check1()
    ensures ByteStep(Xor(0xffffffff, Bits(0x31))) == 0x7c231048
  {
    NarrowExact(0x31);
    assert Xor(0xffffffff, Bits(0x31)) == 0xffffffce;
    EightSteps(0xffffffce, 0x7fffffe7, 0xd2477cd3, 0x849b3d49, 0xaff51d84,
               0x57fa8ec2, 0x2bfd4761, 0xf8462090, 0x7c231048);
  }

  lemma Check2()
    ensures ByteStep(Xor(0x7c231048, Bits(0x32))) == 0xb0acbb32
  {
    NarrowExact(0x32);
    assert Xor(0x7c231048, Bits(0x32)) == 0x7c23107a;
    EightSteps(0x7c23107a, 0x3e11883d, 0xf2b0473e, 0x7958239f, 0xd11492ef,
               0x8532ca57, 0xaf21e60b, 0xba287025, 0xb0acbb32);
  }

  lemma Check3()
    ensures ByteStep(Xor(0xb0acbb32, Bits(0x33))) == 0x77b79c2d
  {
    NarrowExact(0x33);
    assert Xor(0xb0acbb32, Bits(0x33)) == 0xb0acbb01;
    EightSteps(0xb0acbb01, 0xb5eedea0, 0x5af76f50, 0x2d7bb7a8, 0x16bddbd4,
               0x0b5eedea, 0x05af76f5, 0xef6f385a, 0x77b79c2d);
  }

  lemma Check4()
    ensures ByteStep(Xor(0x77b79c2d, Bits(0x34))) == 0x641c1f5c
  {
    NarrowExact(0x34);
    assert Xor(0x77b79c2d, Bits(0x34)) == 0x77b79c19;
    EightSteps(0x77b79c19, 0xd6634d2c, 0x6b31a696, 0x3598d34b, 0xf774ea85,
               0x9602f662, 0x4b017b31, 0xc8383eb8, 0x641c1f5c);
  }

  lemma Check5()
    ensures ByteStep(Xor(0x641c1f5c, Bits(0x35))) == 0x340ac5e3
  {
    NarrowExact(0x35);
    assert Xor(0x641c1f5c, Bits(0x35)) == 0x641c1f69;
    EightSteps(0x641c1f69, 0xdfb68c94, 0x6fdb464a, 0x37eda325, 0xf64e52b2,
               0x7b272959, 0xd02b178c, 0x68158bc6, 0x340ac5e3);
  }

  lemma Check6()
    ensures ByteStep(Xor(0x340ac5e3, Bits(0x36))) == 0xf68d2c9e
  {
    NarrowExact(0x36);
    assert Xor(0x340ac5e3, Bits(0x36)) == 0x340ac5d5;
    EightSteps(0x340ac5d5, 0xf7bde1ca, 0x7bdef0e5, 0xd057fb52, 0x682bfda9,
               0xd9ad7df4, 0x6cd6befa, 0x366b5f7d, 0xf68d2c9e);
  }

  lemma Check7()
    ensures ByteStep(Xor(0xf68d2c9e, Bits(0x37))) == 0xaffc9660
  {
    NarrowExact(0x37);
    assert Xor(0xf68d2c9e, Bits(0x37)) == 0xf68d2ca9;
    EightSteps(0xf68d2ca9, 0x96fe1574, 0x4b7f0aba, 0x25bf855d, 0xff67418e,
               0x7fb3a0c7, 0xd2615343, 0x84882a81, 0xaffc9660);
  }

  lemma Check8()
    ensures ByteStep(Xor(0xaffc9660, Bits(0x38))) == 0x651f2550
  {
    NarrowExact(0x38);
    assert Xor(0xaffc9660, Bits(0x38)) == 0xaffc9658;
    EightSteps(0xaffc9658, 0x57fe4b2c, 0x2bff2596, 0x15ff92cb, 0xe7474a45,
               0x9e1b2602, 0x4f0d9301, 0xca3e4aa0, 0x651f2550);
  }

  lemma Check9()
    ensures ByteStep(Xor(0x651f2550, Bits(0x39))) == 0x340bc6d9
  {
    NarrowExact(0x39);
    assert Xor(0x651f2550, Bits(0x39)) == 0x651f2569;
    EightSteps(0x651f2569, 0xdf371194, 0x6f9b88ca, 0x37cdc465, 0xf65e6112,
               0x7b2f3089, 0xd02f1b64, 0x68178db2, 0x340bc6d9);
  }

  /** The input every description of a CRC gives its check value for: "123456789" in ASCII. */
  const CHECK_INPUT: bytes := [0x31, 0x32, 0x33, 0x34, 0x35, 0x36, 0x37, 0x38, 0x39]

  lemma CheckPrefix(n: nat, c: bv32)
    requires n < 9 && Register(ALL_ONES, CHECK_INPUT[..n]) == c
    ensures Register(ALL_ONES, CHECK_INPUT[..n + 1]) == ByteStep(Xor(c, Bits(CHECK_INPUT[n])))
  {
    RegisterSnoc(ALL_ONES, CHECK_INPUT[..n], CHECK_INPUT[n]);
    assert CHECK_INPUT[..n + 1] == CHECK_INPUT[..n] + [CHECK_INPUT[n]];
  }

  /** The checksum is CRC-32 of IEEE 802.3: it has the check value published for it. */
  lemma CheckValue()
    ensures Crc(CHECK_INPUT) == 0xcbf43926
  {
    hide ByteStep, Bits, Register, Xor;
    NoBytes();
    Check1();
    CheckPrefix(0, 0xffffffff);
    Check2();
    CheckPrefix(1, 0x7c231048);
    Check3();
    CheckPrefix(2, 0xb0acbb32);
    Check4();
    CheckPrefix(3, 0x77b79c2d);
    Check5();
    CheckPrefix(4, 0x641c1f5c);
    Check6();
    CheckPrefix(5, 0x340ac5e3);
    Check7();
    CheckPrefix(6, 0xf68d2c9e);
    Check8();
    CheckPrefix(7, 0xaffc9660);
    Check9();
    CheckPrefix(8, 0x651f2550);
    assert CHECK_INPUT[..9] == CHECK_INPUT;
    Ends();
  }

  lemma NoBytes()
    ensures Register(ALL_ONES, CHECK_INPUT[..0]) == ALL_ONES && Xor(0, ALL_ONES) == ALL_ONES
  {
  }

  lemma Ends()
    ensures Xor(0x340bc6d9, ALL_ONES) == 0xcbf43926
  {
  }

  /** Four bytes go in as one 32-bit word. */
  lemma RegisterWord(c: bv32, b0: byte, b1: byte, b2: byte, b3: byte)
    ensures Register(c, [b0, b1, b2, b3]) == FourByteSteps(Xor(c, Word(b0, b1, b2, b3)))
  {
    var x1 := FoldTwo(c, b0, b1);
    var x2 := FoldThree(c, b0, b1, b2, x1);
    RegisterSnoc(c, [b0, b1, b2], b3);
    assert [b0, b1, b2, b3] == [b0, b1, b2] + [b3];
    RoomAbove(b3);
    FoldEarlier(ByteStep(ByteStep(x2)), Bits(b3));
    FoldEarlier(ByteStep(x2), Up(Bits(b3)));
    FoldEarlier(x2, Up(Up(Bits(b3))));
    XorWord(c, b0, b1, b2, b3);
  }

  lemma FoldTwo(c: bv32, b0: byte, b1: byte) returns (x1: bv32)
    ensures x1 == Xor(Xor(c, Bits(b0)), Up(Bits(b1)))
    ensures Register(c, [b0, b1]) == ByteStep(ByteStep(x1))
  {
    x1 := Xor(Xor(c, Bits(b0)), Up(Bits(b1)));
    RegisterSnoc(c, [], b0);
    assert [b0] == [] + [b0] && [b0, b1] == [b0] + [b1];
    RegisterSnoc(c, [b0], b1);
    RoomAbove(b1);
    FoldEarlier(Xor(c, Bits(b0)), Bits(b1));
  }

  lemma FoldThree(c: bv32, b0: byte, b1: byte, b2: byte, x1: bv32) returns (x2: bv32)
    requires Register(c, [b0, b1]) == ByteStep(ByteStep(x1))
    ensures x2 == Xor(x1, Up(Up(Bits(b2))))
    ensures Register(c, [b0, b1, b2]) == ByteStep(ByteStep(ByteStep(x2)))
  {
    x2 := Xor(x1, Up(Up(Bits(b2))));
    assert [b0, b1, b2] == [b0, b1] + [b2];
    RegisterSnoc(c, [b0, b1], b2);
    RoomAbove(b2);
    FoldEarlier(ByteStep(x1), Bits(b2));
    FoldEarlier(x1, Up(Bits(b2)));
  }

  lemma FourByteStepsInjective(c: bv32, d: bv32)
    requires FourByteSteps(c) == FourByteSteps(d)
    ensures c == d
  {
    BitStepsInjective(ByteStep(ByteStep(ByteStep(c))), ByteStep(ByteStep(ByteStep(d))), 8);
    BitStepsInjective(ByteStep(ByteStep(c)), ByteStep(ByteStep(d)), 8);
    BitStepsInjective(ByteStep(c), ByteStep(d), 8);
    BitStepsInjective(c, d, 8);
  }

  ghost predicate RoomForByte(x: bv32) {
    x & 0xff000000 == 0
  }

  lemma SplitRegister(a: bv32, x: bv32, b: bv32, y: bv32)
    requires Xor(a, Up(x)) == Xor(b, Up(y))
    requires a & 0xff == a && b & 0xff == b && RoomForByte(x) && RoomForByte(y)
    ensures a == b && x == y
  {
  }

  /** A low byte and what lies above it can be told apart. */
  lemma SplitInjective(a: byte, x: bv32, b: byte, y: bv32)
    requires Xor(Bits(a), Up(x)) == Xor(Bits(b), Up(y))
    requires RoomForByte(x) && RoomForByte(y)
    ensures a == b && x == y
  {
    BitsAreLow(a);
    BitsAreLow(b);
    SplitRegister(Bits(a), x, Bits(b), y);
    BitsInjective(a, b);
  }

  lemma UpXor(a: bv32, b: bv32)
    ensures Up(Xor(a, b)) == Xor(Up(a), Up(b))
    ensures a & 0xff000000 == 0 && b & 0xff000000 == 0 ==> Xor(a, b) & 0xff000000 == 0
  {
  }

  function UpperThree(b1: byte, b2: byte, b3: byte): bv32 {
    Xor(Bits(b1), Up(UpperTwo(b2, b3)))
  }

  function UpperTwo(b2: byte, b3: byte): bv32 {
    Xor(Bits(b2), Up(Bits(b3)))
  }

  lemma WordNested(b0: byte, b1: byte, b2: byte, b3: byte)
    ensures Word(b0, b1, b2, b3) == Xor(Bits(b0), Up(UpperThree(b1, b2, b3)))
    ensures RoomForByte(UpperThree(b1, b2, b3)) && RoomForByte(UpperTwo(b2, b3)) && RoomForByte(Bits(b3))
  {
    RoomAbove(b1);
    RoomAbove(b2);
    RoomAbove(b3);
    UpXor(Bits(b2), Up(Bits(b3)));
    UpXor(Up(Bits(b2)), Up(Up(Bits(b3))));
    UpXor(Bits(b1), Up(UpperTwo(b2, b3)));
  }

  lemma WordInjective(a: bytes, b: bytes)
    requires |a| == |b| == 4
    requires Word(a[0], a[1], a[2], a[3]) == Word(b[0], b[1], b[2], b[3])
    ensures a == b
  {
    WordNested(a[0], a[1], a[2], a[3]);
    WordNested(b[0], b[1], b[2], b[3]);
    SplitInjective(a[0], UpperThree(a[1], a[2], a[3]), b[0], UpperThree(b[1], b[2], b[3]));
    SplitInjective(a[1], UpperTwo(a[2], a[3]), b[1], UpperTwo(b[2], b[3]));
    SplitInjective(a[2], Bits(a[3]), b[2], Bits(b[3]));
    BitsInjective(a[3], b[3]);
  }

  ghost predicate DifferWithin(a: bytes, b: bytes, i: nat, n: nat) {
    && |a| == |b|
    && a != b
    && forall j :: 0 <= j < |a| && (j < i || i + n <= j) ==> a[j] == b[j]
  }

  lemma DifferentWords(r: bv32, m: bytes, m': bytes)
    requires |m| == |m'| == 4 && m != m'
    ensures Register(r, m) != Register(r, m')
  {
    if Register(r, m) == Register(r, m') {
      assert m == [m[0], m[1], m[2], m[3]] && m' == [m'[0], m'[1], m'[2], m'[3]];
      var w, w' := Word(m[0], m[1], m[2], m[3]), Word(m'[0], m'[1], m'[2], m'[3]);
      RegisterWord(r, m[0], m[1], m[2], m[3]);
      RegisterWord(r, m'[0], m'[1], m'[2], m'[3]);
      FourByteStepsInjective(Xor(r, w), Xor(r, w'));
      XorInjective(w, w', r);
      WordInjective(m, m');
    }
  }

  lemma FourByteBurst(c: bv32, a: bytes, b: bytes, i: nat)
    requires DifferWithin(a, b, i, 4) && i + 4 <= |a|
    ensures Register(c, a) != Register(c, b)
  {
    var p, m, m', s := a[..i], a[i..i + 4], b[i..i + 4], a[i + 4..];
    assert a == (p + m) + s;
    assert b == (p + m') + s;
    RegisterConcat(c, p + m, s);
    RegisterConcat(c, p + m', s);
    RegisterConcat(c, p, m);
    RegisterConcat(c, p, m');
    DifferentWords(Register(c, p), m, m');
    if Register(c, a) == Register(c, b) {
      RegisterInjective(Register(c, p + m), Register(c, p + m'), s);
    }
  }

  /** Two inputs of one length that differ, but only within four consecutive bytes, leave
      different registers (any burst of up to 32 bits on byte boundaries is caught). */
  lemma BurstDetected(c: bv32, a: bytes, b: bytes, i: nat)
    requires DifferWithin(a, b, i, 4)
    ensures Register(c, a) != Register(c, b)
    ensures Crc(a, c) != Crc(b, c)
  {
    RegisterBurst(c, a, b, i);
    RegisterBurst(Xor(c, ALL_ONES), a, b, i);
    XorCancels(Register(Xor(c, ALL_ONES), a), ALL_ONES);
    XorCancels(Register(Xor(c, ALL_ONES), b), ALL_ONES);
  }

  lemma RegisterBurst(c: bv32, a: bytes, b: bytes, i: nat)
    requires DifferWithin(a, b, i, 4)
    ensures Register(c, a) != Register(c, b)
  {
    var pad: bytes := [0, 0, 0, 0];
    var a', b' := a + pad, b + pad;
    assert a == a'[..|a|] && b == b'[..|b|];
    RegisterConcat(c, a, pad);
    RegisterConcat(c, b, pad);
    var k :| 0 <= k < |a| && a[k] != b[k];
    FourByteBurst(c, a', b', i);
  }

  // ---- the stored checksum -------------------------------------------------

  /** The four little-endian bytes the checksum is written as. */
  function CrcBytes(c: bv32): (bs: bytes)
    ensures |bs| == 4
  {
    [LowByte(c), LowByte(c >> 8), LowByte(c >> 16), LowByte(c >> 24)]
  }

  /** The checksum four little-endian bytes are read as. */
  function ReadCrc(bs: bytes): bv32
    requires |bs| == 4
  {
    Word(bs[0], bs[1], bs[2], bs[3])
  }

  lemma WordWhole(c: bv32)
    ensures c == Xor(c & 0xff, Xor(Up((c >> 8) & 0xff), Xor(Up(Up((c >> 16) & 0xff)), Up(Up(Up((c >> 24) & 0xff))))))
  {
  }

  lemma CrcBytesRoundTrip(c: bv32)
    ensures ReadCrc(CrcBytes(c)) == c
  {
    LowByteExact(c);
    LowByteExact(c >> 8);
    LowByteExact(c >> 16);
    LowByteExact(c >> 24);
    WordWhole(c);
  }

  lemma ReadCrcInjective(a: bytes, b: bytes)
    requires |a| == |b| == 4 && ReadCrc(a) == ReadCrc(b)
    ensures a == b
  {
    WordInjective(a, b);
  }

  /** The register every message followed by its own checksum ends in. */
  function Residue(): bv32 {
    FourByteSteps(ALL_ONES)
  }

  /** A stored checksum is the right one exactly when the register, run on over the stored
      bytes, ends in the residue. */
  lemma ChecksumMatchesIff(m: bytes, t: bytes)
    requires |t| == 4
    ensures ReadCrc(t) == Crc(m) <==> Register(Xor(0, ALL_ONES), m + t) == Residue()
  {
    var r := Register(Xor(0, ALL_ONES), m);
    RegisterConcat(Xor(0, ALL_ONES), m, t);
    assert t == [t[0], t[1], t[2], t[3]];
    RegisterWord(r, t[0], t[1], t[2], t[3]);
    var w := ReadCrc(t);
    if w == Xor(r, ALL_ONES) {
      XorSelf(r);
    }
    if FourByteSteps(Xor(r, w)) == FourByteSteps(ALL_ONES) {
      FourByteStepsInjective(Xor(r, w), ALL_ONES);
      XorSelf(r);
      XorInjective(w, Xor(r, ALL_ONES), r);
    }
  }

  lemma XorSelf(r: bv32)
    ensures Xor(r, Xor(r, ALL_ONES)) == ALL_ONES
  {
  }

  // ---- the table the source runs -------------------------------------------

  /** Looking up the low byte and shifting the rest is eight bits of division. */
  lemma TableStepIsByteStep(c: bv32, b: byte)
    ensures Xor(ByteStep(Bits(LowByte(Xor(c, Bits(b))))), c >> 8) == ByteStep(Xor(c, Bits(b)))
  {
    var x := Xor(c, Bits(b));
    LowByteExact(x);
    SplitLowByte(c, b);
    BitStepsLinear(x & 0xff, x & 0xffffff00, 8);
    assert (x & 0xffffff00) & 0xff == 0;
    ByteStepShifts(x & 0xffffff00);
  }

  ghost predicate IsTable(t: seq<bv32>) {
    |t| == 256 && forall n: byte :: t[n] == ByteStep(Bits(n))
  }

  method TableEntry(n: byte) returns (c: bv32)
    ensures c == ByteStep(Bits(n))
  {
    c := Bits(n);
    for k := 0 to 8
      invariant c == BitSteps(Bits(n), k)
    {
      c := BitStep(c);
    }
  }

  method BuildTable() returns (t: array<bv32>)
    ensures fresh(t) && IsTable(t[..])
  {
    t := new bv32[256];
    for n: int := 0 to 256
      invariant forall m: byte :: m < n ==> t[m] == ByteStep(Bits(m))
    {
      t[n] := TableEntry(n);
    }
  }

  /** The module state: the table, built on the first call and kept. */
  class Checksummer {
    var table: array?<bv32>

    ghost predicate Valid()
      reads this, table
    {
      table != null ==> IsTable(table[..])
    }

    constructor ()
      ensures Valid()
    {
      table := null;
    }

    method Crc32(buf: bytes, prev: bv32 := 0) returns (crc: bv32)
      requires Valid()
      modifies this
      ensures Valid() && (table == old(table) || fresh(table))
      ensures crc == Crc(buf, prev)
    {
      if table == null {
        table := BuildTable();
      }
      var c := Xor(prev, 0xffffffff);
      for i := 0 to |buf|
        invariant c == Register(Xor(prev, ALL_ONES), buf[..i])
        invariant table != null && IsTable(table[..])
        invariant table == old(table) || fresh(table)
      {
        RegisterSnoc(Xor(prev, ALL_ONES), buf[..i], buf[i]);
        assert buf[..i + 1] == buf[..i] + [buf[i]];
        TableStepIsByteStep(c, buf[i]);
        var n := LowByte(Xor(c, Bits(buf[i])));
        assert table[..][n] == ByteStep(Bits(n));
        c := Xor(table[n], c >> 8);
      }
      assert buf[..|buf|] == buf;
      crc := Xor(c, 0xffffffff);
    }
  }
}
