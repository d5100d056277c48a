/**
 * CRC-24Q, the checksum of the RTCM 10403.x transport layer: an MSB-first CRC
 * with generator polynomial 0x1864CFB, initial register 0, no reflection and no
 * final XOR, computed in a 32-bit register.
 *
 * `Crc24q` is the imperative routine (a register updated byte by byte, with eight
 * shift/reduce rounds per byte); `Register` and `Checksum` are its specification.
 * The lemmas establish the properties the frame scanner relies on: the register
 * never leaves 24 bits (so the left shift of the 32-bit register loses nothing and
 * the final mask drops nothing), and appending a message's own CRC big-endian
 * makes the CRC of the whole zero. Conversely, corrupting any one octet of a
 * sequence whose CRC is zero, and so flipping any single bit of it, makes the
 * CRC nonzero.
 *
 * The bit-level facts are kept in small lemmas of one or two clauses each, and a
 * left shift by one is related to `x + x` before it is combined with anything
 * else: the solver decides each such fact at once but not several together.
 */
module Crc24 {

  /** The generator polynomial, with its x^24 term at bit 24. */
  const POLY: bv32 := 0x186_4CFB

  /** Bit 24 of the register; every value below it fits in 24 bits. */
  const TOP: bv32 := 0x100_0000

  /** Reduction of a shifted register: XOR the polynomial in when bit 24 is set. */
  function Reduce(shifted: bv32): bv32 {
    if shifted & TOP != 0 then shifted ^ POLY else shifted
  }

  /** One round: shift the 32-bit register left by one, then reduce. */
  function ShiftRound(reg: bv32): bv32 {
    Reduce(reg << 1)
  }

  /** `n` rounds applied to `reg`. */
  function Rounds(reg: bv32, n: nat): bv32 {
    if n == 0 then reg else ShiftRound(Rounds(reg, n - 1))
  }

  /** The octet XORed into bits 16..23 of the register. */
  function Inject(reg: bv32, octet: bv8): bv32 {
    reg ^ ((octet as bv32) << 16)
  }

  /** Rounds per octet: one per bit. */
  const BITS_PER_OCTET: nat := 8

  /** Processing one octet: inject it, then one round per bit. */
  function ByteStep(reg: bv32, octet: bv8): bv32 {
    Rounds(Inject(reg, octet), BITS_PER_OCTET)
  }

  /** The register after processing all of `data`, starting from 0. */
  function Register(data: seq<bv8>): (r: bv32)
    ensures r < TOP
  {
    if data == [] then 0
    else
      var prev := Register(data[..|data| - 1]);
      InjectStaysIn24Bits(prev, data[|data| - 1]);
      RoundsStayIn24Bits(Inject(prev, data[|data| - 1]), BITS_PER_OCTET);
      ByteStep(prev, data[|data| - 1])
  }

  /** The value the routine returns: the low 24 bits of the register. */
  function Checksum(data: seq<bv8>): (r: bv32)
    ensures r == Register(data)
    ensures r < TOP
  {
    Register(data) & 0xFF_FFFF
  }

  /** The routine as the source writes it: a register updated in place, octet by octet. */
  method Crc24q(data: seq<bv8>) returns (crc: bv32)
    ensures crc == Checksum(data)
    ensures crc < TOP
  {
    crc := 0;
    for i := 0 to |data|
      invariant crc == Register(data[..i])
    {
      crc := crc ^ ((data[i] as bv32) << 16);
      ghost var start := crc;
      InjectStaysIn24Bits(Register(data[..i]), data[i]);
      for k := 0 to BITS_PER_OCTET
        invariant crc == Rounds(start, k)
        invariant crc < TOP
      {
        RoundsUnfold(start, k);
        crc := ShiftAndReduce(crc);
      }
      RegisterSnoc(data[..i], data[i]);
      assert data[..i + 1] == data[..i] + [data[i]];
    }
    assert data[..|data|] == data;
    crc := crc & 0xFF_FFFF;
  }

  /** The body of the inner loop: `crc <<= 1`, then XOR the polynomial in if bit 24 is set. */
  method ShiftAndReduce(crc: bv32) returns (next: bv32)
    ensures next == ShiftRound(crc)
    ensures crc < TOP ==> next < TOP
  {
    if crc < TOP {
      ShiftRoundStaysIn24Bits(crc);
    }
    next := crc << 1;
    if next & TOP != 0 {
      next := next ^ POLY;
    }
  }

  lemma RoundsUnfold(reg: bv32, n: nat)
    ensures Rounds(reg, n + 1) == ShiftRound(Rounds(reg, n))
  {
  }

  lemma RegisterSnoc(data: seq<bv8>, octet: bv8)
    ensures Register(data + [octet]) == ByteStep(Register(data), octet)
  {
    assert (data + [octet])[..|data|] == data;
  }

  /** The CRC of the empty input is 0. */
  lemma ChecksumOfEmpty()
    ensures Checksum([]) == 0
  {
  }

  // ---------------------------------------------------------------------------
  // The register stays within 24 bits.

  lemma ShiftIsDouble(x: bv32)
    ensures x << 1 == x + x
  {
  }

  lemma DoubleBelow25Bits(reg: bv32)
    requires reg < TOP
    ensures reg + reg < 0x200_0000
  {
  }

  lemma DoubleHalves(reg: bv32)
    requires reg < TOP
    ensures (reg + reg) >> 1 == reg
  {
  }

  lemma ReduceBelow(shifted: bv32)
    requires shifted < 0x200_0000
    ensures Reduce(shifted) < TOP
  {
  }

  /**
   * A round maps a 24-bit register to a 24-bit register, and its left shift
   * loses no bit of the 32-bit register: the shifted value stays below 2^25 and
   * shifting it back gives the register again.
   */
  lemma ShiftRoundStaysIn24Bits(reg: bv32)
    requires reg < TOP
    ensures reg << 1 < 0x200_0000 && (reg << 1) >> 1 == reg
    ensures ShiftRound(reg) < TOP
  {
    ShiftIsDouble(reg);
    DoubleBelow25Bits(reg);
    DoubleHalves(reg);
    ReduceBelow(reg + reg);
  }

  lemma {:induction false} RoundsStayIn24Bits(reg: bv32, n: nat)
    requires reg < TOP
    ensures Rounds(reg, n) < TOP
  {
    if n > 0 {
      RoundsStayIn24Bits(reg, n - 1);
      ShiftRoundStaysIn24Bits(Rounds(reg, n - 1));
    }
  }

  lemma InjectStaysIn24Bits(reg: bv32, octet: bv8)
    requires reg < TOP
    ensures Inject(reg, octet) < TOP
  {
  }

  // ---------------------------------------------------------------------------
  // Residue: appending the CRC makes the CRC zero.

  /** The three big-endian bytes of a 24-bit CRC value, as they trail a frame. */
  function CrcBytes(crc: bv32): (r: seq<bv8>)
    ensures |r| == 3
  {
    [((crc >> 16) & 0xFF) as bv8, ((crc >> 8) & 0xFF) as bv8, (crc & 0xFF) as bv8]
  }

  lemma ReduceIdle(shifted: bv32)
    requires shifted < TOP
    ensures Reduce(shifted) == shifted
  {
  }

  lemma SmallDoubleBelow24Bits(reg: bv32)
    requires reg < 0x80_0000
    ensures reg + reg < TOP
  {
  }

  /** Below bit 23 a round is a plain doubling: the polynomial is never XORed in. */
  lemma PlainRound(reg: bv32)
    requires reg < 0x80_0000
    ensures ShiftRound(reg) == reg + reg
  {
    ShiftIsDouble(reg);
    SmallDoubleBelow24Bits(reg);
    ReduceIdle(reg + reg);
  }

  lemma PlainRoundsStep(reg: bv32, k: nat, v: bv32)
    requires Rounds(reg, k) == v && v < 0x80_0000
    ensures Rounds(reg, k + 1) == v + v
  {
    RoundsUnfold(reg, k);
    PlainRound(v);
  }

  lemma DoubleStaysSmall(v: bv32)
    requires v < 0x40_0000
    ensures v + v < 0x80_0000
  {
  }

  lemma TwoPlainRounds(reg: bv32, k: nat, v: bv32)
    requires Rounds(reg, k) == v && v < 0x40_0000
    ensures Rounds(reg, k + 2) == (v + v) + (v + v)
  {
    DoubleStaysSmall(v);
    PlainRoundsStep(reg, k, v);
    PlainRoundsStep(reg, k + 1, v + v);
  }

  /** Doubling a 16-bit value twice, four times over, stays below bit 22 and is a shift by 8. */
  lemma QuadruplingsOf16Bits(reg: bv32)
    requires reg < 0x1_0000
    ensures var q1 := (reg + reg) + (reg + reg); var q2 := (q1 + q1) + (q1 + q1);
            var q3 := (q2 + q2) + (q2 + q2);
            q1 < 0x4_0000 && q2 < 0x10_0000 && q3 < 0x40_0000 && (q3 + q3) + (q3 + q3) == reg << 8
  {
  }

  /** With bit 23 and above clear throughout, eight rounds are a plain shift by 8. */
  lemma EightPlainShifts(reg: bv32)
    requires reg < 0x1_0000
    ensures Rounds(reg, BITS_PER_OCTET) == reg << 8
  {
    PlainShiftsFrom(reg, 0);
  }

  /**
   * `EightPlainShifts`, with the rounds counted from `start`. A literal 0
   * would let the solver unfold all eight rounds at once, so the first round's
   * number is a variable that only the precondition fixes.
   */
  lemma PlainShiftsFrom(reg: bv32, start: nat)
    requires reg < 0x1_0000 && start == 0  // symbolic, so that Rounds is unfolded one step at a time
    ensures Rounds(reg, start + 8) == reg << 8
  {
    QuadruplingsOf16Bits(reg);
    var q1 := (reg + reg) + (reg + reg);
    var q2 := (q1 + q1) + (q1 + q1);
    var q3 := (q2 + q2) + (q2 + q2);
    TwoPlainRounds(reg, start, reg);
    TwoPlainRounds(reg, start + 2, q1);
    TwoPlainRounds(reg, start + 4, q2);
    TwoPlainRounds(reg, start + 6, q3);
  }

  lemma TopByteCleared(reg: bv32)
    requires reg < TOP
    ensures Inject(reg, ((reg >> 16) & 0xFF) as bv8) == reg & 0xFFFF
  {
  }

  lemma LowBitsBelow16(reg: bv32)
    ensures reg & 0xFFFF < 0x1_0000
  {
  }

  /** Feeding the register its own top byte clears that byte and shifts the rest up. */
  lemma TopByteShiftedOut(reg: bv32)
    requires reg < TOP
    ensures ByteStep(reg, ((reg >> 16) & 0xFF) as bv8) == (reg & 0xFFFF) << 8
  {
    TopByteCleared(reg);
    LowBitsBelow16(reg);
    EightPlainShifts(reg & 0xFFFF);
  }

  /** After the first CRC byte the register's top byte is the second CRC byte. */
  lemma SecondCrcByteOnTop(c: bv32)
    requires c < TOP
    ensures var c1 := (c & 0xFFFF) << 8;
            c1 < TOP && ((c1 >> 16) & 0xFF) as bv8 == ((c >> 8) & 0xFF) as bv8
  {
  }

  /** After the second CRC byte the top byte is the third, and the rest of the register is clear. */
  lemma ThirdCrcByteOnTop(c: bv32)
    requires c < TOP
    ensures var c2 := ((((c & 0xFFFF) << 8) & 0xFFFF) << 8);
            c2 < TOP && ((c2 >> 16) & 0xFF) as bv8 == (c & 0xFF) as bv8 && (c2 & 0xFFFF) << 8 == 0
  {
  }

  /**
   * The acceptance rule of the frame scanner: a message followed by its own
   * CRC, most significant byte first, has CRC zero.
   */
  lemma ResidueIsZero(data: seq<bv8>)
    ensures Checksum(data + CrcBytes(Checksum(data))) == 0
  {
    var c := Register(data);
    var b := CrcBytes(c);
    RegisterSnoc(data, b[0]);
    TopByteShiftedOut(c);
    var c1 := (c & 0xFFFF) << 8;
    SecondCrcByteOnTop(c);
    RegisterSnoc(data + [b[0]], b[1]);
    TopByteShiftedOut(c1);
    var c2 := (c1 & 0xFFFF) << 8;
    ThirdCrcByteOnTop(c);
    RegisterSnoc(data + [b[0], b[1]], b[2]);
    TopByteShiftedOut(c2);
    assert data + [b[0]] + [b[1]] == data + [b[0], b[1]];
    assert data + [b[0], b[1]] + [b[2]] == data + b;
  }

  // ---------------------------------------------------------------------------
  // A worked value.

  lemma ByteStepPreamble()
    ensures ByteStep(0, 0xD3) == 0xE3_3309
  {
  }

  lemma ByteStepZeroAfterPreamble()
    ensures ByteStep(0xE3_3309, 0) == 0x19_A569
  {
  }

  lemma ByteStepSecondZero()
    ensures ByteStep(0x19_A569, 0) == 0x47_EA4B
  {
  }

  /** The header of an empty frame, D3 00 00, has CRC-24Q 0x47EA4B. */
  lemma ChecksumOfEmptyFrameHeader()
    ensures Checksum([0xD3, 0, 0]) == 0x47_EA4B
  {
    ByteStepPreamble();
    ByteStepZeroAfterPreamble();
    ByteStepSecondZero();
    RegisterSnoc([], 0xD3);
    RegisterSnoc([0xD3], 0);
    RegisterSnoc([0xD3, 0], 0);
    assert [] + [0xD3 as bv8] == [0xD3];
    assert [0xD3 as bv8] + [0 as bv8] == [0xD3, 0];
    assert [0xD3 as bv8, 0] + [0 as bv8] == [0xD3, 0, 0];
  }

  // ---------------------------------------------------------------------------
  // Error detection: a frame whose CRC is zero has CRC nonzero once any one of
  // its octets is changed. A round maps distinct 24-bit registers to distinct
  // ones (the polynomial's x^0 term marks whether bit 23 was shifted out), so
  // a difference in the register, once made, survives every later octet.

  /** Bit 0 of a round's result is set exactly when the round shifted bit 23 out and XORed the polynomial in. */
  lemma ShiftRoundLowBit(reg: bv32)
    requires reg < TOP
    ensures (ShiftRound(reg) & 1 != 0) == (reg & 0x80_0000 != 0)
  {
  }

  lemma ShiftTop(reg: bv32)
    ensures ((reg << 1) & TOP != 0) == (reg & 0x80_0000 != 0)
  {
  }

  lemma ShiftSeparates(a: bv32, b: bv32)
    requires a < TOP && b < TOP && a != b
    ensures a << 1 != b << 1
  {
    ShiftRoundStaysIn24Bits(a);
    ShiftRoundStaysIn24Bits(b);
  }

  lemma ReduceSeparatesSet(x: bv32, y: bv32)
    requires x != y && x & TOP != 0 && y & TOP != 0
    ensures Reduce(x) != Reduce(y)
  {
  }

  lemma ReduceSeparatesClear(x: bv32, y: bv32)
    requires x != y && x & TOP == 0 && y & TOP == 0
    ensures Reduce(x) != Reduce(y)
  {
  }

  lemma LowBitSeparates(x: bv32, y: bv32)
    requires (x & 1 != 0) != (y & 1 != 0)
    ensures x != y
  {
  }

  /** A round is one-to-one on 24-bit registers. */
  lemma ShiftRoundInjective(a: bv32, b: bv32)
    requires a < TOP && b < TOP && a != b
    ensures ShiftRound(a) != ShiftRound(b)
  {
    ShiftTop(a);
    ShiftTop(b);
    if (a & 0x80_0000 != 0) != (b & 0x80_0000 != 0) {
      ShiftRoundLowBit(a);
      ShiftRoundLowBit(b);
      LowBitSeparates(ShiftRound(a), ShiftRound(b));
    } else if a & 0x80_0000 != 0 {
      ShiftSeparates(a, b);
      ReduceSeparatesSet(a << 1, b << 1);
    } else {
      ShiftSeparates(a, b);
      ReduceSeparatesClear(a << 1, b << 1);
    }
  }

  /** Any number of rounds keeps distinct 24-bit registers distinct. */
  lemma {:induction false} RoundsInjective(a: bv32, b: bv32, n: nat)
    requires a < TOP && b < TOP && a != b
    ensures Rounds(a, n) != Rounds(b, n)
  {
    if n > 0 {
      RoundsInjective(a, b, n - 1);
      RoundsStayIn24Bits(a, n - 1);
      RoundsStayIn24Bits(b, n - 1);
      ShiftRoundInjective(Rounds(a, n - 1), Rounds(b, n - 1));
    }
  }

  lemma InjectSeparatesOctets(reg: bv32, x: bv8, y: bv8)
    requires x != y
    ensures Inject(reg, x) != Inject(reg, y)
  {
  }

  lemma InjectSeparatesRegisters(r: bv32, s: bv32, octet: bv8)
    requires r != s
    ensures Inject(r, octet) != Inject(s, octet)
  {
  }

  /** From the same register, two different octets leave different registers. */
  lemma ByteStepSeparatesOctets(reg: bv32, x: bv8, y: bv8)
    requires reg < TOP && x != y
    ensures ByteStep(reg, x) != ByteStep(reg, y)
  {
    InjectSeparatesOctets(reg, x, y);
    InjectStaysIn24Bits(reg, x);
    InjectStaysIn24Bits(reg, y);
    RoundsInjective(Inject(reg, x), Inject(reg, y), BITS_PER_OCTET);
  }

  /** Two different registers stay different after the same octet. */
  lemma ByteStepSeparatesRegisters(r: bv32, s: bv32, octet: bv8)
    requires r < TOP && s < TOP && r != s
    ensures ByteStep(r, octet) != ByteStep(s, octet)
  {
    InjectSeparatesRegisters(r, s, octet);
    InjectStaysIn24Bits(r, octet);
    InjectStaysIn24Bits(s, octet);
    RoundsInjective(Inject(r, octet), Inject(s, octet), BITS_PER_OCTET);
  }

  /** Changing any one octet of the input changes the register. */
  lemma {:induction false} ChangedOctetChangesRegister(data: seq<bv8>, i: nat, octet: bv8)
    requires i < |data| && octet != data[i]
    ensures Register(data[i := octet]) != Register(data)
  {
    var n := |data|;
    var changed := data[i := octet];
    RegisterSnoc(data[..n - 1], data[n - 1]);
    RegisterSnoc(changed[..n - 1], changed[n - 1]);
    assert data[..n - 1] + [data[n - 1]] == data;
    assert changed[..n - 1] + [changed[n - 1]] == changed;
    if i == n - 1 {
      assert changed[..n - 1] == data[..n - 1];
      ByteStepSeparatesOctets(Register(data[..n - 1]), data[n - 1], octet);
    } else {
      assert changed[..n - 1] == data[..n - 1][i := octet];
      ChangedOctetChangesRegister(data[..n - 1], i, octet);
      ByteStepSeparatesRegisters(Register(changed[..n - 1]), Register(data[..n - 1]), data[n - 1]);
    }
  }

  /** A frame whose CRC is zero no longer passes once any one of its octets is corrupted, however many bits of it. */
  lemma ChangedOctetDetected(frame: seq<bv8>, i: nat, octet: bv8)
    requires Checksum(frame) == 0
    requires i < |frame| && octet != frame[i]
    ensures Checksum(frame[i := octet]) != 0
  {
    ChangedOctetChangesRegister(frame, i, octet);
  }

  /** In particular, flipping any single bit of a frame whose CRC is zero makes its CRC nonzero. */
  lemma FlippedBitDetected(frame: seq<bv8>, i: nat, bit: bv8)
    requires Checksum(frame) == 0
    requires i < |frame| && bit < 8
    ensures Checksum(frame[i := frame[i] ^ (1 << bit)]) != 0
  {
    assert frame[i] ^ (1 << bit) != frame[i];
    ChangedOctetDetected(frame, i, frame[i] ^ (1 << bit));
  }
}
