/** The three registers of the repository, as instances of `ShiftRegister.Register`. */
module CrcRegisters {
  import opened Bytes
  import opened Words
  import opened ShiftRegister

  /** Polynomial 0x1021, most significant bit first (`CRC_16_POLYNOMIAL`). */
  const CCITT: Register<bv16> := Register(
    (a: bv16, b: bv16) => Xor16(a, b), (a: bv16) => Left16(a), (a: bv16) => Top16(a), 0x1021,
    (b: byte) => Msb(b as bv8))

  /** Polynomial 0x8005 in its reflected form 0xA001, least significant bit first. */
  const ARC: Register<bv16> := Register(
    (a: bv16, b: bv16) => Xor16(a, b), (a: bv16) => Right16(a), (a: bv16) => Bottom16(a), 0xA001,
    (b: byte) => Lsb(b as bv8))

  /** Polynomial 0x04c11db7, most significant bit first. */
  const CRC32: Register<bv32> := Register(
    (a: bv32, b: bv32) => Xor32(a, b), (a: bv32) => Left32(a), (a: bv32) => Top32(a), 0x04c1_1db7,
    (b: byte) => Msb(b as bv8))

  lemma ArcLinear()
    ensures Linear(ARC)
  {
    hide Xor16, Right16, Bottom16;
    forall a, b, c ensures Swaps(ARC, a, b, c) { Swap16(a, b, c); }
    forall a, b ensures ShiftAdds(ARC, a, b) { Right16Xor(a, b); Bottom16Xor(a, b); }
  }

  lemma Crc32Linear()
    ensures Linear(CRC32)
  {
    hide Xor32, Left32, Top32;
    forall a, b, c ensures Swaps(CRC32, a, b, c) { Swap32(a, b, c); }
    forall a, b ensures ShiftAdds(CRC32, a, b) { Left32Xor(a, b); Top32Xor(a, b); }
  }

  // Eight shifts bring the bits of one byte of the register to the exit, in the byte's own order.

  lemma CcittShifts(d: bv16)
    ensures ShiftBy(CCITT, d, 8) == Left16By8(d)
    ensures forall k :: 0 <= k < 8 ==> CCITT.out(ShiftBy(CCITT, d, k)) == Msb(High16(d))[k]
  {
    hide Xor16, Left16, Top16, Msb, High16, Left16By8;
    Left16Steps(d);
    Left16Bits(d);
    Shift8(CCITT, d, d << 1, d << 2, d << 3, d << 4, d << 5, d << 6, d << 7, Left16By8(d), Msb(High16(d)));
  }

  lemma ArcShifts(d: bv16)
    ensures ShiftBy(ARC, d, 8) == Right16By8(d)
    ensures forall k :: 0 <= k < 8 ==> ARC.out(ShiftBy(ARC, d, k)) == Lsb(Low16(d))[k]
  {
    hide Xor16, Right16, Bottom16, Lsb, Low16, Right16By8;
    Right16Steps(d);
    Right16Bits(d);
    Shift8(ARC, d, d >> 1, d >> 2, d >> 3, d >> 4, d >> 5, d >> 6, d >> 7, Right16By8(d), Lsb(Low16(d)));
  }

  lemma Crc32Shifts(d: bv32)
    ensures ShiftBy(CRC32, d, 8) == Left32By8(d)
    ensures forall k :: 0 <= k < 8 ==> CRC32.out(ShiftBy(CRC32, d, k)) == Msb(High32(d))[k]
  {
    hide Xor32, Left32, Top32, Msb, High32, Left32By8;
    Left32Steps(d);
    Left32Bits(d);
    Shift8(CRC32, d, d << 1, d << 2, d << 3, d << 4, d << 5, d << 6, d << 7, Left32By8(d), Msb(High32(d)));
  }
}
