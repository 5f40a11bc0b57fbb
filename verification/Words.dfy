/**
  The machine-word operations of the CRC routines, each under a name, with their algebra. Proofs
  elsewhere hide the bodies and use only the laws stated here.
*/
module Words {

  function Xor16(a: bv16, b: bv16): bv16 { a ^ b }

  function Left16(a: bv16): bv16 { a << 1 }

  function Right16(a: bv16): bv16 { a >> 1 }

  function Top16(a: bv16): bool { a & 0x8000 != 0 }

  function Bottom16(a: bv16): bool { a & 1 != 0 }

  function Left16By8(a: bv16): bv16 { a << 8 }

  function Right16By8(a: bv16): bv16 { a >> 8 }

  function High16(a: bv16): bv8 { ((a >> 8) & 0xFF) as bv8 }

  function Low16(a: bv16): bv8 { (a & 0xFF) as bv8 }

  function Widen16(v: bv8): bv16 { v as bv16 }

  function Xor32(a: bv32, b: bv32): bv32 { a ^ b }

  function Left32(a: bv32): bv32 { a << 1 }

  function Top32(a: bv32): bool { a & 0x8000_0000 != 0 }

  function Left32By8(a: bv32): bv32 { a << 8 }

  /** `a >> 24`. */
  function High32(a: bv32): bv8 { (a >> 24) as bv8 }

  /** A byte moved to the top of a word. */
  function Load32(v: bv8): bv32 { (v as bv32) << 24 }

  function Xor8(a: bv8, b: bv8): bv8 { a ^ b }

  /** The bits of `v`, most significant first. */
  function Msb(v: bv8): (bits: seq<bool>)
    ensures |bits| == 8
  {
    [v & 0x80 != 0, v & 0x40 != 0, v & 0x20 != 0, v & 0x10 != 0,
     v & 0x08 != 0, v & 0x04 != 0, v & 0x02 != 0, v & 0x01 != 0]
  }

  /** The bits of `v`, least significant first. */
  function Lsb(v: bv8): (bits: seq<bool>)
    ensures |bits| == 8
  {
    [v & 0x01 != 0, v & 0x02 != 0, v & 0x04 != 0, v & 0x08 != 0,
     v & 0x10 != 0, v & 0x20 != 0, v & 0x40 != 0, v & 0x80 != 0]
  }

  lemma ByteAndBack(v: bv8)
    ensures (v as int) as bv8 == v
  {
  }

  // Exclusive or is a commutative group operation in which every word is its own inverse.

  lemma Assoc16(a: bv16, b: bv16, c: bv16)
    ensures Xor16(Xor16(a, b), c) == Xor16(a, Xor16(b, c))
  {
  }

  lemma Comm16(a: bv16, b: bv16)
    ensures Xor16(a, b) == Xor16(b, a)
  {
  }

  lemma Zero16(a: bv16)
    ensures Xor16(a, 0) == a
  {
  }

  lemma Cancel16(a: bv16, b: bv16)
    ensures Xor16(Xor16(a, b), b) == a
  {
  }

  lemma Swap16(a: bv16, b: bv16, c: bv16)
    ensures Xor16(Xor16(a, b), c) == Xor16(Xor16(a, c), b)
  {
    hide Xor16;
    Assoc16(a, b, c);
    Comm16(b, c);
    Assoc16(a, c, b);
  }

  lemma Assoc32(a: bv32, b: bv32, c: bv32)
    ensures Xor32(Xor32(a, b), c) == Xor32(a, Xor32(b, c))
  {
  }

  lemma Comm32(a: bv32, b: bv32)
    ensures Xor32(a, b) == Xor32(b, a)
  {
  }

  lemma Zero32(a: bv32)
    ensures Xor32(a, 0) == a
  {
  }

  lemma Swap32(a: bv32, b: bv32, c: bv32)
    ensures Xor32(Xor32(a, b), c) == Xor32(Xor32(a, c), b)
  {
    hide Xor32;
    Assoc32(a, b, c);
    Comm32(b, c);
    Assoc32(a, c, b);
  }

  // Shifts distribute over exclusive or, and the bit that leaves is the sum of the bits that would.

  lemma Right16Xor(a: bv16, b: bv16)
    ensures Right16(Xor16(a, b)) == Xor16(Right16(a), Right16(b))
  {
  }

  lemma Bottom16Xor(a: bv16, b: bv16)
    ensures Bottom16(Xor16(a, b)) == (Bottom16(a) != Bottom16(b))
  {
  }

  lemma Left32Xor(a: bv32, b: bv32)
    ensures Left32(Xor32(a, b)) == Xor32(Left32(a), Left32(b))
  {
  }

  lemma Top32Xor(a: bv32, b: bv32)
    ensures Top32(Xor32(a, b)) == (Top32(a) != Top32(b))
  {
  }

  // Eight single shifts, and the bits they bring to the exit.

  lemma Left16Steps(d: bv16)
    ensures Left16(d) == d << 1 && Left16(d << 1) == d << 2 && Left16(d << 2) == d << 3 && Left16(d << 3) == d << 4
    ensures Left16(d << 4) == d << 5 && Left16(d << 5) == d << 6 && Left16(d << 6) == d << 7
    ensures Left16(d << 7) == Left16By8(d)
  {
  }

  lemma Left16Bits(d: bv16)
    ensures [Top16(d), Top16(d << 1), Top16(d << 2), Top16(d << 3),
             Top16(d << 4), Top16(d << 5), Top16(d << 6), Top16(d << 7)] == Msb(High16(d))
  {
  }

  lemma Right16Steps(d: bv16)
    ensures Right16(d) == d >> 1 && Right16(d >> 1) == d >> 2 && Right16(d >> 2) == d >> 3 && Right16(d >> 3) == d >> 4
    ensures Right16(d >> 4) == d >> 5 && Right16(d >> 5) == d >> 6 && Right16(d >> 6) == d >> 7
    ensures Right16(d >> 7) == Right16By8(d)
  {
  }

  lemma Right16Bits(d: bv16)
    ensures [Bottom16(d), Bottom16(d >> 1), Bottom16(d >> 2), Bottom16(d >> 3),
             Bottom16(d >> 4), Bottom16(d >> 5), Bottom16(d >> 6), Bottom16(d >> 7)] == Lsb(Low16(d))
  {
  }

  lemma Left32Steps(d: bv32)
    ensures Left32(d) == d << 1 && Left32(d << 1) == d << 2 && Left32(d << 2) == d << 3 && Left32(d << 3) == d << 4
    ensures Left32(d << 4) == d << 5 && Left32(d << 5) == d << 6 && Left32(d << 6) == d << 7
    ensures Left32(d << 7) == Left32By8(d)
  {
  }

  lemma Left32Bits(d: bv32)
    ensures [Top32(d), Top32(d << 1), Top32(d << 2), Top32(d << 3),
             Top32(d << 4), Top32(d << 5), Top32(d << 6), Top32(d << 7)] == Msb(High32(d))
  {
  }
}
