/** crc_16_l_calc of common/apps/modem_control/crc16.c. */
module Crc16L {
  import opened Bytes
  import opened Words
  import opened ShiftRegister
  import opened CrcRegisters

  /** The CRC of `s`, from an empty register. */
  function Crc16(s: seq<byte>): bv16 {
    Crc(CCITT, 0, s)
  }

  /** `crc` in network order, as `cpu2be16` and a little-endian store leave it in memory. */
  function BigEndian(crc: bv16): (s: seq<byte>)
    ensures |s| == 2
  {
    [High16(crc) as int, Low16(crc) as int]
  }

  /** Check values: one byte with the last, and with the first bit set. */
  lemma CheckValues()
    ensures Crc16([0x01]) == 0x1021 && Crc16([0x80]) == 0x9188
  {
    hide *;
    LastBitSet();
    FirstBitSet();
  }

  lemma LastBitSet()
    ensures Crc16([0x01]) == 0x1021
  {
    var bits, states := [false, false, false, false, false, false, false, true], [0, 0, 0, 0, 0, 0, 0, 0, 0x1021];
    assert Msb(1) == bits;
    OneByte(0x01, bits, states);
  }

  lemma FirstBitSet()
    ensures Crc16([0x80]) == 0x9188
  {
    var bits := [true, false, false, false, false, false, false, false];
    var states := [0, 0x1021, 0x2042, 0x4084, 0x8108, 0x1231, 0x2462, 0x48C4, 0x9188];
    assert Msb(0x80) == bits;
    OneByte(0x80, bits, states);
  }

  lemma OneByte(b: byte, bits: seq<bool>, states: seq<bv16>)
    requires |bits| == 8 && |states| == 9 && states[0] == 0 && Msb(b as bv8) == bits
    requires forall k :: 0 <= k < 8 ==> states[k + 1] == Feed(CCITT, states[k], bits[k])
    ensures Crc16([b]) == states[8]
  {
    CrcByte(CCITT, 0, [], b);
    assert [] + [b] == [b];
    FeedTo(bits, states, 0);
    assert bits[0..] == bits;
  }

  lemma {:induction false} FeedTo(bits: seq<bool>, states: seq<bv16>, k: nat)
    requires |bits| == 8 && |states| == 9 && k <= 8
    requires forall i :: 0 <= i < 8 ==> states[i + 1] == Feed(CCITT, states[i], bits[i])
    ensures FeedBits(CCITT, states[k], bits[k..]) == states[8]
    decreases 8 - k
  {
    if k < 8 {
      assert bits[k..][0] == bits[k] && bits[k..][1..] == bits[k + 1..];
      FeedTo(bits, states, k + 1);
    }
  }

  /** Feeding the register its own top byte leaves no feedback. */
  lemma FeedOwnByte(c: bv16)
    ensures FeedBits(CCITT, c, CCITT.order(High16(c) as int)) == Left16By8(c)
  {
    hide Xor16, Left16, Top16, Left16By8, Msb, High16;
    CcittShifts(c);
    ByteAndBack(High16(c));
    FeedOwnBits(CCITT, c, CCITT.order(High16(c) as int));
  }

  lemma LowFollowsHigh(c: bv16)
    ensures High16(Left16By8(c)) == Low16(c)
    ensures Left16By8(Left16By8(c)) == 0
  {
  }

  /** Append law: a message followed by its own CRC leaves the register empty (`CRC_16_L_OK`). */
  lemma AppendLaw(s: seq<byte>)
    ensures Crc16(s + BigEndian(Crc16(s))) == 0
  {
    hide Xor16, Left16, Top16, Left16By8, Msb, High16, Low16;
    var crc := Crc16(s);
    var hi, lo := High16(crc) as int, Low16(crc) as int;
    assert s + BigEndian(crc) == (s + [hi]) + [lo];
    CrcByte(CCITT, 0, s, hi);
    CrcByte(CCITT, 0, s + [hi], lo);
    LowFollowsHigh(crc);
    FeedOwnByte(crc);
    FeedOwnByte(Left16By8(crc));
  }

  const MASKS: seq<bv8> := [0x80, 0x40, 0x20, 0x10, 0x08, 0x04, 0x02, 0x01, 0]

  lemma MaskStep(v: bv8, k: nat)
    requires k < 8
    ensures |MASKS| == 9 && MASKS[k] != 0 && MASKS[k] >> 1 == MASKS[k + 1] && MASKS[k + 1] < MASKS[k]
    ensures Msb(v)[k] == (v & MASKS[k] != 0)
  {
    MaskNext(k);
    MaskBit(v, k);
  }

  lemma MaskNext(k: nat)
    requires k < 8
    ensures MASKS[k] != 0 && MASKS[k] >> 1 == MASKS[k + 1] && MASKS[k + 1] < MASKS[k]
  {
    assert MASKS == [0x80, 0x40, 0x20, 0x10, 0x08, 0x04, 0x02, 0x01, 0];
  }

  lemma MaskBit(v: bv8, k: nat)
    requires k < 8
    ensures Msb(v)[k] == (v & MASKS[k] != 0)
  {
  }

  lemma MaskEnds()
    ensures |MASKS| == 9 && MASKS[0] == 0x80 && MASKS[8] == 0
  {
  }

  /** One clock, in the order of the loop: shift, feedback for the bit that left, feedback for the data bit. */
  function ClockBit(crc: bv16, bit: bool): bv16 {
    var shifted := if Top16(crc) then Xor16(Left16(crc), 0x1021) else Left16(crc);
    if bit then Xor16(shifted, 0x1021) else shifted
  }

  lemma NextBit(start: bv16, bits: seq<bool>, k: nat)
    requires k < |bits|
    ensures FeedBits(CCITT, start, bits[..k + 1]) == ClockBit(FeedBits(CCITT, start, bits[..k]), bits[k])
  {
    hide Xor16, Left16, Top16;
    FeedOneMore(CCITT, start, bits[..k], bits[k]);
    assert bits[..k + 1] == bits[..k] + [bits[k]];
    Cancel16(Left16(FeedBits(CCITT, start, bits[..k])), 0x1021);
  }

  /**
    The inner loop over one byte, from bit 0x80 (`CRC_16_L_SEED`) down to bit 0: shift, then add
    the feedback once for the bit that left and once for the data bit.
  */
  method FeedByte(start: bv16, b: byte) returns (crc: bv16)
    ensures crc == FeedBits(CCITT, start, CCITT.order(b))
  {
    hide Xor16, Left16, Top16, Msb, MASKS;
    crc := start;
    var i: bv8 := 0x80;
    ghost var k, bits := 0, Msb(b as bv8);
    MaskEnds();
    while i != 0
      invariant k <= 8 && i == MASKS[k]
      invariant crc == FeedBits(CCITT, start, bits[..k])
      decreases i
    {
      if k < 8 {
        MaskStep(b as bv8, k);
      }
      NextBit(start, bits, k);
      if Top16(crc) {
        crc := Left16(crc);
        crc := Xor16(crc, 0x1021);
      } else {
        crc := Left16(crc);
      }
      if (b as bv8) & i != 0 {
        crc := Xor16(crc, 0x1021);
      }
      i := i >> 1;
      k := k + 1;
    }
    if k < 8 {
      MaskStep(b as bv8, k);
    }
    assert bits[..k] == bits;
  }

  /** crc_16_l_calc over the `len` bytes of `buf` that start at `at`. */
  method Crc16LCalc(buf: array<byte>, at: nat, len: nat) returns (crc: bv16)
    requires at + len <= buf.Length
    ensures crc == Crc16(buf[at..at + len])
  {
    hide Xor16, Left16, Top16, Msb;
    crc := 0;
    var k := 0;
    while k < len
      invariant k <= len
      invariant crc == Crc16(buf[at..at + k])
    {
      CrcByte(CCITT, 0, buf[at..at + k], buf[at + k]);
      assert buf[at..at + k + 1] == buf[at..at + k] + [buf[at + k]];
      crc := FeedByte(crc, buf[at + k]);
      k := k + 1;
    }
  }
}

/** calculate_crc of common/apps/modem_control/crc16.c. */
module CalculateCrc16 {
  import opened Bytes
  import opened Words
  import opened ShiftRegister
  import opened CrcRegisters
  import Crc16Table

  lemma Clock8IsSilence(c: bv16)
    ensures Crc16Table.Clock8(c) == FeedBits(ARC, c, SILENCE)
  {
    hide Xor16, Right16, Bottom16;
    var c1 := Crc16Table.Clock(c);
    var c2 := Crc16Table.Clock(c1);
    var c3 := Crc16Table.Clock(c2);
    var c4 := Crc16Table.Clock(c3);
    var c5 := Crc16Table.Clock(c4);
    var c6 := Crc16Table.Clock(c5);
    var c7 := Crc16Table.Clock(c6);
    var c8 := Crc16Table.Clock(c7);
    Clock8(ARC, c, c1, c2, c3, c4, c5, c6, c7, c8);
  }

  function HighHalf(crc: bv16): bv16 { crc & 0xFF00 }

  /** The table index `(crc ^ b) & 0xff`. */
  function Index(crc: bv16, v: bv8): bv8 {
    Low16(Xor16(crc, Widen16(v)))
  }

  lemma Split(crc: bv16, v: bv8)
    ensures Xor16(crc, Widen16(v)) == Xor16(Widen16(Index(crc, v)), HighHalf(crc))
  {
  }

  lemma WidenBits(v: bv8)
    ensures Right16By8(Widen16(v)) == 0 && Low16(Widen16(v)) == v
  {
  }

  lemma WidenShifts(v: bv8)
    ensures ShiftBy(ARC, Widen16(v), 8) == 0
    ensures forall k :: 0 <= k < 8 ==> ARC.out(ShiftBy(ARC, Widen16(v), k)) == Lsb(v)[k]
  {
    hide Xor16, Right16, Right16By8, Bottom16, Lsb, Low16, Widen16;
    ArcShifts(Widen16(v));
    WidenBits(v);
  }

  lemma HighHalfBits(crc: bv16)
    ensures Right16By8(HighHalf(crc)) == Right16By8(crc) && Low16(HighHalf(crc)) == 0
    ensures Lsb(0) == SILENCE
  {
  }

  lemma HighHalfShifts(crc: bv16)
    ensures ShiftBy(ARC, HighHalf(crc), 8) == Right16By8(crc)
    ensures forall k :: 0 <= k < 8 ==> !ARC.out(ShiftBy(ARC, HighHalf(crc), k))
  {
    hide Xor16, Right16, Right16By8, Bottom16, Lsb, Low16, HighHalf;
    ArcShifts(HighHalf(crc));
    HighHalfBits(crc);
  }

  lemma EntryIsSilence(i: bv8)
    ensures Crc16Table.Entry(i) == FeedBits(ARC, Widen16(i), SILENCE)
  {
    hide Xor16, Right16, Bottom16, Widen16, Crc16Table.Clock, Crc16Table.Clock8;
    Clock8IsSilence(Widen16(i));
  }

  /** A byte laid into the register ahead of the clock acts like a byte fed bit by bit. */
  lemma Absorb(crc: bv16, v: bv8)
    ensures FeedBits(ARC, Xor16(crc, Widen16(v)), SILENCE) == FeedBits(ARC, crc, Lsb(v))
  {
    hide Xor16, Right16, Right16By8, Bottom16, Lsb, Low16, Widen16;
    ArcLinear();
    WidenShifts(v);
    Superpose(ARC, crc, Widen16(v), SILENCE, Lsb(v));
    Zero16(FeedBits(ARC, crc, Lsb(v)));
  }

  /** Eight silent clocks look the low byte up and shift the high one down. */
  lemma LookUp(i: bv8, crc: bv16)
    ensures FeedBits(ARC, Xor16(Widen16(i), HighHalf(crc)), SILENCE) == Xor16(Crc16Table.Entry(i), Right16By8(crc))
  {
    hide Xor16, Right16, Right16By8, Bottom16, Lsb, Low16, Widen16, HighHalf;
    hide Crc16Table.Entry, Crc16Table.Clock, Crc16Table.Clock8;
    ArcLinear();
    HighHalfShifts(crc);
    Superpose(ARC, Widen16(i), HighHalf(crc), SILENCE, SILENCE);
    EntryIsSilence(i);
  }

  /** One table step feeds one byte to the bit-serial register. */
  lemma TableStep(crc: bv16, b: byte)
    ensures Xor16(Right16By8(crc), Crc16Table.Entry(Index(crc, b as bv8))) == FeedBits(ARC, crc, ARC.order(b))
  {
    hide Xor16, Right16, Right16By8, Bottom16, Lsb, Low16, Widen16, HighHalf, Index, FeedBits, Crc16Table.Entry;
    var i := Index(crc, b as bv8);
    Split(crc, b as bv8);
    Absorb(crc, b as bv8);
    LookUp(i, crc);
    Comm16(Right16By8(crc), Crc16Table.Entry(i));
  }

  method CalculateCrc(start: bv16, buffer: seq<byte>) returns (crc: bv16)
    ensures crc == Crc(ARC, start, buffer)
  {
    hide Xor16, Right16, Right16By8, Bottom16, Lsb, Index, Crc16Table.Entry, Crc16Table.Clock, Crc16Table.Clock8;
    crc := start;
    var p, len := 0, |buffer|;
    while len > 0
      invariant 0 <= p && 0 <= len && p + len == |buffer|
      invariant crc == Crc(ARC, start, buffer[..p])
    {
      TableStep(crc, buffer[p]);
      CrcByte(ARC, start, buffer[..p], buffer[p]);
      assert buffer[..p + 1] == buffer[..p] + [buffer[p]];
      crc := Xor16(Right16By8(crc), Crc16Table.Entry(Index(crc, buffer[p] as bv8)));
      p, len := p + 1, len - 1;
    }
    assert buffer[..p] == buffer;
  }
}

/** crc32b of common/apps/nvm_daemon/crc32b.c. */
module Crc32b {
  import opened Bytes
  import opened Words
  import opened ShiftRegister
  import opened CrcRegisters
  import Crc32Table

  lemma Clock8IsSilence(c: bv32)
    ensures Crc32Table.Clock8(c) == FeedBits(CRC32, c, SILENCE)
  {
    hide Xor32, Left32, Top32;
    var c1 := Crc32Table.Clock(c);
    var c2 := Crc32Table.Clock(c1);
    var c3 := Crc32Table.Clock(c2);
    var c4 := Crc32Table.Clock(c3);
    var c5 := Crc32Table.Clock(c4);
    var c6 := Crc32Table.Clock(c5);
    var c7 := Crc32Table.Clock(c6);
    var c8 := Crc32Table.Clock(c7);
    Clock8(CRC32, c, c1, c2, c3, c4, c5, c6, c7, c8);
  }

  function LowPart(crc: bv32): bv32 { crc & 0x00FF_FFFF }

  /** The table index `(crc >> 24) ^ b`. */
  function Index(crc: bv32, v: bv8): bv8 {
    Xor8(High32(crc), v)
  }

  lemma HighAndLow(crc: bv32)
    ensures crc == Xor32(Load32(High32(crc)), LowPart(crc))
  {
  }

  lemma LoadXor(a: bv8, b: bv8)
    ensures Xor32(Load32(a), Load32(b)) == Load32(Xor8(a, b))
  {
  }

  lemma Split(crc: bv32, v: bv8)
    ensures Xor32(crc, Load32(v)) == Xor32(Load32(Index(crc, v)), LowPart(crc))
  {
    hide Xor32, Xor8, Load32, High32, LowPart;
    HighAndLow(crc);
    Swap32(Load32(High32(crc)), LowPart(crc), Load32(v));
    LoadXor(High32(crc), v);
  }

  lemma LoadBits(v: bv8)
    ensures Left32By8(Load32(v)) == 0 && High32(Load32(v)) == v
  {
  }

  lemma LoadShifts(v: bv8)
    ensures ShiftBy(CRC32, Load32(v), 8) == 0
    ensures forall k :: 0 <= k < 8 ==> CRC32.out(ShiftBy(CRC32, Load32(v), k)) == Msb(v)[k]
  {
    hide Xor32, Left32, Left32By8, Top32, Msb, High32, Load32;
    Crc32Shifts(Load32(v));
    LoadBits(v);
  }

  lemma LowPartBits(crc: bv32)
    ensures Left32By8(LowPart(crc)) == Left32By8(crc) && High32(LowPart(crc)) == 0
    ensures Msb(0) == SILENCE
  {
  }

  lemma LowPartShifts(crc: bv32)
    ensures ShiftBy(CRC32, LowPart(crc), 8) == Left32By8(crc)
    ensures forall k :: 0 <= k < 8 ==> !CRC32.out(ShiftBy(CRC32, LowPart(crc), k))
  {
    hide Xor32, Left32, Left32By8, Top32, Msb, High32, LowPart;
    Crc32Shifts(LowPart(crc));
    LowPartBits(crc);
  }

  lemma EntryIsSilence(i: bv8)
    ensures Crc32Table.Entry(i) == FeedBits(CRC32, Load32(i), SILENCE)
  {
    hide Xor32, Left32, Top32, Load32, Crc32Table.Clock, Crc32Table.Clock8;
    Clock8IsSilence(Load32(i));
  }

  /** The macro `DO1`. */
  function Do1(crc: bv32, b: byte): bv32 {
    Xor32(Crc32Table.Entry(Index(crc, b as bv8)), Left32By8(crc))
  }

  /** A byte laid on the top of the register ahead of the clock acts like a byte fed bit by bit. */
  lemma Absorb(crc: bv32, v: bv8)
    ensures FeedBits(CRC32, Xor32(crc, Load32(v)), SILENCE) == FeedBits(CRC32, crc, Msb(v))
  {
    hide Xor32, Left32, Left32By8, Top32, Msb, High32, Load32;
    Crc32Linear();
    LoadShifts(v);
    Superpose(CRC32, crc, Load32(v), SILENCE, Msb(v));
    Zero32(FeedBits(CRC32, crc, Msb(v)));
  }

  /** Eight silent clocks look the top byte up and shift the others up. */
  lemma LookUp(i: bv8, crc: bv32)
    ensures FeedBits(CRC32, Xor32(Load32(i), LowPart(crc)), SILENCE)
            == Xor32(Crc32Table.Entry(i), Left32By8(crc))
  {
    hide Xor32, Left32, Left32By8, Top32, Msb, High32, Load32, LowPart;
    hide Crc32Table.Entry, Crc32Table.Clock, Crc32Table.Clock8;
    Crc32Linear();
    LowPartShifts(crc);
    Superpose(CRC32, Load32(i), LowPart(crc), SILENCE, SILENCE);
    EntryIsSilence(i);
  }

  /** One `DO1` feeds one byte to the bit-serial register. */
  lemma TableStep(crc: bv32, b: byte)
    ensures Do1(crc, b) == FeedBits(CRC32, crc, CRC32.order(b))
  {
    hide Xor32, Left32, Left32By8, Top32, Msb, High32, Load32, LowPart, Index, FeedBits, Crc32Table.Entry;
    Split(crc, b as bv8);
    Absorb(crc, b as bv8);
    LookUp(Index(crc, b as bv8), crc);
  }

  lemma Extend(start: bv32, s: seq<byte>, p: nat)
    requires p < |s|
    ensures Crc(CRC32, start, s[..p + 1]) == Do1(Crc(CRC32, start, s[..p]), s[p])
  {
    hide Xor32, Left32, Top32, Msb, Do1;
    CrcByte(CRC32, start, s[..p], s[p]);
    assert s[..p + 1] == s[..p] + [s[p]];
    TableStep(Crc(CRC32, start, s[..p]), s[p]);
  }

  /** `present` is false when the caller passes a null pointer. */
  method Crc32Of(start: bv32, present: bool, buf: array<byte>, len: nat) returns (crc: bv32)
    requires len <= buf.Length
    ensures crc == if present then Crc(CRC32, start, buf[..len]) else 0
  {
    hide Do1;
    if !present {
      return 0;
    }
    crc := start;
    var left, p := len, 0;
    ghost var s := buf[..];
    while left >= 8
      invariant left + p == len
      invariant crc == Crc(CRC32, start, s[..p])
    {
      forall k | p <= k < p + 8
        ensures Crc(CRC32, start, s[..k + 1]) == Do1(Crc(CRC32, start, s[..k]), s[k])
      {
        Extend(start, s, k);
      }
      crc := Do1(crc, buf[p]);
      crc := Do1(crc, buf[p + 1]);
      crc := Do1(crc, buf[p + 2]);
      crc := Do1(crc, buf[p + 3]);
      crc := Do1(crc, buf[p + 4]);
      crc := Do1(crc, buf[p + 5]);
      crc := Do1(crc, buf[p + 6]);
      crc := Do1(crc, buf[p + 7]);
      p := p + 8;
      left := left - 8;
    }
    while left > 0
      invariant left + p == len
      invariant crc == Crc(CRC32, start, s[..p])
    {
      Extend(start, s, p);
      crc := Do1(crc, buf[p]);
      p := p + 1;
      left := left - 1;
    }
    assert s[..p] == buf[..len];
  }

  /** Feeding the register its own top byte leaves no feedback. */
  lemma FeedOwnByte(c: bv32)
    ensures FeedBits(CRC32, c, CRC32.order(High32(c) as int)) == Left32By8(c)
  {
    hide Xor32, Left32, Left32By8, Top32, Msb, High32;
    Crc32Shifts(c);
    ByteAndBack(High32(c));
    FeedOwnBits(CRC32, c, CRC32.order(High32(c) as int));
  }

  /** The four bytes of a CRC, high byte first: `(crc & 0xff << n) >> n` for n = 24, 16, 8 and 0. */
  function BigEndian(crc: bv32): (s: seq<byte>)
    ensures |s| == 4
  {
    [((crc & 0xFF00_0000) >> 24) as bv8 as int, ((crc & 0xFF_0000) >> 16) as bv8 as int,
     ((crc & 0xFF00) >> 8) as bv8 as int, (crc & 0xFF) as bv8 as int]
  }

  lemma BigEndianIs(c: bv32)
    ensures var c1 := Left32By8(c); var c2 := Left32By8(c1); var c3 := Left32By8(c2);
            BigEndian(c) == [High32(c) as int, High32(c1) as int, High32(c2) as int, High32(c3) as int]
            && Left32By8(c3) == 0
  {
    BigEndianBits(c);
  }

  lemma BigEndianBits(c: bv32)
    ensures ((c & 0xFF00_0000) >> 24) as bv8 == (c >> 24) as bv8
    ensures ((c & 0xFF_0000) >> 16) as bv8 == ((c << 8) >> 24) as bv8
    ensures ((c & 0xFF00) >> 8) as bv8 == (((c << 8) << 8) >> 24) as bv8
    ensures (c & 0xFF) as bv8 == ((((c << 8) << 8) << 8) >> 24) as bv8
    ensures (((c << 8) << 8) << 8) << 8 == 0
  {
  }

  /** Appending the register's top byte only shifts the register. */
  lemma AppendTop(c: bv32, s: seq<byte>, r: bv32)
    requires r == Crc(CRC32, c, s)
    ensures Crc(CRC32, c, s + [High32(r) as int]) == Left32By8(r)
  {
    hide Xor32, Left32, Left32By8, Top32, Msb, High32;
    CrcByte(CRC32, c, s, High32(r) as int);
    FeedOwnByte(r);
  }

  /** Append law: an image followed by its own CRC leaves the register empty. */
  lemma AppendLaw(c: bv32, s: seq<byte>)
    ensures Crc(CRC32, c, s + BigEndian(Crc(CRC32, c, s))) == 0
  {
    hide Left32By8, High32, BigEndian, Crc;
    var r0 := Crc(CRC32, c, s);
    var r1 := Left32By8(r0);
    var r2 := Left32By8(r1);
    var r3 := Left32By8(r2);
    BigEndianIs(r0);
    var s1 := s + [High32(r0) as int];
    var s2 := s1 + [High32(r1) as int];
    var s3 := s2 + [High32(r2) as int];
    assert s + BigEndian(r0) == s3 + [High32(r3) as int];
    AppendTop(c, s, r0);
    AppendTop(c, s1, r1);
    AppendTop(c, s2, r2);
    AppendTop(c, s3, r3);
  }
}
