/** setup_packet of common/apps/modem_control/packet.c. */
module Packet {
  import opened Bytes
  import Checksum
  import Crc16L
  import ByteStuffing

  /** The commands setup_packet knows, and the rest of `CMD_TYPE`. */
  datatype Command = Connect | StartData | MidstData | EndData | ExecData | SwitchMode | Other

  function Code(msg: Command): (w: nat)
    ensures w < 0x100
  {
    match msg
    case Connect => 0x0
    case StartData => 0x1
    case MidstData => 0x2
    case EndData => 0x3
    case ExecData => 0x4
    case SwitchMode => 0x0D
    case Other => 0x5
  }

  /** The commands whose UART packets carry the CRC. */
  predicate CarriesCrc(msg: Command) {
    msg in {StartData, MidstData, EndData, ExecData}
  }

  // ---- UART packets ----

  function BigEndian16(w: nat): (s: seq<byte>)
    requires w < 0x1_0000
    ensures |s| == 2
  {
    [w / 0x100, w % 0x100]
  }

  /** Type and length in network order; the length is truncated to 16 bits. */
  function UartHeader(msg: Command, size: nat): (s: seq<byte>)
    ensures |s| == 4
  {
    BigEndian16(Code(msg)) + BigEndian16(size % 0x1_0000)
  }

  /** The two check bytes that follow header and payload. */
  function Check(msg: Command, body: seq<byte>): (s: seq<byte>)
    ensures |s| == 2
  {
    match msg
    case Connect => [0, 0]
    case SwitchMode => LittleEndian(Checksum.Computed(body))
    case _ => Crc16L.BigEndian(Crc16L.Crc16(body))
  }

  function UartPacket(msg: Command, payload: seq<byte>): (s: seq<byte>)
    ensures |s| == |payload| + 6
  {
    var body := UartHeader(msg, |payload|) + payload;
    body + Check(msg, body)
  }

  /** `CRC_16_L_OK`: the CRC over header, payload and the appended CRC is 0, whatever the payload. */
  lemma UartPacketVerifies(msg: Command, payload: seq<byte>)
    requires CarriesCrc(msg)
    ensures Crc16L.Crc16(UartPacket(msg, payload)) == 0
  {
    Crc16L.AppendLaw(UartHeader(msg, |payload|) + payload);
  }

  /** The mode switch is checked by frm_chk instead; it verifies whenever the payload has even length. */
  lemma SwitchPacketVerifies(payload: seq<byte>)
    requires |payload| % 2 == 0 && |payload| + 6 <= 2 * Checksum.MAX_WORDS
    ensures Checksum.Computed(UartPacket(SwitchMode, payload)) == 0
  {
    hide UartHeader, Checksum.Computed;
    Checksum.SealEven(UartHeader(SwitchMode, |payload|) + payload);
  }

  datatype Received = Rejected | Accepted(code: nat, payload: seq<byte>)

  /** A receiver by the book: RFC 1662 framing, CRC over the whole packet, length as announced. */
  function Receive(frame: seq<byte>): Received {
    match ByteStuffing.Rfc1662Decode(frame)
    case None => Rejected
    case Some(p) =>
      if |p| < 6 || Crc16L.Crc16(p) != 0 || Word(p[3], p[2]) != |p| - 6 then Rejected
      else Accepted(Word(p[1], p[0]), p[4..|p| - 2])
  }

  /** What goes through setup_packet and translate_packet comes out of such a receiver unchanged. */
  lemma ReceiveInvertsSend(msg: Command, payload: seq<byte>)
    requires CarriesCrc(msg) && |payload| < 0x1_0000
    ensures Receive(ByteStuffing.Frame(UartPacket(msg, payload)))
            == Accepted(if msg == StartData then 1 else if msg == MidstData then 2
                        else if msg == EndData then 3 else 4, payload)
  {
    hide Crc16L.Crc16, ByteStuffing.Frame, ByteStuffing.Rfc1662Decode;
    var p := UartPacket(msg, payload);
    UartPacketVerifies(msg, payload);
    ByteStuffing.DecodeFrame(p);
    UartFields(msg, payload);
  }

  /** Type and length in network order, and the payload behind them. */
  lemma UartFields(msg: Command, payload: seq<byte>)
    requires |payload| < 0x1_0000 && msg != Other
    ensures var p := UartPacket(msg, payload);
            var code := match msg
                        case Connect => 0 case StartData => 1 case MidstData => 2 case EndData => 3
                        case ExecData => 4 case SwitchMode => 0x0D;
            && Word(p[1], p[0]) == code && Word(p[3], p[2]) == |payload| && p[4..|p| - 2] == payload
  {
    hide Check;
    var p := UartPacket(msg, payload);
    assert p[..4] == UartHeader(msg, |payload|);
    assert p[0] == p[..4][0] && p[1] == p[..4][1] && p[2] == p[..4][2] && p[3] == p[..4][3];
    assert p[4..|p| - 2] == payload;
  }

  // ---- SPI packets ----

  /** The length field: END and SWITCH announce 4, and so does MIDST when it carries nothing. */
  function SpiLength(msg: Command, size: nat): nat {
    match msg
    case MidstData => if size == 0 then 4 else size
    case EndData => 4
    case SwitchMode => 4
    case _ => size
  }

  /** Length, type and checksum of the data. */
  function SpiSix(msg: Command, size: nat, data: seq<byte>): (s: seq<byte>)
    ensures |s| == 6
  {
    LittleEndian(SpiLength(msg, size) % 0x1_0000) + LittleEndian(Code(msg)) + LittleEndian(Checksum.Computed(data))
  }

  /** Those six bytes and a checksum over them. */
  function SpiHeader(msg: Command, size: nat, data: seq<byte>): (s: seq<byte>)
    ensures |s| == 8
  {
    var six := SpiSix(msg, size, data);
    six + LittleEndian(Checksum.Computed(six))
  }

  /** boot_checksum over the eight header bytes of any SPI packet is 0. */
  lemma SpiHeaderVerifies(msg: Command, size: nat, data: seq<byte>)
    ensures Checksum.Computed(SpiHeader(msg, size, data)) == 0
  {
    Checksum.SealEven(SpiSix(msg, size, data));
  }

  /** CONNECT clears two bytes behind the header before the data checksum is taken. */
  function SpiStaged(msg: Command, b: seq<byte>): (r: seq<byte>)
    requires |b| >= 12
    ensures |r| == |b|
  {
    if msg == Connect then Overlay(b, 8, [0, 0]) else b
  }

  /** END and SWITCH clear four bytes behind the header after everything else. */
  function SpiImage(msg: Command, b: seq<byte>, offset: nat, size: nat): (r: seq<byte>)
    requires |b| >= 12 && offset + size <= |b|
    ensures |r| == |b|
  {
    var staged := SpiStaged(msg, b);
    var headed := Overlay(staged, 0, SpiHeader(msg, size, staged[offset..offset + size]));
    if msg in {EndData, SwitchMode} then Overlay(headed, 8, [0, 0, 0, 0]) else headed
  }

  /** Every SPI image starts with its header; START, MIDST and EXEC leave everything behind it alone. */
  lemma SpiImageShape(msg: Command, b: seq<byte>, offset: nat, size: nat)
    requires |b| >= 12 && offset + size <= |b|
    ensures SpiImage(msg, b, offset, size)[..8] == SpiHeader(msg, size, SpiStaged(msg, b)[offset..offset + size])
    ensures Checksum.Computed(SpiImage(msg, b, offset, size)[..8]) == 0
    ensures msg in {StartData, MidstData, ExecData} ==> SpiImage(msg, b, offset, size)[8..] == b[8..]
  {
    hide Checksum.Computed, SpiHeader;
    SpiHeaderVerifies(msg, size, SpiStaged(msg, b)[offset..offset + size]);
  }

  // ---- A receiver of SPI packets ----

  /** By the book: header checksum, announced length, and the checksum of the data behind the header. */
  function ReceiveSpi(frame: seq<byte>): Received {
    if |frame| < 8 || Checksum.Rfc1071(frame[..8]) != 0 || Word(frame[0], frame[1]) != |frame| - 8
       || Word(frame[4], frame[5]) != Checksum.Rfc1071(frame[8..])
    then Rejected
    else Accepted(Word(frame[2], frame[3]), frame[8..])
  }

  lemma HeaderFields(msg: Command, size: nat, data: seq<byte>)
    ensures var h := SpiHeader(msg, size, data);
            && Word(h[0], h[1]) == SpiLength(msg, size) % 0x1_0000
            && Word(h[2], h[3]) == Code(msg)
            && Word(h[4], h[5]) == Checksum.Computed(data)
  {
    hide Checksum.Computed, SpiLength, Code;
    var h, six := SpiHeader(msg, size, data), SpiSix(msg, size, data);
    assert h[0] == six[0] && h[1] == six[1] && h[2] == six[2] && h[3] == six[3] && h[4] == six[4] && h[5] == six[5];
    assert six[0..2] == LittleEndian(SpiLength(msg, size) % 0x1_0000);
    assert six[2..4] == LittleEndian(Code(msg));
    assert six[4..6] == LittleEndian(Checksum.Computed(data));
    WordOf(six, 0, SpiLength(msg, size) % 0x1_0000);
    WordOf(six, 2, Code(msg));
    WordOf(six, 4, Checksum.Computed(data));
  }

  lemma WordOf(s: seq<byte>, at: nat, w: nat)
    requires at + 2 <= |s| && w < 0x1_0000 && s[at..at + 2] == LittleEndian(w)
    ensures Word(s[at], s[at + 1]) == w
  {
    assert s[at] == s[at..at + 2][0] && s[at + 1] == s[at..at + 2][1];
  }

  /** A header in front of the data it was made for is accepted exactly if it announces their length. */
  lemma HeaderReceived(msg: Command, size: nat, data: seq<byte>, tail: seq<byte>)
    requires |data| <= 2 * Checksum.MAX_WORDS && |tail| <= 2 * Checksum.MAX_WORDS
    requires Checksum.Rfc1071(tail) == Checksum.Rfc1071(data)
    ensures ReceiveSpi(SpiHeader(msg, size, data) + tail)
            == if SpiLength(msg, size) % 0x1_0000 == |tail| then Accepted(Code(msg), tail) else Rejected
  {
    hide Checksum.Computed, Checksum.Rfc1071, SpiHeader, SpiLength, Code;
    var h := SpiHeader(msg, size, data);
    var frame := h + tail;
    SpiHeaderVerifies(msg, size, data);
    Checksum.ComputedIsRfc1071(h);
    Checksum.ComputedIsRfc1071(data);
    HeaderFields(msg, size, data);
    assert frame[..8] == h && frame[8..] == tail;
  }

  /**
    What goes through the SPI branch of setup_packet with the payload behind the header comes out of
    such a receiver unchanged, unless the 16-bit length field cannot hold its size or it is empty.
  */
  lemma SpiReceiveInvertsSend(msg: Command, b: seq<byte>, size: nat)
    requires msg in {StartData, MidstData, ExecData} && |b| >= 12 && 8 + size <= |b|
    ensures ReceiveSpi(SpiImage(msg, b, 8, size)[..size + 8])
            == if size < 0x1_0000 && (size > 0 || msg != MidstData) then
                 Accepted(if msg == StartData then 1 else if msg == MidstData then 2 else 4, b[8..8 + size])
               else Rejected
  {
    hide Checksum.Computed, Checksum.Rfc1071, SpiHeader, SpiImage;
    var image, payload := SpiImage(msg, b, 8, size), b[8..8 + size];
    var h := SpiHeader(msg, size, payload);
    SpiImageShape(msg, b, 8, size);
    var frame := image[..size + 8];
    assert frame[..8] == image[..8] == h;
    assert frame[8..] == image[8..][..size] == b[8..][..size] == payload;
    assert frame == h + payload;
    if size < 0x1_0000 {
      HeaderReceived(msg, size, payload, payload);
    } else {
      HeaderFields(msg, size, payload);
    }
  }

  /** END and SWITCH without data are received with the four zero bytes that stand in for them. */
  lemma ShortSpiReceived(msg: Command, b: seq<byte>)
    requires msg in {EndData, SwitchMode} && |b| >= 12
    ensures ReceiveSpi(SpiImage(msg, b, 8, 0)[..12]) == Accepted(if msg == EndData then 3 else 0x0D, [0, 0, 0, 0])
  {
    hide Checksum.Computed, Checksum.Rfc1071, SpiHeader;
    var h := SpiHeader(msg, 0, []);
    assert b[8..8] == [];
    assert SpiImage(msg, b, 8, 0)[..12] == h + [0, 0, 0, 0];
    NothingSums();
    HeaderReceived(msg, 0, [], [0, 0, 0, 0]);
  }

  /** CONNECT goes out as a header without data, two zero bytes and two bytes of whatever was there. */
  lemma ConnectReceived(b: seq<byte>)
    requires |b| >= 12
    ensures ReceiveSpi(SpiImage(Connect, b, 8, 0)[..8]) == Accepted(0, [])
    ensures SpiImage(Connect, b, 8, 0)[8..] == [0, 0] + b[10..]
  {
    hide Checksum.Computed, Checksum.Rfc1071, SpiHeader;
    var h := SpiHeader(Connect, 0, []);
    assert SpiStaged(Connect, b)[8..8] == [];
    assert SpiImage(Connect, b, 8, 0)[..8] == h == h + [];
    HeaderReceived(Connect, 0, [], []);
  }

  lemma NothingSums()
    ensures Checksum.Rfc1071([]) == Checksum.Rfc1071([0, 0, 0, 0])
  {
    hide Checksum.OnesSum;
    Checksum.ZeroWord([0, 0]);
    Checksum.ZeroWord([]);
    assert [0, 0] + [0, 0] == [0, 0, 0, 0] && [0, 0] + [] == [0, 0];
  }

  // ---- The routine ----

  /** `cpu2be16`: swaps the two bytes of a 16-bit value. */
  function Cpu2Be16(w: nat): (r: nat)
    requires w < 0x1_0000
    ensures r < 0x1_0000 && LittleEndian(r) == BigEndian16(w)
  {
    w % 0x100 * 0x100 + w / 0x100
  }

  method StoreUartHeader(msg: Command, buffer: array<byte>, size: nat)
    requires 8 <= buffer.Length
    modifies buffer
    ensures buffer[..] == Overlay(old(buffer[..]), 4, UartHeader(msg, size))
  {
    hide Overlay;
    Store16(buffer, 4, Cpu2Be16(Code(msg)));
    Store16(buffer, 6, Cpu2Be16(size % 0x1_0000));
    OverlayTwice(old(buffer[..]), 4, BigEndian16(Code(msg)), BigEndian16(size % 0x1_0000));
  }

  lemma ZeroBytes()
    ensures LittleEndian(0) == [0, 0]
  {
  }

  /** Appends the check over the `length` bytes that start at `buffer[4]`. */
  method StoreCheck(msg: Command, buffer: array<byte>, length: nat)
    requires length + 6 <= buffer.Length
    modifies buffer
    ensures buffer[..] == Overlay(old(buffer[..]), length + 4, Check(msg, old(buffer[4..4 + length])))
  {
    hide Overlay, Crc16L.Crc16, Crc16L.BigEndian, Checksum.Computed, LittleEndian;
    match msg {
      case Connect =>
        ZeroBytes();
        Store16(buffer, length + 4, 0);
      case SwitchMode =>
        var chk := Checksum.FrmChk(buffer, 4, length);
        Store16(buffer, length + 4, chk);
      case _ =>
        var crc := Crc16L.Crc16LCalc(buffer, 4, length);
        StorePair(buffer, length + 4, Crc16L.BigEndian(crc));
    }
  }

  /** `*(unsigned short *)&buffer[at] = cpu2be16(crc)`: the swapped value leaves the high byte first. */
  method StorePair(buffer: array<byte>, at: nat, pair: seq<byte>)
    requires |pair| == 2 && at + 2 <= buffer.Length
    modifies buffer
    ensures buffer[..] == Overlay(old(buffer[..]), at, pair)
  {
    buffer[at] := pair[0];
    buffer[at + 1] := pair[1];
  }

  /** Writing the payload where it already lies changes nothing. */
  lemma BodyInPlace(b: seq<byte>, head: seq<byte>, payload: seq<byte>)
    requires |head| == 4 && 8 + |payload| <= |b| && payload == b[8..8 + |payload|]
    ensures Overlay(b, 4, head + payload) == Overlay(b, 4, head)
    ensures Overlay(b, 4, head)[4..8 + |payload|] == head + payload
  {
  }

  /**
    The UART branches. `buffer[4..]` receives the packet; the payload is expected at `buffer[8..]`
    and stays there, and no other byte changes.
  */
  method SetupUart(msg: Command, buffer: array<byte>, size: nat) returns (total: nat)
    requires size + 10 <= buffer.Length
    modifies buffer
    ensures total == size + 6
    ensures buffer[..] == Overlay(old(buffer[..]), 4, UartPacket(msg, old(buffer[8..8 + size])))
  {
    hide Overlay, UartHeader, Check;
    ghost var before, payload := buffer[..], buffer[8..8 + size];
    ghost var head := UartHeader(msg, size);
    var length := 4 + size;
    assert payload == before[8..8 + size];
    StoreUartHeader(msg, buffer, size);
    BodyInPlace(before, head, payload);
    assert buffer[4..4 + length] == buffer[..][4..4 + length];
    StoreCheck(msg, buffer, length);
    OverlayTwice(before, 4, head + payload, Check(msg, head + payload));
    total := length + 2;
  }

  /** Length and code, and for CONNECT the two zeros, are one store into the staged buffer. */
  lemma FourStages(msg: Command, b: seq<byte>, len: seq<byte>, code: seq<byte>, b3: seq<byte>)
    requires |b| >= 12 && |len| == |code| == 2
    requires var b2 := Overlay(Overlay(b, 0, len), 2, code);
             b3 == if msg == Connect then Overlay(b2, 8, [0, 0]) else b2
    ensures b3 == Overlay(SpiStaged(msg, b), 0, len + code)
  {
    hide Overlay;
    OverlayTwice(b, 0, len, code);
    if msg == Connect {
      OverlaySwap(b, 0, len + code, 8, [0, 0]);
    }
  }

  /** The stores that lead to the first six header bytes, as one store into the staged buffer. */
  lemma SixStages(msg: Command, b: seq<byte>, len: seq<byte>, code: seq<byte>, chk: seq<byte>, b3: seq<byte>)
    requires |b| >= 12 && |len| == |code| == |chk| == 2
    requires var b2 := Overlay(Overlay(b, 0, len), 2, code);
             b3 == if msg == Connect then Overlay(b2, 8, [0, 0]) else b2
    ensures b3[8..] == SpiStaged(msg, b)[8..]
    ensures Overlay(b3, 4, chk) == Overlay(SpiStaged(msg, b), 0, len + code + chk)
  {
    hide Overlay, SpiStaged;
    FourStages(msg, b, len, code, b3);
    OverlayBehind(SpiStaged(msg, b), 0, len + code, 8);
    OverlayTwice(SpiStaged(msg, b), 0, len + code, chk);
  }

  /** Slices behind the header agree when everything behind it does. */
  lemma SliceBehind(a: seq<byte>, b: seq<byte>, from: nat, to: nat)
    requires |a| == |b| && 8 <= from <= to <= |a| && a[8..] == b[8..]
    ensures a[from..to] == b[from..to]
  {
    assert a[from..to] == a[8..][from - 8..to - 8];
    assert b[from..to] == b[8..][from - 8..to - 8];
  }

  /** The first six header bytes, with the two bytes that CONNECT clears. */
  method StoreSpiSix(msg: Command, buffer: array<byte>, offset: nat, size: nat)
    requires buffer.Length >= 12 && 8 <= offset && offset + size <= buffer.Length
    modifies buffer
    ensures var staged := SpiStaged(msg, old(buffer[..]));
            buffer[..] == Overlay(staged, 0, SpiSix(msg, size, staged[offset..offset + size]))
  {
    hide Overlay, Checksum.Computed, LittleEndian, SpiStaged, SpiLength, Code;
    ghost var before := buffer[..];
    var len := SpiLength(msg, size) % 0x1_0000;
    Store16(buffer, 0, len);
    Store16(buffer, 2, Code(msg));
    if msg == Connect {
      ZeroBytes();
      Store16(buffer, 8, 0);
    }
    ghost var b3 := buffer[..];
    var chk := Checksum.BootChecksum(buffer, offset, size);
    SixStages(msg, before, LittleEndian(len), LittleEndian(Code(msg)), LittleEndian(chk), b3);
    assert buffer[offset..offset + size] == b3[offset..offset + size];
    SliceBehind(b3, SpiStaged(msg, before), offset, offset + size);
    Store16(buffer, 4, chk);
  }

  lemma ClearFour(b: seq<byte>)
    requires |b| >= 12
    ensures Overlay(Overlay(b, 8, [0, 0]), 10, [0, 0]) == Overlay(b, 8, [0, 0, 0, 0])
  {
  }

  /** The SPI branches: the packet is `buffer[..total]`. */
  method SetupSpi(msg: Command, buffer: array<byte>, offset: nat, size: nat) returns (total: nat)
    requires buffer.Length >= 12 && 8 <= offset && offset + size <= buffer.Length
    modifies buffer
    ensures total == if msg in {Connect, EndData, SwitchMode} then 12 else size + 8
    ensures buffer[..] == SpiImage(msg, old(buffer[..]), offset, size)
  {
    hide Overlay, Checksum.Computed, LittleEndian, SpiSix, SpiStaged;
    ghost var staged := SpiStaged(msg, buffer[..]);
    ghost var six := SpiSix(msg, size, staged[offset..offset + size]);
    StoreSpiSix(msg, buffer, offset, size);
    OverlayAt(staged, 0, six);
    var chk := Checksum.BootChecksum(buffer, 0, 6);
    OverlayTwice(staged, 0, six, LittleEndian(chk));
    Store16(buffer, 6, chk);
    if msg == EndData || msg == SwitchMode {
      ClearFour(buffer[..]);
      ZeroBytes();
      Store16(buffer, 8, 0);
      Store16(buffer, 10, 0);
      total := 12;
    } else if msg == Connect {
      total := 12;
    } else {
      total := size + 8;
    }
  }

  /** setup_packet. A command it does not know leaves the buffer alone and has no length. */
  method SetupPacket(msg: Command, buffer: array<byte>, offset: nat, size: nat, uart: bool) returns (total: nat)
    requires uart ==> size + 10 <= buffer.Length
    requires !uart ==> buffer.Length >= 12 && 8 <= offset && offset + size <= buffer.Length
    modifies buffer
    ensures msg == Other ==> total == 0 && buffer[..] == old(buffer[..])
    ensures msg != Other && uart ==> total == size + 6
    ensures msg != Other && uart
            ==> buffer[..] == Overlay(old(buffer[..]), 4, UartPacket(msg, old(buffer[8..8 + size])))
    ensures msg != Other && !uart ==> total == if msg in {Connect, EndData, SwitchMode} then 12 else size + 8
    ensures msg != Other && !uart ==> buffer[..] == SpiImage(msg, old(buffer[..]), offset, size)
  {
    if msg == Other {
      total := 0;
    } else if uart {
      total := SetupUart(msg, buffer, size);
    } else {
      total := SetupSpi(msg, buffer, offset, size);
    }
  }
}
