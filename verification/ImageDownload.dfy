/** download_image of common/apps/modem_control/modem_boot.c. */
module ImageDownload {
  import opened Bytes
  import opened Sequences
  import Packet
  import Checksum

  const HS_PACKET_SIZE: nat := 60 * 1024
  const INT_MAX: nat := 0x7FFF_FFFF

  /** `count`: the number of packets for an image. */
  function Count(size: nat): nat {
    (size + HS_PACKET_SIZE - 1) / HS_PACKET_SIZE
  }

  /** The offset of packet `k` in the image. */
  function Start(k: nat): nat {
    k * HS_PACKET_SIZE
  }

  lemma StartNext(k: nat)
    ensures Start(k + 1) == Start(k) + HS_PACKET_SIZE
  {
  }

  lemma {:induction false} StartOrder(k: nat, n: nat)
    requires k <= n
    ensures Start(k) <= Start(n)
    decreases n
  {
    if k < n {
      StartNext(n - 1);
      StartOrder(k, n - 1);
    }
  }

  /** The image as it is announced: its bytes, filled up with 0xFF to whole packets. */
  function Announced(file: seq<byte>, size: nat): (b: seq<byte>)
    requires size <= |file|
    ensures |b| == Start(Count(size))
  {
    CountBounds(size);
    file[..size] + Padding(Start(Count(size)) - size)
  }

  function Padding(n: nat): (b: seq<byte>)
    ensures |b| == n
  {
    seq(n, _ => 0xFF)
  }

  lemma CountBounds(size: nat)
    ensures size <= Start(Count(size)) < size + HS_PACKET_SIZE
  {
    var n := size + HS_PACKET_SIZE - 1;
    assert n / HS_PACKET_SIZE * HS_PACKET_SIZE == n - n % HS_PACKET_SIZE;
  }

  /** The payload of packet `k`. */
  function Payload(file: seq<byte>, size: nat, k: nat): (p: seq<byte>)
    requires size <= |file| && k < Count(size)
    ensures |p| == HS_PACKET_SIZE
  {
    PacketInside(size, k);
    Announced(file, size)[Start(k)..Start(k + 1)]
  }

  lemma PacketInside(size: nat, k: nat)
    requires k < Count(size)
    ensures Start(k) < size && Start(k + 1) <= Start(Count(size)) && Start(k + 1) == Start(k) + HS_PACKET_SIZE
  {
    hide Count;
    CountBounds(size);
    StartNext(k);
    StartOrder(k + 1, Count(size));
  }

  /** The frames of the first `n` packets: an SPI header and the payload each. */
  function Frames(file: seq<byte>, size: nat, n: nat): (f: seq<seq<byte>>)
    requires size <= |file| && n <= Count(size)
    ensures |f| == n
  {
    seq(n, k requires 0 <= k < n => PacketFrame(Payload(file, size, k)))
  }

  function PacketFrame(payload: seq<byte>): (f: seq<byte>)
    ensures |f| == |payload| + 8
  {
    Packet.SpiHeader(Packet.MidstData, |payload|, payload) + payload
  }

  /** The payloads of the first `n` packets. */
  function Payloads(file: seq<byte>, size: nat, n: nat): (p: seq<seq<byte>>)
    requires size <= |file| && n <= Count(size)
    ensures |p| == n
  {
    if n == 0 then [] else Payloads(file, size, n - 1) + [Payload(file, size, n - 1)]
  }

  lemma {:induction false} FramesCarryPayloads(file: seq<byte>, size: nat, n: nat, k: nat)
    requires size <= |file| && k < n <= Count(size)
    ensures Frames(file, size, n)[k][8..] == Payloads(file, size, n)[k] == Payload(file, size, k)
  {
    if k < n - 1 {
      FramesCarryPayloads(file, size, n - 1, k);
    }
  }

  /** The payloads together are the image followed by 0xFF, as long as the start message announced. */
  lemma {:induction false} PayloadsAreTheImage(file: seq<byte>, size: nat, n: nat)
    requires size <= |file| && n <= Count(size)
    ensures Start(n) <= |Announced(file, size)|
    ensures Concat(Payloads(file, size, n)) == Announced(file, size)[..Start(n)]
  {
    hide Announced, Count;
    StartOrder(n, Count(size));
    if n > 0 {
      var p := Payloads(file, size, n);
      PayloadsAreTheImage(file, size, n - 1);
      PacketInside(size, n - 1);
      Adjacent(Announced(file, size), Start(n - 1), Start(n));
      assert p[..n - 1] == Payloads(file, size, n - 1);
    }
  }

  lemma Adjacent(all: seq<byte>, i: nat, j: nat)
    requires i <= j <= |all|
    ensures all[..i] + all[i..j] == all[..j]
  {
  }

  /** Every frame carries a header that verifies. */
  lemma FrameVerifies(payload: seq<byte>)
    ensures Checksum.Computed(PacketFrame(payload)[..8]) == 0
  {
    Packet.SpiHeaderVerifies(Packet.MidstData, |payload|, payload);
    assert PacketFrame(payload)[..8] == Packet.SpiHeader(Packet.MidstData, |payload|, payload);
  }

  /**
    What a receiver by the book gets: from every frame the payload of its packet, byte for byte the
    image, and 0xFF behind its end. There are as many packets as the image needs.
  */
  lemma FramesDeliver(file: seq<byte>, size: nat, n: nat, k: nat)
    requires size <= |file| && k < n <= Count(size)
    ensures Count(size) * 61440 < size + 61440 && size <= Count(size) * 61440
    ensures var r := Packet.ReceiveSpi(Frames(file, size, n)[k]);
            && r.Accepted? && r.code == 2 && |r.payload| == 61440
            && forall i :: 0 <= i < 61440
                           ==> r.payload[i] == if k * 61440 + i < size then file[k * 61440 + i] else 0xFF
  {
    hide Packet.SpiHeader, Count, Announced;
    CountBounds(size);
    PacketInside(size, k);
    var payload := Payload(file, size, k);
    Packet.HeaderReceived(Packet.MidstData, HS_PACKET_SIZE, payload, payload);
    AnnouncedAt(file, size);
    forall i | 0 <= i < HS_PACKET_SIZE ensures payload[i] == Announced(file, size)[Start(k) + i] {
    }
  }

  lemma AnnouncedAt(file: seq<byte>, size: nat)
    requires size <= |file|
    ensures forall i :: 0 <= i < |Announced(file, size)| ==> Announced(file, size)[i] == if i < size then file[i] else 0xFF
  {
    hide Start;
    CountBounds(size);
  }

  // ---- The routine ----

  /** The outcome: `DL_SUCCESS` or not, what the start message announced, the frames, and whether END was sent. */
  datatype Sent = Sent(ok: bool, announced: int, frames: seq<seq<byte>>, ended: bool)

  /**
    The inner read loop: reads deliver between one byte and what is asked for, until the packet is
    full or the file ends.
  */
  method FillPacket(file: seq<byte>, start: nat, chunk: nat -> nat, buffer: array<byte>)
    returns (pos: nat)
    requires start <= |file| && buffer.Length == HS_PACKET_SIZE + 64
    modifies buffer
    ensures pos == if |file| - start < HS_PACKET_SIZE then |file| else start + HS_PACKET_SIZE
    ensures buffer[8..8 + pos - start] == file[start..pos]
  {
    pos := start;
    var packetSize, p := HS_PACKET_SIZE, 8;
    while packetSize > 0
      invariant start <= pos <= |file| && 0 <= packetSize
      invariant p == 8 + pos - start && packetSize == HS_PACKET_SIZE - (pos - start)
      invariant forall k :: start <= k < pos ==> buffer[8 + k - start] == file[k]
      decreases packetSize
    {
      var n := ReadLength(chunk(pos), packetSize, |file| - pos);
      if n == 0 {
        break;
      }
      forall i | 0 <= i < n {
        buffer[p + i] := file[pos + i];
      }
      packetSize, p, pos := packetSize - n, p + n, pos + n;
    }
  }

  /** How many bytes a read delivers: at least one unless the file has ended, and no more than asked for. */
  function ReadLength(chunk: nat, want: nat, left: nat): (n: nat)
    ensures n <= want && n <= left
    ensures n == 0 <==> want == 0 || left == 0
  {
    var most := if want < left then want else left;
    if chunk == 0 then (if most == 0 then 0 else 1) else if chunk < most then chunk else most
  }

  /** The padding loop, which counts with the packet counter: it leaves `i` at HS_PACKET_SIZE. */
  method Pad(buffer: array<byte>, rest: nat) returns (i: nat)
    requires rest <= HS_PACKET_SIZE && buffer.Length == HS_PACKET_SIZE + 64
    modifies buffer
    ensures i == HS_PACKET_SIZE
    ensures buffer[8..8 + HS_PACKET_SIZE] == old(buffer[8..8 + rest]) + Padding(HS_PACKET_SIZE - rest)
  {
    i := rest;
    while i < HS_PACKET_SIZE
      invariant rest <= i <= HS_PACKET_SIZE
      invariant forall k :: 0 <= k < 8 + rest ==> buffer[k] == old(buffer[k])
      invariant forall k :: 8 + rest <= k < 8 + i ==> buffer[k] == 0xFF
    {
      buffer[i + 8] := 0xFF;
      i := i + 1;
    }
  }

  /** Read and, if this is the last and incomplete packet, pad. */
  method ReadPacket(file: seq<byte>, size: nat, pos: nat, rest: nat, chunk: nat -> nat,
                    buffer: array<byte>, counter: nat)
    returns (pos': nat, counter': nat)
    requires size <= |file| && buffer.Length == HS_PACKET_SIZE + 64
    requires pos <= |file| && rest == size - pos
    modifies buffer
    ensures buffer[8..8 + HS_PACKET_SIZE] ==
            if rest < HS_PACKET_SIZE then file[pos..pos + rest] + Padding(HS_PACKET_SIZE - rest)
            else file[pos..pos + HS_PACKET_SIZE]
    ensures counter' == if rest < HS_PACKET_SIZE then HS_PACKET_SIZE else counter
    ensures rest >= HS_PACKET_SIZE ==> pos' == pos + HS_PACKET_SIZE
  {
    counter' := counter;
    pos' := FillPacket(file, pos, chunk, buffer);
    if rest < HS_PACKET_SIZE {
      assert buffer[8..8 + rest] == file[pos..pos + rest] by {
        assert buffer[8..8 + rest] == buffer[..][8..8 + rest];
        assert buffer[8..8 + pos' - pos] == buffer[..][8..8 + pos' - pos];
        Shorter(buffer[..], 8, file, pos, pos' - pos, rest);
      }
      counter' := Pad(buffer, rest);
    }
  }

  /** Slices that agree agree on every shorter length. */
  lemma Shorter(a: seq<byte>, i: nat, b: seq<byte>, j: nat, n: nat, m: nat)
    requires m <= n && i + n <= |a| && j + n <= |b| && a[i..i + n] == b[j..j + n]
    ensures a[i..i + m] == b[j..j + m]
  {
    assert a[i..i + m] == a[i..i + n][..m];
    assert b[j..j + m] == b[j..j + n][..m];
  }

  /** send_data_message: the payload at offset 8 goes out behind its header. */
  method FramePayload(buffer: array<byte>) returns (frame: seq<byte>)
    requires buffer.Length == HS_PACKET_SIZE + 64
    modifies buffer
    ensures frame == PacketFrame(old(buffer[8..8 + HS_PACKET_SIZE]))
  {
    hide Packet.SpiHeader, Packet.SpiImage;
    ghost var before := buffer[..];
    var total := Packet.SetupPacket(Packet.MidstData, buffer, 8, HS_PACKET_SIZE, false);
    ImageIsFrame(before, buffer[..]);
    frame := buffer[..total];
  }

  lemma ImageIsFrame(before: seq<byte>, after: seq<byte>)
    requires |before| == HS_PACKET_SIZE + 64
    requires after == Packet.SpiImage(Packet.MidstData, before, 8, HS_PACKET_SIZE)
    ensures |after| == |before|
    ensures after[..HS_PACKET_SIZE + 8] == PacketFrame(before[8..8 + HS_PACKET_SIZE])
  {
    hide Packet.SpiHeader, Packet.SpiImage;
    Packet.SpiImageShape(Packet.MidstData, before, 8, HS_PACKET_SIZE);
    var frame := after[..HS_PACKET_SIZE + 8];
    assert frame[..8] == after[..8];
    assert frame[8..] == after[8..][..HS_PACKET_SIZE] == before[8..][..HS_PACKET_SIZE];
    assert before[8..][..HS_PACKET_SIZE] == before[8..8 + HS_PACKET_SIZE];
    assert frame == frame[..8] + frame[8..];
  }

  /** One packet: read, pad, set up. Returns the frame that is written. */
  method MakePacket(file: seq<byte>, size: nat, k: nat, pos: nat, rest: nat, chunk: nat -> nat,
                    buffer: array<byte>, counter: nat)
    returns (frame: seq<byte>, pos': nat, counter': nat)
    requires size <= |file| && k < Count(size) && buffer.Length == HS_PACKET_SIZE + 64
    requires pos == Start(k) <= |file| && rest == size - pos
    modifies buffer
    ensures frame == PacketFrame(Payload(file, size, k))
    ensures counter' == if rest < HS_PACKET_SIZE then HS_PACKET_SIZE else counter
    ensures rest >= HS_PACKET_SIZE ==> pos' == pos + HS_PACKET_SIZE
  {
    hide PacketFrame, Payload, Count, Start, Padding;
    pos', counter' := ReadPacket(file, size, pos, rest, chunk, buffer, counter);
    PayloadIs(file, size, k, buffer[8..8 + HS_PACKET_SIZE]);
    frame := FramePayload(buffer);
  }

  lemma PayloadIs(file: seq<byte>, size: nat, k: nat, payload: seq<byte>)
    requires size <= |file| && k < Count(size) && Start(k) <= size
    requires payload == if size - Start(k) < HS_PACKET_SIZE
                        then file[Start(k)..size] + Padding(HS_PACKET_SIZE - (size - Start(k)))
                        else file[Start(k)..Start(k) + HS_PACKET_SIZE]
    ensures payload == Payload(file, size, k)
  {
    hide Count, Start, Padding;
    PacketInside(size, k);
    CountBounds(size);
    var image, padding := file[..size], Padding(Start(Count(size)) - size);
    if size - Start(k) < HS_PACKET_SIZE {
      LastPacket(size, k);
      SliceToEnd(image, padding, Start(k));
      assert image[Start(k)..] == file[Start(k)..size];
    } else {
      SliceInFront(image, padding, Start(k), Start(k) + HS_PACKET_SIZE);
      assert image[Start(k)..Start(k) + HS_PACKET_SIZE] == file[Start(k)..Start(k) + HS_PACKET_SIZE];
    }
  }

  lemma SliceInFront(a: seq<byte>, b: seq<byte>, i: nat, j: nat)
    requires i <= j <= |a|
    ensures (a + b)[i..j] == a[i..j]
  {
  }

  lemma SliceToEnd(a: seq<byte>, b: seq<byte>, i: nat)
    requires i <= |a|
    ensures (a + b)[i..|a| + |b|] == a[i..] + b
  {
  }

  /** A packet that is not full is the last one. */
  lemma LastPacket(size: nat, k: nat)
    requires k < Count(size) && size - Start(k) < HS_PACKET_SIZE
    ensures k + 1 == Count(size)
  {
    CountBounds(size);
  }

  /** Even the padding loop, which moves the packet counter to 61440, cannot hide a packet. */
  lemma CounterIsLarge(size: nat)
    requires size <= INT_MAX
    ensures Count(size) <= HS_PACKET_SIZE
  {
  }

  /**
    download_image for a file that opens. `acked(m)` tells whether message `m` is acknowledged:
    message 0 is START, message k + 1 is packet k, and END follows.
  */
  method DownloadImage(file: seq<byte>, size: nat, acked: nat -> bool, chunk: nat -> nat, buffer: array<byte>)
    returns (sent: Sent)
    requires size <= |file| && size + HS_PACKET_SIZE - 1 <= INT_MAX
    requires buffer.Length == HS_PACKET_SIZE + 64
    modifies buffer
    ensures sent.announced == Start(Count(size))
    ensures |sent.frames| <= Count(size) && sent.frames == Frames(file, size, |sent.frames|)
    ensures (forall m :: 0 <= m <= Count(size) ==> acked(m)) <==> sent.ended
    ensures sent.ended ==> |sent.frames| == Count(size) && sent.ok == acked(Count(size) + 1)
    ensures !sent.ended ==> !sent.ok && !acked(|sent.frames|)
  {
    hide Frames, PacketFrame, Payload, Count, Start;
    CounterIsLarge(size);
    StartZero();
    var imageSize: int := size;
    var count := Count(size);
    sent := Sent(false, Start(count), [], false);
    FramesNone(file, size);
    if !acked(0) {
      return;
    }
    var i: int, pos: nat := 0, 0;
    while i < count
      invariant 0 <= i && |sent.frames| <= count
      invariant |sent.frames| == if i < count then i else count
      invariant i < count ==> pos == Start(i) && imageSize == size - pos
      invariant sent == Sent(false, Start(count), Frames(file, size, |sent.frames|), false)
      invariant forall m :: 0 <= m <= |sent.frames| ==> acked(m)
      decreases count - i
    {
      ghost var k := i;
      PacketInside(size, k);
      var frame;
      frame, pos, i := MakePacket(file, size, i, pos, imageSize, chunk, buffer, i);
      if imageSize < HS_PACKET_SIZE {
        LastPacket(size, k);
        imageSize := 0;
      } else {
        imageSize := imageSize - HS_PACKET_SIZE;
      }
      FramesNext(file, size, k);
      sent := sent.(frames := sent.frames + [frame]);
      if !acked(|sent.frames|) {
        return;
      }
      i := i + 1;
    }
    sent := sent.(ok := acked(count + 1), ended := true);
  }

  lemma StartZero()
    ensures Start(0) == 0
  {
  }

  lemma FramesNone(file: seq<byte>, size: nat)
    requires size <= |file|
    ensures Frames(file, size, 0) == []
  {
  }

  lemma FramesNext(file: seq<byte>, size: nat, k: nat)
    requires size <= |file| && k < Count(size)
    ensures Frames(file, size, k + 1) == Frames(file, size, k) + [PacketFrame(Payload(file, size, k))]
  {
  }
}
