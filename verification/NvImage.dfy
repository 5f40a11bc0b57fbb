/** The images that common/apps/nvm_daemon/nvitem.c keeps in files, and the pipe it is fed from. */
module NvImage {
  import opened Bytes
  import Checksum
  import Crc32b
  import CrcRegisters
  import ShiftRegister

  const FIXNV_SIZE: nat := 64 * 1024
  const DATA_BUF_LEN: nat := 2048 * 10

  const PRODUCTINFO_SIZE: nat := 3 * 1024

  /** Image, and four marker bytes behind it. */
  const FILE_SIZE: nat := FIXNV_SIZE + 4

  /** Data, four marker bytes and a CRC. */
  const PRODUCT_FILE_SIZE: nat := PRODUCTINFO_SIZE + 8

  const MARKER: seq<byte> := [0x5A, 0x5A, 0x5A, 0x5A]

  // ---- Files ----

  /** Writing `data` from the start of a file; what lies beyond stays. */
  function WriteFile(file: seq<byte>, data: seq<byte>): seq<byte> {
    if |file| <= |data| then data else data + file[|data|..]
  }

  /** A file while `data` is being written, when `k` bytes have reached it. */
  function Torn(file: seq<byte>, data: seq<byte>, k: nat): seq<byte>
    requires k <= |data|
  {
    WriteFile(file, data[..k])
  }

  /** `memset(buffer, 0xff, n); read(fd, buffer, n)`: what the file lacks reads as 0xff. */
  function Padded(file: seq<byte>, n: nat): (b: seq<byte>)
    ensures |b| == n
    ensures |file| >= n ==> b == file[..n]
  {
    (file + seq(n, _ => 0xFF))[..n]
  }

  /** Writing at an offset; a gap behind the end of the file fills with zeros. */
  function PutAt(file: seq<byte>, at: nat, bytes: seq<byte>): seq<byte> {
    if bytes == [] then file
    else
      var base := if |file| < at then file + seq(at - |file|, _ => 0) else file;
      base[..at] + bytes + if |base| <= at + |bytes| then [] else base[at + |bytes|..]
  }

  lemma PutTwice(file: seq<byte>, at: nat, a: seq<byte>, b: seq<byte>)
    ensures PutAt(PutAt(file, at, a), at + |a|, b) == PutAt(file, at, a + b)
  {
    if a == [] {
      assert a + b == b;
    } else if b == [] {
      assert a + b == a;
    }
  }

  // ---- Sealed images ----

  /** The first FILE_SIZE bytes of a whole, undamaged image file. */
  predicate SealedImage(b: seq<byte>) {
    |b| == FILE_SIZE && Checksum.Computed(b[..FIXNV_SIZE - 2]) == 0 && b[FIXNV_SIZE..] == MARKER
  }

  predicate Sealed(file: seq<byte>) {
    |file| >= FILE_SIZE && SealedImage(file[..FILE_SIZE])
  }

  /** What update_fixnvfile makes of the buffer: checksum, index and marker behind the data. */
  function Seal(b: seq<byte>, index: nat): (r: seq<byte>)
    requires |b| == FILE_SIZE
    ensures |r| == FILE_SIZE
  {
    b[..FIXNV_SIZE - 4] + LittleEndian(Checksum.Computed(b[..FIXNV_SIZE - 4]))
      + LittleEndian((index + 1) % 100) + MARKER
  }

  /** A sealed image verifies: the checksum over data and stored checksum is 0. */
  lemma SealSeals(b: seq<byte>, index: nat)
    requires |b| == FILE_SIZE
    ensures SealedImage(Seal(b, index))
  {
    hide Checksum.Computed, LittleEndian;
    var data := b[..FIXNV_SIZE - 4];
    var r := Seal(b, index);
    assert r[..FIXNV_SIZE - 2] == data + LittleEndian(Checksum.Computed(data));
    assert r[FIXNV_SIZE..] == MARKER;
    Checksum.SealEven(data);
  }

  /** The index stored in a buffer. */
  function IndexOf(b: seq<byte>): nat
    requires |b| == FILE_SIZE
  {
    Word(b[FIXNV_SIZE - 2], b[FIXNV_SIZE - 1])
  }

  /** The image a completed fixnv request leaves, given the file it found. */
  function Served(file: seq<byte>, offset: nat, payload: seq<byte>): (r: seq<byte>)
    requires offset + |payload| <= FILE_SIZE
    ensures |r| == FILE_SIZE
  {
    var loaded := Padded(file, FILE_SIZE);
    Seal(Overlay(loaded, offset, payload), IndexOf(loaded))
  }

  /**
    A completed request leaves the payload where it belongs, the old bytes elsewhere below the
    trailer, a checksum that verifies, the next index modulo 100, and the marker.
  */
  lemma ServedImage(file: seq<byte>, offset: nat, payload: seq<byte>)
    requires offset + |payload| <= FILE_SIZE && |file| >= FILE_SIZE
    ensures var r := Served(file, offset, payload);
            && SealedImage(r)
            && (forall i :: 0 <= i < FIXNV_SIZE - 4
                            ==> r[i] == if offset <= i < offset + |payload| then payload[i - offset] else file[i])
            && IndexOf(r) == (Word(file[FIXNV_SIZE - 2], file[FIXNV_SIZE - 1]) + 1) % 100
  {
    hide Overlay, Checksum.Computed, LittleEndian, Word;
    var loaded := Padded(file, FILE_SIZE);
    var b := Overlay(loaded, offset, payload);
    OverlayAt(loaded, offset, payload);
    SealSeals(b, IndexOf(loaded));
    var r := Served(file, offset, payload);
    assert r[FIXNV_SIZE - 2..FIXNV_SIZE] == LittleEndian((IndexOf(loaded) + 1) % 100);
    assert r[FIXNV_SIZE - 2] == r[FIXNV_SIZE - 2..FIXNV_SIZE][0];
    assert r[FIXNV_SIZE - 1] == r[FIXNV_SIZE - 2..FIXNV_SIZE][1];
    assert r[..FIXNV_SIZE - 4] == b[..FIXNV_SIZE - 4];
    forall i | 0 <= i < FIXNV_SIZE - 4
      ensures r[i] == if offset <= i < offset + |payload| then payload[i - offset] else file[i]
    {
      assert r[i] == r[..FIXNV_SIZE - 4][i] == b[i];
    }
  }

  /** What update_productinfofile_emmc writes: data, marker, CRC over both. */
  function ProductImage(data: seq<byte>): (r: seq<byte>)
    ensures |r| == |data| + 8
  {
    data + MARKER + Crc32b.BigEndian(ShiftRegister.Crc(CrcRegisters.CRC32, 0xFFFF_FFFF, data + MARKER))
  }

  /** A sealed productinfo image verifies: crc32b over all of it is 0, whatever the data. */
  lemma ProductImageVerifies(data: seq<byte>)
    ensures ShiftRegister.Crc(CrcRegisters.CRC32, 0xFFFF_FFFF, ProductImage(data)) == 0
  {
    Crc32b.AppendLaw(0xFFFF_FFFF, data + MARKER);
  }

  // ---- The pipe ----

  /** What reads find in the pipe, in order: data, an error, or an end of file (a reset). */
  datatype Item = Data(bytes: seq<byte>) | Failure | Reset

  datatype ReadOutcome = Got(bytes: seq<byte>) | Failed | Closed | Blocks

  /** One `read` of up to `want` bytes, and what it leaves in the pipe. */
  function Read(pipe: seq<Item>, want: nat): (ReadOutcome, seq<Item>) {
    if pipe == [] then (Blocks, [])
    else match pipe[0]
      case Failure => (Failed, pipe[1..])
      case Reset => (Closed, pipe[1..])
      case Data(b) =>
        if b == [] then (Closed, pipe[1..])
        else if |b| <= want then (Got(b), pipe[1..])
        else (Got(b[..want]), [Data(b[want..])] + pipe[1..])
  }

  /** The bytes that arrive before the first reset, however they are cut and whatever fails between them. */
  function Flat(pipe: seq<Item>): seq<byte> {
    if pipe == [] then []
    else match pipe[0]
      case Failure => Flat(pipe[1..])
      case Reset => []
      case Data(b) => if b == [] then [] else b + Flat(pipe[1..])
  }

  /** Whether the pipe is reset rather than merely silent after those bytes. */
  predicate EndsInReset(pipe: seq<Item>) {
    if pipe == [] then false
    else match pipe[0]
      case Failure => EndsInReset(pipe[1..])
      case Reset => true
      case Data(b) => b == [] || EndsInReset(pipe[1..])
  }

  /** As much of a payload of `size` bytes as the pipe yields. */
  function Arrived(input: seq<Item>, size: nat): (b: seq<byte>)
    ensures |b| <= size
  {
    if |Flat(input)| >= size then Flat(input)[..size] else Flat(input)
  }

  lemma FlatData(b: seq<byte>, tail: seq<Item>)
    requires b != []
    ensures Flat([Data(b)] + tail) == b + Flat(tail)
    ensures EndsInReset([Data(b)] + tail) == EndsInReset(tail)
  {
    assert ([Data(b)] + tail)[1..] == tail;
  }

  /** A pipe after a read holds what the read did not take. */
  predicate Continues(pipe: seq<Item>, r: ReadOutcome, rest: seq<Item>) {
    match r
    case Got(b) => Flat(pipe) == b + Flat(rest) && EndsInReset(pipe) == EndsInReset(rest)
    case Failed => Flat(pipe) == Flat(rest) && EndsInReset(pipe) == EndsInReset(rest)
    case Closed => Flat(pipe) == [] && EndsInReset(pipe)
    case Blocks => Flat(pipe) == [] && !EndsInReset(pipe)
  }

  lemma ReadContinues(pipe: seq<Item>, want: nat)
    requires want > 0
    ensures Continues(pipe, Read(pipe, want).0, Read(pipe, want).1)
    ensures Read(pipe, want).0.Got? ==> 0 < |Read(pipe, want).0.bytes| <= want
  {
    if pipe != [] && pipe[0].Data? && pipe[0].bytes != [] {
      var b := pipe[0].bytes;
      hide Flat, EndsInReset;
      assert pipe == [Data(b)] + pipe[1..];
      FlatData(b, pipe[1..]);
      if |b| > want {
        FlatData(b[want..], pipe[1..]);
        assert b + Flat(pipe[1..]) == b[..want] + (b[want..] + Flat(pipe[1..]));
      }
    }
  }

  /** A bound for the number of reads until the pipe is empty. */
  function Volume(pipe: seq<Item>): nat {
    if pipe == [] then 0
    else Volume(pipe[1..]) + match pipe[0] case Data(b) => |b| + 1 case _ => 1
  }

  lemma ReadProgress(pipe: seq<Item>, want: nat)
    requires want > 0 && pipe != []
    ensures Volume(Read(pipe, want).1) < Volume(pipe)
  {
    if pipe[0].Data? && |pipe[0].bytes| > want {
      assert ([Data(pipe[0].bytes[want..])] + pipe[1..])[1..] == pipe[1..];
    }
  }
}
