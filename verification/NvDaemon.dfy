/**
  The request loop of nvitem.c, as far as the fixnv image and its backup are concerned: a pure
  account of what each request does, the safety of every run, and the daemon itself.
*/
module NvDaemon {
  import opened Bytes
  import opened NvImage
  import Checksum
  import Crc32b
  import CrcRegisters
  import ShiftRegister

  /** `request_header_t`: kind 0 is fixnv, 1 runtimenv, 2 productinfo; `reqType` 1 is the sync command. */
  datatype Header = Header(kind: nat, reqType: nat, offset: nat, size: nat)

  /** Which of the opens a request may make succeed. */
  datatype Opens = Opens(load: bool, store: bool, backup: bool)

  /** What the loop reads next: an end of file, an error, or a header with the pipe contents behind it. */
  datatype Event = HeaderReset | HeaderError | Request(h: Header, pipe: seq<Item>, opens: Opens)

  /** Handled: next header. ReopenPipe: the pipe was reset. Blocked: a read waits for ever. Exited: exit(1). */
  datatype Outcome = Handled | ReopenPipe | Blocked | Exited

  /** Two files, as the runtimenv and the productinfo image have them. */
  datatype Pair = Pair(main: seq<byte>, copy: seq<byte>)

  /**
    The fixnv files, `fixnv_buffer`, whether `update_finxn_flag` is set, and beside them the runtimenv
    files, the productinfo files and `phasecheck_buffer`.
  */
  datatype Nv = Nv(primary: seq<byte>, backup: seq<byte>, buffer: seq<byte>, pending: bool,
                   runtime: Pair, product: Pair, productBuffer: seq<byte>)

  /** The two fixnv files at one moment. */
  datatype Disk = Disk(primary: seq<byte>, backup: seq<byte>)

  datatype Step = Step(nv: Nv, outcome: Outcome, moments: seq<Disk>)

  // ---- What each request does ----

  /** A payload must fit its buffer: one that reaches beyond the image is logged, and copied all the same. */
  predicate InRange(e: Event) {
    e.Request? && e.h.reqType != 1 ==>
      && (e.h.kind == 0 ==> e.h.offset + e.h.size <= FILE_SIZE)
      && (e.h.kind == 2 ==> e.h.offset + e.h.size <= PRODUCT_FILE_SIZE)
  }

  function PayloadOutcome(h: Header, pipe: seq<Item>): Outcome {
    if |Flat(pipe)| >= h.size then Handled else if EndsInReset(pipe) then ReopenPipe else Blocked
  }

  /** The files while `image` is being written to the primary, from no byte to all. */
  function PrimaryMoments(d: Disk, image: seq<byte>): seq<Disk> {
    seq(|image| + 1, k requires 0 <= k <= |image| => d.(primary := Torn(d.primary, image, k)))
  }

  /** The files while `image` is being written to the backup. */
  function BackupMoments(d: Disk, image: seq<byte>): seq<Disk> {
    seq(|image| + 1, k requires 0 <= k <= |image| => d.(backup := Torn(d.backup, image, k)))
  }

  function Sync(nv: Nv, opens: Opens): Step {
    if nv.pending && opens.backup then
      Step(nv.(backup := WriteFile(nv.backup, nv.buffer), pending := false), Handled,
           BackupMoments(Disk(nv.primary, nv.backup), nv.buffer))
    else Step(nv.(pending := false), Handled, [])
  }

  function Fixnv(nv: Nv, h: Header, pipe: seq<Item>, opens: Opens): Step
    requires h.offset + h.size <= FILE_SIZE
  {
    if !opens.load then Step(nv.(buffer := seq(FILE_SIZE, _ => 0xFF)), Exited, [])
    else if |Flat(pipe)| < h.size then
      Step(nv.(buffer := Overlay(Padded(nv.primary, FILE_SIZE), h.offset, Flat(pipe))), PayloadOutcome(h, pipe), [])
    else
      var image := Served(nv.primary, h.offset, Flat(pipe)[..h.size]);
      if opens.store then
        Step(nv.(primary := WriteFile(nv.primary, image), buffer := image, pending := true), Handled,
             PrimaryMoments(Disk(nv.primary, nv.backup), image))
      else Step(nv.(buffer := image, pending := true), Handled, [])
  }

  /** A runtimenv payload goes to both files as it arrives. */
  function Runtimenv(nv: Nv, h: Header, pipe: seq<Item>, opens: Opens): Step {
    if !opens.load || !opens.backup then Step(nv, Exited, [])
    else
      var got := Arrived(pipe, h.size);
      Step(nv.(runtime := Pair(PutAt(nv.runtime.main, h.offset, got), PutAt(nv.runtime.copy, h.offset, got))),
           PayloadOutcome(h, pipe), [])
  }

  /** A productinfo payload goes over the image in the file; when complete it is sealed and written to both. */
  function Productinfo(nv: Nv, h: Header, pipe: seq<Item>, opens: Opens): Step
    requires h.offset + h.size <= PRODUCT_FILE_SIZE
  {
    if !opens.load then Step(nv.(productBuffer := seq(PRODUCT_FILE_SIZE, _ => 0xFF)), Exited, [])
    else
      var b := Overlay(Padded(nv.product.main, PRODUCT_FILE_SIZE), h.offset, Arrived(pipe, h.size));
      if |Flat(pipe)| < h.size then Step(nv.(productBuffer := b), PayloadOutcome(h, pipe), [])
      else
        var image := ProductImage(b[..PRODUCTINFO_SIZE]);
        Step(nv.(productBuffer := image, product := Stored(nv.product, image, opens)), Handled, [])
  }

  /** The second file is written only behind the first. */
  function Stored(files: Pair, image: seq<byte>, opens: Opens): Pair {
    Pair(if opens.store then WriteFile(files.main, image) else files.main,
         if opens.store && opens.backup then WriteFile(files.copy, image) else files.copy)
  }

  function Handle(nv: Nv, e: Event): Step
    requires InRange(e)
  {
    match e
    case HeaderReset => Step(nv, ReopenPipe, [])
    case HeaderError => Step(nv, Handled, [])
    case Request(h, pipe, opens) =>
      if h.reqType == 1 then Sync(nv, opens)
      else if h.kind == 0 then Fixnv(nv, h, pipe, opens)
      else if h.kind == 1 then Runtimenv(nv, h, pipe, opens)
      else if h.kind == 2 then Productinfo(nv, h, pipe, opens)
      else Step(nv, Handled, [])
  }

  predicate Stops(o: Outcome) {
    o == Blocked || o == Exited
  }

  /** A run over a sequence of events; it ends where the daemon blocks or exits. */
  function Run(nv: Nv, events: seq<Event>): Step
    requires forall e :: e in events ==> InRange(e)
    decreases |events|
  {
    if events == [] then Step(nv, Handled, [])
    else
      var first := Handle(nv, events[0]);
      if Stops(first.outcome) then first
      else
        var rest := Run(first.nv, events[1..]);
        Step(rest.nv, rest.outcome, first.moments + rest.moments)
  }

  /** A complete fixnv request: payload and old bytes in the primary, sealed, and a backup pending. */
  lemma FixnvServed(nv: Nv, h: Header, pipe: seq<Item>, opens: Opens)
    requires h.kind == 0 && h.reqType != 1 && h.offset + h.size <= FILE_SIZE && |Flat(pipe)| >= h.size
    requires opens.load && opens.store && |nv.primary| >= FILE_SIZE
    ensures var s := Handle(nv, Request(h, pipe, opens));
            && s.outcome == Handled && s.nv.pending
            && s.nv == nv.(primary := s.nv.primary, buffer := s.nv.buffer, pending := true)
            && |s.nv.primary| == |nv.primary| && Sealed(s.nv.primary)
            && s.nv.buffer == s.nv.primary[..FILE_SIZE] && s.nv.primary[FILE_SIZE..] == nv.primary[FILE_SIZE..]
            && s.nv.primary[FIXNV_SIZE..FILE_SIZE] == [0x5A, 0x5A, 0x5A, 0x5A]
            && (forall i :: 0 <= i < FIXNV_SIZE - 4
                            ==> s.nv.primary[i]
                                == if h.offset <= i < h.offset + h.size then Flat(pipe)[i - h.offset] else nv.primary[i])
            && Word(s.nv.primary[FIXNV_SIZE - 2], s.nv.primary[FIXNV_SIZE - 1])
               == (Word(nv.primary[FIXNV_SIZE - 2], nv.primary[FIXNV_SIZE - 1]) + 1) % 100
  {
    hide Served, Flat, SealedImage, Word;
    var payload := Flat(pipe)[..h.size];
    var image := Served(nv.primary, h.offset, payload);
    ServedImage(nv.primary, h.offset, payload);
    WriteWhole(nv.primary, image);
    var after := WriteFile(nv.primary, image);
    assert after[FILE_SIZE..] == nv.primary[FILE_SIZE..];
    SealedEnds(image);
    assert after[FIXNV_SIZE..FILE_SIZE] == after[..FILE_SIZE][FIXNV_SIZE..];
    forall i | 0 <= i < FILE_SIZE ensures after[i] == image[i] {
      assert after[..FILE_SIZE][i] == image[i];
    }
  }

  lemma SealedEnds(image: seq<byte>)
    requires SealedImage(image)
    ensures |image| == FILE_SIZE && image[FIXNV_SIZE..] == [0x5A, 0x5A, 0x5A, 0x5A]
  {
  }

  /** Whatever arrives of a runtimenv payload is put in both files, and the rest of them stays. */
  lemma RuntimenvServed(nv: Nv, h: Header, pipe: seq<Item>, opens: Opens)
    requires h.kind == 1 && h.reqType != 1 && opens.load && opens.backup
    ensures var s := Handle(nv, Request(h, pipe, opens));
            var got := if |Flat(pipe)| >= h.size then Flat(pipe)[..h.size] else Flat(pipe);
            && s.nv == nv.(runtime := s.nv.runtime) && s.moments == []
            && Holds(s.nv.runtime.main, nv.runtime.main, h.offset, got)
            && Holds(s.nv.runtime.copy, nv.runtime.copy, h.offset, got)
  {
    hide Flat, PutAt, Holds;
    PutHolds(nv.runtime.main, h.offset, Arrived(pipe, h.size));
    PutHolds(nv.runtime.copy, h.offset, Arrived(pipe, h.size));
  }

  /** A file with `bytes` at an offset, else as it was; a gap behind its old end is zero. */
  predicate Holds(file: seq<byte>, was: seq<byte>, at: nat, bytes: seq<byte>) {
    && |file| == (if bytes != [] && at + |bytes| > |was| then at + |bytes| else |was|)
    && forall i :: 0 <= i < |file|
                   ==> file[i] == if at <= i < at + |bytes| then bytes[i - at] else if i < |was| then was[i] else 0
  }

  lemma PutHolds(file: seq<byte>, at: nat, bytes: seq<byte>)
    ensures Holds(PutAt(file, at, bytes), file, at, bytes)
  {
  }

  /** The data of a productinfo file: payload in place, beside it what was there, and 0xff where nothing was. */
  predicate Carries(file: seq<byte>, was: seq<byte>, at: nat, payload: seq<byte>) {
    && |file| >= PRODUCT_FILE_SIZE
    && forall i :: 0 <= i < PRODUCTINFO_SIZE
                   ==> file[i] == if at <= i < at + |payload| then payload[i - at]
                                  else if i < |was| then was[i] else 0xFF
  }

  lemma ProductinfoStored(nv: Nv, h: Header, pipe: seq<Item>, opens: Opens)
    requires h.offset + h.size <= PRODUCT_FILE_SIZE && |Flat(pipe)| >= h.size && opens == Opens(true, true, true)
    ensures var files := Productinfo(nv, h, pipe, opens).nv.product;
            && Carries(files.main, nv.product.main, h.offset, Flat(pipe)[..h.size])
            && Carries(files.copy, nv.product.main, h.offset, Flat(pipe)[..h.size])
            && files.main[..PRODUCT_FILE_SIZE] == files.copy[..PRODUCT_FILE_SIZE]
            && ShiftRegister.Crc(CrcRegisters.CRC32, 0xFFFF_FFFF, files.main[..PRODUCT_FILE_SIZE]) == 0
            && files.main[PRODUCTINFO_SIZE..PRODUCTINFO_SIZE + 4] == [0x5A, 0x5A, 0x5A, 0x5A]
  {
    hide ShiftRegister.Crc, Crc32b.BigEndian, Flat, Overlay, Padded;
    var loaded := Padded(nv.product.main, PRODUCT_FILE_SIZE);
    var b := Overlay(loaded, h.offset, Arrived(pipe, h.size));
    OverlayAt(loaded, h.offset, Arrived(pipe, h.size));
    PaddedAt(nv.product.main, PRODUCT_FILE_SIZE);
    var image := ProductImage(b[..PRODUCTINFO_SIZE]);
    ProductImageVerifies(b[..PRODUCTINFO_SIZE]);
    var files := Productinfo(nv, h, pipe, opens).nv.product;
    assert files.main[..PRODUCT_FILE_SIZE] == image == files.copy[..PRODUCT_FILE_SIZE];
    assert files.main[PRODUCTINFO_SIZE..PRODUCTINFO_SIZE + 4]
           == files.main[..PRODUCT_FILE_SIZE][PRODUCTINFO_SIZE..PRODUCTINFO_SIZE + 4] == MARKER;
    forall i | 0 <= i < PRODUCTINFO_SIZE ensures files.main[i] == files.copy[i] == b[i] {
      assert files.main[i] == files.main[..PRODUCT_FILE_SIZE][i] == image[i];
      assert files.copy[i] == files.copy[..PRODUCT_FILE_SIZE][i];
    }
  }

  /**
    A productinfo request that completes and finds both files leaves the same verifying image in both:
    the payload in place, beside it what the file held, and 0xff where it held nothing.
  */
  lemma ProductinfoServed(nv: Nv, h: Header, pipe: seq<Item>, opens: Opens)
    requires h.kind == 2 && h.reqType != 1 && h.offset + h.size <= PRODUCT_FILE_SIZE && |Flat(pipe)| >= h.size
    requires opens == Opens(true, true, true)
    ensures var s := Handle(nv, Request(h, pipe, opens));
            var files := s.nv.product;
            && s.outcome == Handled && s.nv == nv.(product := files, productBuffer := s.nv.productBuffer)
            && |files.main| >= PRODUCT_FILE_SIZE && |files.copy| >= PRODUCT_FILE_SIZE
            && files.main[..PRODUCT_FILE_SIZE] == files.copy[..PRODUCT_FILE_SIZE]
            && ShiftRegister.Crc(CrcRegisters.CRC32, 0xFFFF_FFFF, files.main[..PRODUCT_FILE_SIZE]) == 0
            && files.main[PRODUCTINFO_SIZE..PRODUCTINFO_SIZE + 4] == [0x5A, 0x5A, 0x5A, 0x5A]
            && forall i :: 0 <= i < PRODUCTINFO_SIZE
                           ==> files.main[i] == if h.offset <= i < h.offset + h.size then Flat(pipe)[i - h.offset]
                                                else if i < |nv.product.main| then nv.product.main[i]
                                                else 0xFF
  {
    hide ShiftRegister.Crc, Flat, ProductImage, Overlay, Padded, Stored;
    ProductinfoStored(nv, h, pipe, opens);
  }

  lemma PaddedAt(file: seq<byte>, n: nat)
    ensures forall i :: 0 <= i < n ==> Padded(file, n)[i] == if i < |file| then file[i] else 0xFF
  {
  }

  // ---- Safety ----

  /** At least one of the two files is a whole sealed image. */
  predicate Safe(d: Disk) {
    Sealed(d.primary) || Sealed(d.backup)
  }

  /** Between requests both files are whole. */
  predicate Sound(nv: Nv) {
    Sealed(nv.primary) && Sealed(nv.backup) && |nv.buffer| == FILE_SIZE
  }

  /** A sync that writes a damaged buffer to the backup: the one thing a run must not contain. */
  predicate SpoilsBackup(nv: Nv, e: Event) {
    e.Request? && e.h.reqType == 1 && nv.pending && e.opens.backup && !SealedImage(nv.buffer)
  }

  predicate Careful(nv: Nv, events: seq<Event>)
    requires forall e :: e in events ==> InRange(e)
    decreases |events|
  {
    events != [] ==>
      && !SpoilsBackup(nv, events[0])
      && var first := Handle(nv, events[0]);
         Stops(first.outcome) || Careful(first.nv, events[1..])
  }

  /** A reset cuts off a fixnv transfer while a backup is pending: how the buffer comes to be damaged. */
  predicate Interrupts(nv: Nv, e: Event)
    requires InRange(e)
  {
    && nv.pending && e.Request? && e.h.reqType != 1 && e.h.kind == 0
    && Handle(nv, e).outcome == ReopenPipe
  }

  predicate Uninterrupted(nv: Nv, events: seq<Event>)
    requires forall e :: e in events ==> InRange(e)
    decreases |events|
  {
    events != [] ==>
      && !Interrupts(nv, events[0])
      && var first := Handle(nv, events[0]);
         Stops(first.outcome) || Uninterrupted(first.nv, events[1..])
  }

  lemma WriteWhole(file: seq<byte>, image: seq<byte>)
    requires SealedImage(image)
    ensures Sealed(WriteFile(file, image)) && WriteFile(file, image)[..FILE_SIZE] == image
  {
    hide SealedImage;
    SealedSize(image);
    assert WriteFile(file, image)[..FILE_SIZE] == image;
  }

  lemma SealedSize(image: seq<byte>)
    requires SealedImage(image)
    ensures |image| == FILE_SIZE
  {
  }

  lemma SyncSafe(nv: Nv, opens: Opens)
    requires Sound(nv)
    ensures Sound(Sync(nv, opens).nv) <==> !(nv.pending && opens.backup && !SealedImage(nv.buffer))
    ensures forall d :: d in Sync(nv, opens).moments ==> Safe(d)
  {
    hide SealedImage;
    if nv.pending && opens.backup {
      assert WriteFile(nv.backup, nv.buffer)[..FILE_SIZE] == nv.buffer;
    }
  }

  lemma FixnvSafe(nv: Nv, h: Header, pipe: seq<Item>, opens: Opens)
    requires Sound(nv) && h.offset + h.size <= FILE_SIZE
    ensures Sound(Fixnv(nv, h, pipe, opens).nv)
    ensures forall d :: d in Fixnv(nv, h, pipe, opens).moments ==> Safe(d)
  {
    hide SealedImage, Served, Flat, EndsInReset, Overlay, Padded;
    if opens.load && |Flat(pipe)| >= h.size {
      var image := Served(nv.primary, h.offset, Flat(pipe)[..h.size]);
      ServedSealed(nv.primary, h.offset, Flat(pipe)[..h.size]);
      WriteWhole(nv.primary, image);
    }
  }

  lemma ServedSealed(file: seq<byte>, offset: nat, payload: seq<byte>)
    requires offset + |payload| <= FILE_SIZE
    ensures SealedImage(Served(file, offset, payload))
  {
    hide SealedImage, Seal;
    var loaded := Padded(file, FILE_SIZE);
    SealSeals(Overlay(loaded, offset, payload), IndexOf(loaded));
  }

  /** No request loses both files, and both stay whole exactly unless a sync spoils the backup. */
  lemma HandleSafe(nv: Nv, e: Event)
    requires Sound(nv) && InRange(e)
    ensures forall d :: d in Handle(nv, e).moments ==> Safe(d)
    ensures Sound(Handle(nv, e).nv) <==> !SpoilsBackup(nv, e)
  {
    hide Safe, Fixnv, Sync, Sealed, SealedImage, ProductImage, Overlay;
    if e.Request? {
      if e.h.reqType == 1 {
        SyncSafe(nv, e.opens);
      } else if e.h.kind == 0 {
        FixnvSafe(nv, e.h, e.pipe, e.opens);
      }
    }
  }

  /**
    In every run from two sealed files in which no sync writes a damaged buffer, one of the two files
    is whole at every moment, also in the middle of a write, and both are at the end.
  */
  lemma {:induction false} CarefulRunSafe(nv: Nv, events: seq<Event>)
    requires forall e :: e in events ==> InRange(e)
    requires Sound(nv) && Careful(nv, events)
    ensures forall d :: d in Run(nv, events).moments ==> Safe(d)
    ensures Sound(Run(nv, events).nv)
    decreases |events|
  {
    hide Sound, Safe, Handle, SpoilsBackup;
    if events != [] {
      var first := Handle(nv, events[0]);
      HandleSafe(nv, events[0]);
      if !Stops(first.outcome) {
        CarefulRunSafe(first.nv, events[1..]);
      }
    }
  }

  /** Both files are whole after every request of a run. */
  predicate StaysSound(nv: Nv, events: seq<Event>)
    requires forall e :: e in events ==> InRange(e)
    decreases |events|
  {
    events != [] ==>
      var first := Handle(nv, events[0]);
      Sound(first.nv) && (Stops(first.outcome) || StaysSound(first.nv, events[1..]))
  }

  /** And that condition is exact: both files stay whole if and only if no sync writes a damaged buffer. */
  lemma {:induction false} StaysSoundIff(nv: Nv, events: seq<Event>)
    requires forall e :: e in events ==> InRange(e)
    requires Sound(nv)
    ensures StaysSound(nv, events) <==> Careful(nv, events)
    decreases |events|
  {
    hide Sound, Handle, SpoilsBackup;
    if events != [] {
      var first := Handle(nv, events[0]);
      HandleSafe(nv, events[0]);
      if !Stops(first.outcome) && Sound(first.nv) {
        StaysSoundIff(first.nv, events[1..]);
      }
    }
  }

  /** Unless a reset cuts off a transfer while a backup is pending, a pending buffer is whole. */
  lemma UninterruptedStep(nv: Nv, e: Event)
    requires InRange(e) && !Interrupts(nv, e) && (nv.pending ==> SealedImage(nv.buffer))
    ensures !SpoilsBackup(nv, e)
    ensures var s := Handle(nv, e); Stops(s.outcome) || (s.nv.pending ==> SealedImage(s.nv.buffer))
  {
    hide SealedImage, Served, Flat, EndsInReset, Overlay, Padded, ProductImage;
    if e.Request? && e.h.reqType != 1 && e.h.kind == 0 && e.opens.load && |Flat(e.pipe)| >= e.h.size {
      ServedSealed(nv.primary, e.h.offset, Flat(e.pipe)[..e.h.size]);
    }
  }

  lemma {:induction false} UninterruptedIsCareful(nv: Nv, events: seq<Event>)
    requires forall e :: e in events ==> InRange(e)
    requires Uninterrupted(nv, events) && (nv.pending ==> SealedImage(nv.buffer))
    ensures Careful(nv, events)
    decreases |events|
  {
    hide Handle, SpoilsBackup, SealedImage;
    if events != [] {
      var first := Handle(nv, events[0]);
      UninterruptedStep(nv, events[0]);
      if !Stops(first.outcome) {
        UninterruptedIsCareful(first.nv, events[1..]);
      }
    }
  }

  /**
    So in every run from two sealed files in which no reset cuts off a fixnv transfer while a backup is
    pending, one of the two files is whole at every moment.
  */
  lemma RunSafe(nv: Nv, events: seq<Event>)
    requires forall e :: e in events ==> InRange(e)
    requires Sound(nv) && (nv.pending ==> SealedImage(nv.buffer)) && Uninterrupted(nv, events)
    ensures forall d :: d in Run(nv, events).moments ==> Safe(d)
    ensures Sound(Run(nv, events).nv)
  {
    UninterruptedIsCareful(nv, events);
    CarefulRunSafe(nv, events);
  }

  /** Changing the first byte of a sealed image breaks its checksum. */
  lemma OneByteBreaks(b: seq<byte>, x: byte)
    requires SealedImage(b) && x != b[0]
    ensures !SealedImage(b[0 := x])
  {
    hide Checksum.WordSum, Checksum.Computed, Checksum.OnesSum, Checksum.Residue;
    var n := FIXNV_SIZE - 2;
    var s, t := b[..n], b[0 := x][..n];
    FirstByte(s, t);
    Checksum.ComputedIsRfc1071(s);
    Checksum.ComputedIsRfc1071(t);
    Checksum.OnesSumIsResidue(s);
    Checksum.OnesSumIsResidue(t);
    ResidueDiffers(Checksum.WordSum(s), Checksum.WordSum(t));
  }

  lemma FirstByte(s: seq<byte>, t: seq<byte>)
    requires |s| == |t| >= 2 && s[1..] == t[1..]
    ensures Checksum.WordSum(t) == Checksum.WordSum(s) + t[0] - s[0]
  {
    assert s[1] == s[1..][0] && t[1] == t[1..][0];
    assert s[2..] == s[1..][1..] && t[2..] == t[1..][1..];
  }

  lemma ResidueDiffers(m: nat, n: nat)
    requires m != n && -0x100 < m - n < 0x100
    ensures !(Checksum.Residue(m) == Checksum.Residue(n) == 0xFFFF)
  {
  }

  /**
    Without that condition the promise fails, from every sound state with a backup pending: a transfer
    is cut off after one byte, the sync copies the damaged buffer, and the next request is the moment
    when neither file is whole.
  */
  lemma InterruptionLosesBoth(nv: Nv, x: byte) returns (events: seq<Event>, d: Disk)
    requires Sound(nv) && nv.pending && x != nv.primary[0]
    ensures forall e :: e in events ==> InRange(e)
    ensures !Uninterrupted(nv, events)
    ensures d in Run(nv, events).moments && !Safe(d)
  {
    hide SealedImage, Checksum.Computed, Seal, Served, Handle, Torn;
    var cut := Request(Header(0, 0, 0, 2), [Data([x]), Reset], ALL_OPEN);
    var sync := Request(Header(0, 1, 0, 0), [], ALL_OPEN);
    var next := Request(Header(0, 0, 0, 1), [Data([x])], ALL_OPEN);
    events := [cut, sync, next];
    var damaged := nv.primary[..FILE_SIZE][0 := x];
    OneByteBreaks(nv.primary[..FILE_SIZE], x);
    CutDamages(nv, x);
    var s1 := Handle(nv, cut);
    SyncSpreads(s1.nv);
    var s2 := Handle(s1.nv, sync);
    d := StoreIsTorn(s2.nv, x);
    RunOfThree(nv, cut, sync, next);
  }

  const ALL_OPEN := Opens(true, true, true)

  lemma CutDamages(nv: Nv, x: byte)
    requires Sound(nv)
    ensures Handle(nv, Request(Header(0, 0, 0, 2), [Data([x]), Reset], ALL_OPEN))
            == Step(nv.(buffer := nv.primary[..FILE_SIZE][0 := x]), ReopenPipe, [])
  {
    hide SealedImage;
    Flats(x);
    assert Overlay(Padded(nv.primary, FILE_SIZE), 0, [x]) == nv.primary[..FILE_SIZE][0 := x];
  }

  lemma SyncSpreads(nv: Nv)
    requires nv.pending && |nv.buffer| == FILE_SIZE
    ensures var s := Handle(nv, Request(Header(0, 1, 0, 0), [], ALL_OPEN));
            s.outcome == Handled && s.nv.primary == nv.primary && s.nv.backup[..FILE_SIZE] == nv.buffer
  {
  }

  /** One byte of the next image makes the primary the damaged one for a moment. */
  lemma StoreIsTorn(nv: Nv, x: byte) returns (d: Disk)
    requires |nv.primary| >= FILE_SIZE
    ensures d in Handle(nv, Request(Header(0, 0, 0, 1), [Data([x])], ALL_OPEN)).moments
    ensures |d.primary| >= FILE_SIZE && d.primary[..FILE_SIZE] == nv.primary[..FILE_SIZE][0 := x]
    ensures d.backup == nv.backup
  {
    hide Seal, Checksum.Computed;
    Flats(x);
    assert [x][..1] == [x];
    var served := Served(nv.primary, 0, [x]);
    ServedFirst(nv.primary, x);
    d := Disk(Torn(nv.primary, served, 1), nv.backup);
    assert PrimaryMoments(Disk(nv.primary, nv.backup), served)[1] == d;
  }

  lemma RunOfThree(nv: Nv, e1: Event, e2: Event, e3: Event)
    requires InRange(e1) && InRange(e2) && InRange(e3)
    requires !Stops(Handle(nv, e1).outcome) && !Stops(Handle(Handle(nv, e1).nv, e2).outcome)
    ensures forall d :: d in Handle(Handle(Handle(nv, e1).nv, e2).nv, e3).moments ==> d in Run(nv, [e1, e2, e3]).moments
  {
    hide Handle, Stops, InRange;
    var s1 := Handle(nv, e1);
    var s2 := Handle(s1.nv, e2);
    assert [e1, e2, e3][1..] == [e2, e3] && [e2, e3][1..] == [e3] && [e3][1..] == [];
    assert Run(s2.nv, [e3]).moments == Handle(s2.nv, e3).moments + [];
    assert Run(s1.nv, [e2, e3]).moments == s2.moments + Run(s2.nv, [e3]).moments;
  }

  lemma Flats(x: byte)
    ensures Flat([Data([x]), Reset]) == [x] && EndsInReset([Data([x]), Reset]) && Flat([Data([x])]) == [x]
  {
    assert [Data([x]), Reset][1..] == [Reset] && [Data([x])][1..] == [];
  }

  lemma ServedFirst(file: seq<byte>, x: byte)
    requires |file| >= FILE_SIZE
    ensures Served(file, 0, [x])[..1] == [x]
  {
    OverlayAt(Padded(file, FILE_SIZE), 0, [x]);
  }

  // ---- The copy ----

  /** The pending image is what the primary file holds. */
  predicate Current(nv: Nv) {
    |nv.primary| >= FILE_SIZE && nv.primary[..FILE_SIZE] == nv.buffer
  }

  /** A sync that writes the backup makes it equal to the primary exactly when the buffer was current. */
  lemma SyncCopies(nv: Nv, opens: Opens)
    requires nv.pending && opens.backup && |nv.buffer| == FILE_SIZE && |nv.primary| >= FILE_SIZE
    ensures var after := Sync(nv, opens).nv;
            && !after.pending && |after.backup| >= FILE_SIZE
            && (after.backup[..FILE_SIZE] == after.primary[..FILE_SIZE] <==> Current(nv))
  {
    assert WriteFile(nv.backup, nv.buffer)[..FILE_SIZE] == nv.buffer;
  }

  /** The index moves with every request, so a served image is never the one in the file. */
  lemma ServedDiffers(file: seq<byte>, offset: nat, payload: seq<byte>)
    requires offset + |payload| <= FILE_SIZE && |file| >= FILE_SIZE
    ensures Served(file, offset, payload) != file[..FILE_SIZE]
  {
    hide Served;
    ServedImage(file, offset, payload);
    var image := file[..FILE_SIZE];
    assert IndexOf(image) == Word(file[FIXNV_SIZE - 2], file[FIXNV_SIZE - 1]);
    assert IndexOf(image) != (IndexOf(image) + 1) % 100;
  }

  /** After a completed request a backup is pending, and the buffer is what the primary holds if and only if it was stored. */
  lemma CompletedIsCurrent(nv: Nv, h: Header, pipe: seq<Item>, opens: Opens)
    requires h.offset + h.size <= FILE_SIZE && |nv.primary| >= FILE_SIZE
    requires opens.load && |Flat(pipe)| >= h.size
    ensures var after := Fixnv(nv, h, pipe, opens).nv;
            after.pending && |after.primary| >= FILE_SIZE && (Current(after) <==> opens.store)
  {
    hide Served, Flat;
    var image := Served(nv.primary, h.offset, Flat(pipe)[..h.size]);
    ServedDiffers(nv.primary, h.offset, Flat(pipe)[..h.size]);
    assert WriteFile(nv.primary, image)[..FILE_SIZE] == image;
  }

  /** After a transfer that was cut off, it is if and only if what arrived was there already. */
  lemma CutIsCurrent(nv: Nv, h: Header, pipe: seq<Item>, opens: Opens)
    requires h.offset + h.size <= FILE_SIZE && |nv.primary| >= FILE_SIZE
    requires opens.load && |Flat(pipe)| < h.size
    ensures Current(Fixnv(nv, h, pipe, opens).nv)
            <==> Flat(pipe) == nv.primary[h.offset..h.offset + |Flat(pipe)|]
  {
    hide Flat;
    var got, image := Flat(pipe), nv.primary[..FILE_SIZE];
    OverlayAt(image, h.offset, got);
    var b := Overlay(image, h.offset, got);
    if b == image {
      assert got == b[h.offset..h.offset + |got|];
    }
  }

  /** Does the event complete a fixnv transfer? */
  predicate Completes(e: Event) {
    e.Request? && e.h.reqType != 1 && e.h.kind == 0 && e.opens.load && |Flat(e.pipe)| >= e.h.size
  }

  /** Could the last completed transfer be stored, given the answer before this event? */
  function StoredBy(e: Event, before: bool): bool {
    if Completes(e) then e.opens.store else before
  }

  /** Whether the last of these that completed a fixnv transfer could open the primary to store it. */
  function LastStored(events: seq<Event>, before: bool): bool
    decreases |events|
  {
    if events == [] then before
    else LastStored(events[1..], StoredBy(events[0], before))
  }

  lemma HandleCurrent(nv: Nv, e: Event, before: bool)
    requires InRange(e) && !Interrupts(nv, e) && |nv.primary| >= FILE_SIZE
    requires nv.pending ==> (Current(nv) <==> before)
    ensures var s := Handle(nv, e);
            Stops(s.outcome)
            || (|s.nv.primary| >= FILE_SIZE
                && (s.nv.pending ==> (Current(s.nv) <==> StoredBy(e, before))))
  {
    hide Flat, EndsInReset, Overlay, Padded, ProductImage, Served;
    if Completes(e) {
      CompletedIsCurrent(nv, e.h, e.pipe, e.opens);
    }
  }

  /** In every uninterrupted run: while a backup is pending, the buffer is current exactly if the last store went through. */
  lemma {:induction false} RunCurrentIff(nv: Nv, events: seq<Event>, before: bool)
    requires forall e :: e in events ==> InRange(e)
    requires |nv.primary| >= FILE_SIZE && Uninterrupted(nv, events) && (nv.pending ==> (Current(nv) <==> before))
    ensures var s := Run(nv, events);
            Stops(s.outcome)
            || (|s.nv.primary| >= FILE_SIZE && (s.nv.pending ==> (Current(s.nv) <==> LastStored(events, before))))
    decreases |events|
  {
    hide Handle, Current, StoredBy;
    if events != [] {
      HandleCurrent(nv, events[0], before);
      var first := Handle(nv, events[0]);
      if !Stops(first.outcome) {
        RunCurrentIff(first.nv, events[1..], StoredBy(events[0], before));
      }
    }
  }

  /**
    So after an uninterrupted run that ends with a backup pending, a sync that writes makes the two
    files equal if and only if the last completed fixnv request could store its image.
  */
  lemma SyncAfterRun(nv: Nv, events: seq<Event>, opens: Opens)
    requires forall e :: e in events ==> InRange(e)
    requires Sound(nv) && !nv.pending && Uninterrupted(nv, events)
    requires !Stops(Run(nv, events).outcome) && Run(nv, events).nv.pending && opens.backup
    ensures var after := Sync(Run(nv, events).nv, opens).nv;
            && |after.primary| >= FILE_SIZE && |after.backup| >= FILE_SIZE && !after.pending
            && (after.backup[..FILE_SIZE] == after.primary[..FILE_SIZE] <==> LastStored(events, false))
  {
    hide Run, SealedImage;
    RunCurrentIff(nv, events, false);
    RunSafe(nv, events);
    SyncCopies(Run(nv, events).nv, opens);
  }

  predicate Differ(nv: Nv) {
    |nv.primary| >= FILE_SIZE && |nv.backup| >= FILE_SIZE && nv.backup[..FILE_SIZE] != nv.primary[..FILE_SIZE]
  }

  /** A request of one byte that completes but cannot be stored, and a sync that can be. */
  function FailedStore(x: byte): (events: seq<Event>)
    ensures forall e :: e in events ==> InRange(e)
  {
    [Request(Header(0, 0, 0, 1), [Data([x])], Opens(true, false, true)),
     Request(Header(0, 1, 0, 0), [], Opens(true, true, true))]
  }

  /** From every sound state, a run in which the store fails and the sync leaves two different files. */
  lemma FailedStoreDiffers(nv: Nv, x: byte)
    requires Sound(nv) && !nv.pending
    ensures Differ(Run(nv, FailedStore(x)).nv)
  {
    hide Sealed, SealedImage, Handle, Flat;
    var e, sync := FailedStore(x)[0], FailedStore(x)[1];
    Flats(x);
    assert e in FailedStore(x) && sync in FailedStore(x);
    FailedStoreStep(nv, e);
    var mid := Handle(nv, e).nv;
    SyncStep(mid, sync);
    assert FailedStore(x)[1..] == [sync] && [sync][1..] == [];
    assert Run(mid, [sync]).nv == Handle(mid, sync).nv;
  }

  lemma FailedStoreStep(nv: Nv, e: Event)
    requires Sound(nv) && InRange(e) && Completes(e) && !e.opens.store
    ensures var s := Handle(nv, e);
            s.outcome == Handled && s.nv.pending && !Current(s.nv)
            && |s.nv.primary| >= FILE_SIZE && |s.nv.buffer| == FILE_SIZE
  {
    hide SealedImage, Served, Flat;
    CompletedIsCurrent(nv, e.h, e.pipe, e.opens);
  }

  lemma SyncStep(nv: Nv, e: Event)
    requires nv.pending && |nv.buffer| == FILE_SIZE && |nv.primary| >= FILE_SIZE && !Current(nv)
    requires e.Request? && e.h.reqType == 1 && e.opens.backup
    ensures InRange(e) && Handle(nv, e).outcome == Handled && Differ(Handle(nv, e).nv)
  {
    SyncCopies(nv, e.opens);
  }

  /** How the payload was cut into reads, and which reads failed, makes no difference. */
  lemma FragmentationIsInvisible(nv: Nv, h: Header, pipe: seq<Item>, pipe': seq<Item>, opens: Opens)
    requires InRange(Request(h, pipe, opens))
    requires Flat(pipe) == Flat(pipe') && EndsInReset(pipe) == EndsInReset(pipe')
    ensures Handle(nv, Request(h, pipe, opens)) == Handle(nv, Request(h, pipe', opens))
  {
  }
}
