/** nvitem.c as it runs: the buffers and flags it updates, request by request. */
module NvService {
  import opened Bytes
  import opened NvImage
  import opened NvDaemon
  import Checksum
  import Crc32b
  import ShiftRegister

  /** A buffer with `bytes` at an offset, else as it was. */
  predicate Lies(buffer: seq<byte>, was: seq<byte>, at: nat, bytes: seq<byte>) {
    && |buffer| == |was|
    && forall i :: 0 <= i < |was| ==> buffer[i] == if at <= i < at + |bytes| then bytes[i - at] else was[i]
  }

  /** What has arrived of a payload of a kind, put where that kind goes. */
  function Arrive(nv: Nv, kind: nat, at: nat, bytes: seq<byte>): Nv
    requires kind <= 2
    requires kind == 0 ==> at + |bytes| <= |nv.buffer|
    requires kind == 2 ==> at + |bytes| <= |nv.productBuffer|
  {
    if kind == 0 then nv.(buffer := Overlay(nv.buffer, at, bytes))
    else if kind == 1 then
      nv.(runtime := Pair(PutAt(nv.runtime.main, at, bytes), PutAt(nv.runtime.copy, at, bytes)))
    else nv.(productBuffer := Overlay(nv.productBuffer, at, bytes))
  }

  /** The bytes lie where that kind goes, and nothing else changes. */
  lemma ArriveLies(nv: Nv, kind: nat, at: nat, bytes: seq<byte>)
    requires kind <= 2
    requires kind == 0 ==> at + |bytes| <= |nv.buffer|
    requires kind == 2 ==> at + |bytes| <= |nv.productBuffer|
    ensures var r := Arrive(nv, kind, at, bytes);
            && r == nv.(buffer := r.buffer, runtime := r.runtime, productBuffer := r.productBuffer)
            && Lies(r.buffer, nv.buffer, at, if kind == 0 then bytes else [])
            && Holds(r.runtime.main, nv.runtime.main, at, if kind == 1 then bytes else [])
            && Holds(r.runtime.copy, nv.runtime.copy, at, if kind == 1 then bytes else [])
            && Lies(r.productBuffer, nv.productBuffer, at, if kind == 2 then bytes else [])
  {
    hide Overlay, PutAt, Holds, Lies;
    PutHolds(nv.runtime.main, at, if kind == 1 then bytes else []);
    PutHolds(nv.runtime.copy, at, if kind == 1 then bytes else []);
    PutNothing(nv.runtime.main, at);
    PutNothing(nv.runtime.copy, at);
    LiesNothing(nv.buffer, at);
    LiesNothing(nv.productBuffer, at);
    if kind == 0 {
      OverlayLies(nv.buffer, at, bytes);
    } else if kind == 2 {
      OverlayLies(nv.productBuffer, at, bytes);
    }
  }

  lemma PutNothing(file: seq<byte>, at: nat)
    ensures PutAt(file, at, []) == file
  {
  }

  lemma LiesNothing(b: seq<byte>, at: nat)
    ensures Lies(b, b, at, [])
  {
  }

  lemma OverlayLies(b: seq<byte>, at: nat, bytes: seq<byte>)
    requires at + |bytes| <= |b|
    ensures Lies(Overlay(b, at, bytes), b, at, bytes)
  {
    OverlayAt(b, at, bytes);
  }

  lemma ArriveNothing(nv: Nv, kind: nat, at: nat)
    requires kind <= 2 && (kind == 0 ==> at <= |nv.buffer|) && (kind == 2 ==> at <= |nv.productBuffer|)
    ensures Arrive(nv, kind, at, []) == nv
  {
    if kind == 0 {
      OverlayNothing(nv.buffer, at);
    } else if kind == 2 {
      OverlayNothing(nv.productBuffer, at);
    }
  }

  lemma ArriveTwice(nv: Nv, kind: nat, at: nat, a: seq<byte>, b: seq<byte>)
    requires kind <= 2
    requires kind == 0 ==> at + |a| + |b| <= |nv.buffer|
    requires kind == 2 ==> at + |a| + |b| <= |nv.productBuffer|
    ensures Arrive(Arrive(nv, kind, at, a), kind, at + |a|, b) == Arrive(nv, kind, at, a + b)
  {
    hide Overlay, PutAt;
    if kind == 0 {
      OverlayTwice(nv.buffer, at, a, b);
    } else if kind == 1 {
      PutTwice(nv.runtime.main, at, a, b);
      PutTwice(nv.runtime.copy, at, a, b);
    } else {
      OverlayTwice(nv.productBuffer, at, a, b);
    }
  }

  class Daemon {
    const fixnvBuffer: array<byte>
    const phasecheckBuffer: array<byte>
    /** fixnv_buffer_offset, the position in the runtimenv files, and phasecheck_buffer_offset. */
    var fixnvBufferOffset: nat
    var runtimePosition: nat
    var phasecheckBufferOffset: nat
    var indexValue: nat
    var updateFixnvFlag: int
    var primary: seq<byte>
    var backup: seq<byte>
    var runtime: Pair
    var product: Pair
    /** Every state the two fixnv files have passed through, byte by byte. */
    ghost var moments: seq<Disk>

    ghost predicate Valid()
      reads this
    {
      && fixnvBuffer.Length == FILE_SIZE && phasecheckBuffer.Length == PRODUCT_FILE_SIZE
      && fixnvBuffer != phasecheckBuffer
      && indexValue < 0x1_0000
      && (updateFixnvFlag == 0 || updateFixnvFlag == 1)
    }

    ghost function Abs(): (nv: Nv)
      reads this, fixnvBuffer, phasecheckBuffer
      ensures |nv.buffer| == fixnvBuffer.Length && |nv.productBuffer| == phasecheckBuffer.Length
    {
      Nv(primary, backup, fixnvBuffer[..], updateFixnvFlag == 1, runtime, product, phasecheckBuffer[..])
    }

    ghost function Files(): Disk
      reads this
    {
      Disk(primary, backup)
    }

    /** Where the next bytes of a kind go. */
    ghost function Offset(kind: nat): nat
      reads this
    {
      if kind == 0 then fixnvBufferOffset else if kind == 1 then runtimePosition else phasecheckBufferOffset
    }

    constructor (primary: seq<byte>, backup: seq<byte>, runtime: Pair, product: Pair)
      ensures Valid() && fresh(fixnvBuffer) && fresh(phasecheckBuffer) && moments == []
      ensures Abs() == Nv(primary, backup, seq(FILE_SIZE, _ => 0), false, runtime, product, seq(PRODUCT_FILE_SIZE, _ => 0))
    {
      fixnvBuffer := new byte[FILE_SIZE](_ => 0);
      phasecheckBuffer := new byte[PRODUCT_FILE_SIZE](_ => 0);
      fixnvBufferOffset, runtimePosition, phasecheckBufferOffset, indexValue, updateFixnvFlag := 0, 0, 0, 0, 0;
      this.primary, this.backup, this.runtime, this.product := primary, backup, runtime, product;
      moments := [];
      new;
      assert fixnvBuffer[..] == seq(FILE_SIZE, _ => 0);
      assert phasecheckBuffer[..] == seq(PRODUCT_FILE_SIZE, _ => 0);
    }

    /** `memset(buffer, 0xff, n); read(fd, buffer, n)`. */
    static method Fill(buffer: array<byte>, file: seq<byte>)
      modifies buffer
      ensures buffer[..] == Padded(file, buffer.Length)
    {
      forall i | 0 <= i < buffer.Length {
        buffer[i] := 0xFF;
      }
      var n := if |file| < buffer.Length then |file| else buffer.Length;
      forall i | 0 <= i < n {
        buffer[i] := file[i];
      }
    }

    /** Reads the primary file and its index into the buffer. */
    method Load()
      requires Valid()
      modifies this`indexValue, fixnvBuffer
      ensures Valid()
      ensures fixnvBuffer[..] == Padded(primary, FILE_SIZE) && indexValue == IndexOf(fixnvBuffer[..])
    {
      Fill(fixnvBuffer, primary);
      indexValue := Word(fixnvBuffer[FIXNV_SIZE - 2], fixnvBuffer[FIXNV_SIZE - 1]);
    }

    /** `memcpy(buffer + at, data, r_cnt)`. */
    static method CopyIn(buffer: array<byte>, at: nat, bytes: seq<byte>)
      requires at + |bytes| <= buffer.Length
      modifies buffer
      ensures buffer[..] == Overlay(old(buffer[..]), at, bytes)
    {
      forall i | 0 <= i < |bytes| {
        buffer[at + i] := bytes[i];
      }
      OverlayAt(old(buffer[..]), at, bytes);
    }

    /** The branches of the receive loop that put one read's bytes where they go. */
    method Accept(kind: nat, bytes: seq<byte>)
      requires Valid() && kind <= 2
      requires kind == 0 ==> fixnvBufferOffset + |bytes| <= FILE_SIZE
      requires kind == 2 ==> phasecheckBufferOffset + |bytes| <= PRODUCT_FILE_SIZE
      modifies this`fixnvBufferOffset, this`runtimePosition, this`phasecheckBufferOffset, this`runtime
      modifies fixnvBuffer, phasecheckBuffer
      ensures Valid()
      ensures Abs() == Arrive(old(Abs()), kind, old(Offset(kind)), bytes)
      ensures Offset(kind) == old(Offset(kind)) + |bytes|
    {
      hide Overlay, PutAt;
      if kind == 1 {
        runtime := Pair(PutAt(runtime.main, runtimePosition, bytes), PutAt(runtime.copy, runtimePosition, bytes));
        runtimePosition := runtimePosition + |bytes|;
      } else if kind == 0 {
        CopyIn(fixnvBuffer, fixnvBufferOffset, bytes);
        fixnvBufferOffset := fixnvBufferOffset + |bytes|;
      } else {
        CopyIn(phasecheckBuffer, phasecheckBufferOffset, bytes);
        phasecheckBufferOffset := phasecheckBufferOffset + |bytes|;
      }
    }

    /** The loop `while (total > 0)`. */
    method Receive(kind: nat, input: seq<Item>, size: nat) returns (outcome: Outcome)
      requires Valid() && kind <= 2
      requires kind == 0 ==> fixnvBufferOffset + size <= FILE_SIZE
      requires kind == 2 ==> phasecheckBufferOffset + size <= PRODUCT_FILE_SIZE
      modifies this`fixnvBufferOffset, this`runtimePosition, this`phasecheckBufferOffset, this`runtime
      modifies fixnvBuffer, phasecheckBuffer
      ensures Valid()
      ensures outcome == if |Flat(input)| >= size then Handled else if EndsInReset(input) then ReopenPipe else Blocked
      ensures Abs() == Arrive(old(Abs()), kind, old(Offset(kind)), Arrived(input, size))
    {
      hide Arrive, Flat, EndsInReset, Read, Abs;
      ghost var start, at, got := Abs(), Offset(kind), [];
      var pipe, total := input, size;
      ArriveNothing(start, kind, at);
      assert got + Flat(pipe) == Flat(pipe);
      while total > 0
        invariant Valid() && Offset(kind) == at + |got| && 0 <= total && total + |got| == size
        invariant Abs() == Arrive(start, kind, at, got)
        invariant Flat(input) == got + Flat(pipe) && EndsInReset(input) == EndsInReset(pipe)
        decreases Volume(pipe)
      {
        var want := if total > DATA_BUF_LEN then DATA_BUF_LEN else total;
        ReadContinues(pipe, want);
        if pipe == [] {
          ReadNothing(want);
        } else {
          ReadProgress(pipe, want);
        }
        var (r, rest) := Read(pipe, want);
        match r {
          case Blocks =>
            assert got + [] == got;
            return Blocked;
          case Closed =>
            assert got + [] == got;
            return ReopenPipe;
          case Failed =>
            pipe := rest;
          case Got(bytes) =>
            ArriveTwice(start, kind, at, got, bytes);
            assert got + (bytes + Flat(rest)) == (got + bytes) + Flat(rest);
            Accept(kind, bytes);
            got := got + bytes;
            total := total - |bytes|;
            pipe := rest;
        }
      }
      assert Flat(input)[..size] == got;
      outcome := Handled;
    }

    /** update_fixnvfile: seals the buffer and writes it to the primary file if that opens. */
    method UpdateFixnvFile(open: bool)
      requires Valid()
      modifies this`primary, this`moments, fixnvBuffer
      ensures Valid()
      ensures fixnvBuffer[..] == Seal(old(fixnvBuffer[..]), indexValue)
      ensures primary == if open then WriteFile(old(primary), fixnvBuffer[..]) else old(primary)
      ensures moments
              == old(moments) + if open then PrimaryMoments(old(Files()), fixnvBuffer[..]) else []
    {
      SealBuffer();
      if open {
        WritePrimary();
      }
    }

    method SealBuffer()
      requires Valid()
      modifies fixnvBuffer
      ensures fixnvBuffer[..] == Seal(old(fixnvBuffer[..]), indexValue)
    {
      hide Checksum.Computed, LittleEndian;
      ghost var before := fixnvBuffer[..];
      var sum := Checksum.CalcChecksum(fixnvBuffer, FIXNV_SIZE - 4);
      Store16(fixnvBuffer, FIXNV_SIZE - 4, sum);
      Store16(fixnvBuffer, FIXNV_SIZE - 2, (indexValue + 1) % 100);
      ghost var stored := fixnvBuffer[..];
      fixnvBuffer[FIXNV_SIZE] := 0x5A;
      fixnvBuffer[FIXNV_SIZE + 1] := 0x5A;
      fixnvBuffer[FIXNV_SIZE + 2] := 0x5A;
      fixnvBuffer[FIXNV_SIZE + 3] := 0x5A;
      assert fixnvBuffer[..] == stored[..FIXNV_SIZE] + MARKER;
    }

    /** `write(srcfd, fixnv_buffer, size + 4)`: the bytes reach the file one after the other. */
    method WritePrimary()
      requires Valid()
      modifies this`primary, this`moments
      ensures Valid()
      ensures primary == WriteFile(old(primary), fixnvBuffer[..])
      ensures moments == old(moments) + PrimaryMoments(old(Files()), fixnvBuffer[..])
    {
      hide Torn;
      ghost var image, all := fixnvBuffer[..], PrimaryMoments(Files(), fixnvBuffer[..]);
      moments := moments + all[..1];
      TornEnds(primary, image);
      for k := 0 to fixnvBuffer.Length
        invariant Valid() && primary == Torn(old(primary), image, k)
        invariant moments == old(moments) + all[..k + 1]
      {
        TornStep(old(primary), image, k);
        primary := if k < |primary| then primary[k := fixnvBuffer[k]] else primary + [fixnvBuffer[k]];
        moments := moments + [Disk(primary, backup)];
        assert all[..k + 2] == all[..k + 1] + [all[k + 1]];
      }
      assert all[..|image| + 1] == all;
    }

    /** update_backupfile. */
    method UpdateBackupFile(open: bool)
      requires Valid()
      modifies this`backup, this`moments
      ensures Valid()
      ensures backup == if open then WriteFile(old(backup), fixnvBuffer[..]) else old(backup)
      ensures moments == old(moments) + if open then BackupMoments(old(Files()), fixnvBuffer[..]) else []
    {
      if open {
        WriteBackup();
      }
    }

    method WriteBackup()
      requires Valid()
      modifies this`backup, this`moments
      ensures Valid()
      ensures backup == WriteFile(old(backup), fixnvBuffer[..])
      ensures moments == old(moments) + BackupMoments(old(Files()), fixnvBuffer[..])
    {
      hide Torn;
      ghost var image, all := fixnvBuffer[..], BackupMoments(Files(), fixnvBuffer[..]);
      moments := moments + all[..1];
      TornEnds(backup, image);
      for k := 0 to fixnvBuffer.Length
        invariant Valid() && backup == Torn(old(backup), image, k)
        invariant moments == old(moments) + all[..k + 1]
      {
        TornStep(old(backup), image, k);
        backup := if k < |backup| then backup[k := fixnvBuffer[k]] else backup + [fixnvBuffer[k]];
        moments := moments + [Disk(primary, backup)];
        assert all[..k + 2] == all[..k + 1] + [all[k + 1]];
      }
      assert all[..|image| + 1] == all;
    }

    /** One pass of the request loop. */
    method HandleEvent(e: Event) returns (outcome: Outcome)
      requires Valid() && InRange(e)
      modifies this, fixnvBuffer, phasecheckBuffer
      ensures Valid()
      ensures var s := Handle(old(Abs()), e);
              Abs() == s.nv && outcome == s.outcome && moments == old(moments) + s.moments
    {
      hide Fixnv, Runtimenv, Productinfo, PrimaryMoments, BackupMoments, WriteFile;
      match e {
        case HeaderReset =>
          outcome := ReopenPipe;
        case HeaderError =>
          outcome := Handled;
        case Request(h, pipe, opens) =>
          if h.reqType == 1 {
            if updateFixnvFlag == 1 {
              UpdateBackupFile(opens.backup);
            }
            updateFixnvFlag := 0;
            outcome := Handled;
          } else if h.kind == 0 {
            outcome := HandleFixnv(h, pipe, opens);
          } else if h.kind == 1 {
            outcome := HandleRuntimenv(h, pipe, opens);
          } else if h.kind == 2 {
            outcome := HandleProductinfo(h, pipe, opens);
          } else {
            outcome := Handled;
          }
      }
    }

    /** A fixnv request. */
    method HandleFixnv(h: Header, pipe: seq<Item>, opens: Opens) returns (outcome: Outcome)
      requires Valid() && h.offset + h.size <= FILE_SIZE
      modifies this, fixnvBuffer, phasecheckBuffer
      ensures Valid()
      ensures var s := Fixnv(old(Abs()), h, pipe, opens);
              Abs() == s.nv && outcome == s.outcome && moments == old(moments) + s.moments
    {
      hide Overlay, Flat, EndsInReset, Seal, Checksum.Computed, PrimaryMoments, WriteFile;
      if !opens.load {
        Fill(fixnvBuffer, []);
        assert fixnvBuffer[..] == seq(FILE_SIZE, _ => 0xFF);
        return Exited;
      }
      hide Padded;
      Load();
      fixnvBufferOffset := h.offset;
      outcome := Receive(0, pipe, h.size);
      if outcome == Handled {
        updateFixnvFlag := 1;
        UpdateFixnvFile(opens.store);
      }
    }

    /** A runtimenv request. */
    method HandleRuntimenv(h: Header, pipe: seq<Item>, opens: Opens) returns (outcome: Outcome)
      requires Valid()
      modifies this, fixnvBuffer, phasecheckBuffer
      ensures Valid() && moments == old(moments)
      ensures var s := Runtimenv(old(Abs()), h, pipe, opens);
              Abs() == s.nv && outcome == s.outcome && s.moments == []
    {
      hide PutAt, Flat, EndsInReset, Arrived;
      if !opens.load {
        return Exited;
      }
      runtimePosition := h.offset;
      if !opens.backup {
        return Exited;
      }
      outcome := Receive(1, pipe, h.size);
    }

    /** A productinfo request. */
    method HandleProductinfo(h: Header, pipe: seq<Item>, opens: Opens) returns (outcome: Outcome)
      requires Valid() && h.offset + h.size <= PRODUCT_FILE_SIZE
      modifies this, fixnvBuffer, phasecheckBuffer
      ensures Valid() && moments == old(moments)
      ensures var s := Productinfo(old(Abs()), h, pipe, opens);
              Abs() == s.nv && outcome == s.outcome && s.moments == []
      ensures opens == Opens(true, true, true) && |Flat(pipe)| >= h.size
              ==> && outcome == Handled
                  && Carries(product.main, old(product.main), h.offset, Flat(pipe)[..h.size])
                  && Carries(product.copy, old(product.main), h.offset, Flat(pipe)[..h.size])
    {
      hide Overlay, Flat, EndsInReset, ProductImage, WriteFile, Arrived, Carries;
      if opens == Opens(true, true, true) && |Flat(pipe)| >= h.size {
        ProductinfoStored(Abs(), h, pipe, opens);
      }
      if !opens.load {
        Fill(phasecheckBuffer, []);
        assert phasecheckBuffer[..] == seq(PRODUCT_FILE_SIZE, _ => 0xFF);
        return Exited;
      }
      hide Padded;
      Fill(phasecheckBuffer, product.main);
      phasecheckBufferOffset := h.offset;
      outcome := Receive(2, pipe, h.size);
      if outcome == Handled {
        var ret, src, dst := UpdateProductinfo(phasecheckBuffer, PRODUCTINFO_SIZE, product.main, product.copy,
                                               false, opens.store, opens.backup);
        product := Pair(src, dst);
      }
    }

    /** The request loop, until it blocks, exits, or `events` are used up. */
    method Serve(events: seq<Event>)
      requires Valid() && forall e :: e in events ==> InRange(e)
      modifies this, fixnvBuffer, phasecheckBuffer
      ensures Valid()
      ensures Abs() == Run(old(Abs()), events).nv
      ensures moments == old(moments) + Run(old(Abs()), events).moments
    {
      hide Handle, Run, Abs;
      ghost var whole, sent := Run(Abs(), events), [];
      assert events[0..] == events;
      assert sent + whole.moments == whole.moments;
      var outcome, i := Handled, 0;
      while i < |events| && !Stops(outcome)
        invariant Valid() && 0 <= i <= |events|
        invariant moments == old(moments) + sent
        invariant if Stops(outcome) then whole.nv == Abs() && whole.moments == sent
                  else whole.nv == Run(Abs(), events[i..]).nv && whole.moments == sent + Run(Abs(), events[i..]).moments
      {
        RunStep(Abs(), events, i);
        ghost var first := Handle(Abs(), events[i]);
        ghost var later := Run(first.nv, events[i + 1..]).moments;
        assert sent + (first.moments + later) == (sent + first.moments) + later;
        outcome := HandleEvent(events[i]);
        assert old(moments) + (sent + first.moments) == (old(moments) + sent) + first.moments;
        sent := sent + first.moments;
        i := i + 1;
      }
      if !Stops(outcome) {
        assert events[i..] == [];
      }
      RunNone(Abs());
      assert sent + [] == sent;
    }
  }

  lemma RunStep(nv: Nv, events: seq<Event>, i: nat)
    requires i < |events| && forall e :: e in events ==> InRange(e)
    ensures var first := Handle(nv, events[i]);
            if Stops(first.outcome) then Run(nv, events[i..]) == first
            else Run(nv, events[i..]).nv == Run(first.nv, events[i + 1..]).nv
                 && Run(nv, events[i..]).moments == first.moments + Run(first.nv, events[i + 1..]).moments
  {
    assert events[i..][1..] == events[i + 1..];
  }

  lemma RunNone(nv: Nv)
    ensures Run(nv, []) == Step(nv, Handled, [])
  {
  }

  lemma OverlayNothing(b: seq<byte>, at: nat)
    requires at <= |b|
    ensures Overlay(b, at, []) == b
  {
  }

  lemma ReadNothing(want: nat)
    ensures Read([], want) == (Blocks, [])
  {
  }

  lemma TornEnds(file: seq<byte>, image: seq<byte>)
    ensures Torn(file, image, 0) == file && Torn(file, image, |image|) == WriteFile(file, image)
  {
    assert image[..|image|] == image;
  }

  lemma TornStep(file: seq<byte>, image: seq<byte>, k: nat)
    requires k < |image|
    ensures var t := Torn(file, image, k);
            Torn(file, image, k + 1) == if k < |t| then t[k := image[k]] else t + [image[k]]
  {
  }

  // ---- productinfo ----

  /** The sealing part of update_productinfofile_emmc: marker, then the CRC over data and marker. */
  method SealProductinfo(buf: array<byte>, size: nat)
    requires size + 8 <= buf.Length
    modifies buf
    ensures buf[..size + 8] == ProductImage(old(buf[..size]))
    ensures buf[size + 8..] == old(buf[size + 8..])
  {
    hide Crc32b.BigEndian, ShiftRegister.Crc;
    ghost var data := buf[..size];
    buf[size] := 0x5A;
    buf[size + 1] := 0x5A;
    buf[size + 2] := 0x5A;
    buf[size + 3] := 0x5A;
    assert buf[..size + 4] == data + MARKER;
    var crc := Crc32b.Crc32Of(0xFFFF_FFFF, true, buf, size + 4);
    var be := Crc32b.BigEndian(crc);
    buf[size + 4] := be[0];
    buf[size + 5] := be[1];
    buf[size + 6] := be[2];
    buf[size + 7] := be[3];
    assert buf[..size + 8] == (data + MARKER) + be;
  }

  /** update_productinfofile_emmc: the sealed image goes to both files, to the second only behind the first. */
  method UpdateProductinfo(buf: array<byte>, size: nat, src: seq<byte>, dst: seq<byte>,
                           samePath: bool, openSrc: bool, openDst: bool)
    returns (ret: int, src': seq<byte>, dst': seq<byte>)
    requires size + 8 <= buf.Length
    modifies buf
    ensures ret == if !samePath && openSrc && openDst then 1 else -1
    ensures !samePath ==> buf[..size + 8] == ProductImage(old(buf[..size])) && buf[size + 8..] == old(buf[size + 8..])
    ensures src' == if !samePath && openSrc then WriteFile(src, ProductImage(old(buf[..size]))) else src
    ensures dst' == if ret == 1 then WriteFile(dst, ProductImage(old(buf[..size]))) else dst
  {
    ret, src', dst' := -1, src, dst;
    if samePath {
      return;
    }
    SealProductinfo(buf, size);
    if !openSrc {
      return;
    }
    src' := WriteFile(src, buf[..size + 8]);
    if !openDst {
      return;
    }
    dst' := WriteFile(dst, buf[..size + 8]);
    ret := 1;
  }

  /**
    Two daemons in the same state that are sent the same payload, cut into different reads and with
    different failures between them, end in the same state.
  */
  method SendTwice(one: Daemon, other: Daemon, h: Header, pipe: seq<Item>, pipe': seq<Item>, opens: Opens)
    returns (outcome: Outcome, outcome': Outcome)
    requires one != other && one.Valid() && other.Valid()
    requires one.fixnvBuffer != other.fixnvBuffer && one.phasecheckBuffer != other.phasecheckBuffer
    requires one.fixnvBuffer != other.phasecheckBuffer && one.phasecheckBuffer != other.fixnvBuffer
    requires one.Abs() == other.Abs() && one.moments == other.moments
    requires InRange(Request(h, pipe, opens)) && Flat(pipe) == Flat(pipe') && EndsInReset(pipe) == EndsInReset(pipe')
    modifies one, other, one.fixnvBuffer, one.phasecheckBuffer, other.fixnvBuffer, other.phasecheckBuffer
    ensures one.Abs() == other.Abs() && one.moments == other.moments && outcome == outcome'
  {
    hide Handle;
    FragmentationIsInvisible(one.Abs(), h, pipe, pipe', opens);
    outcome := one.HandleEvent(Request(h, pipe, opens));
    outcome' := other.HandleEvent(Request(h, pipe', opens));
  }
}
