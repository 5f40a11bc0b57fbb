/** The capture path of common/libs/audio/audio_hw.c: period buffer, processing buffer and preprocessors. */
module AudioCapture {
  import opened Sequences
  import opened Wrappers

  /** One frame: a sample for every channel. */
  datatype Frame = Frame(samples: seq<int>)

  /** What one `pcm_read` of a whole period gives. */
  datatype PcmRead = Period(frames: seq<Frame>) | Error(status: int)

  const ENODEV: int := 19

  /** Everything captured by the first `k` reads. */
  function Source(device: nat -> PcmRead, k: nat): seq<Frame> {
    if k == 0 then []
    else Source(device, k - 1) + if device(k - 1).Period? then device(k - 1).frames else []
  }

  /** Successful reads deliver whole periods; failed ones have a negative status. */
  ghost predicate Delivers(device: nat -> PcmRead, periodSize: nat) {
    forall k: nat :: match device(k)
                     case Period(frames) => |frames| == periodSize
                     case Error(status) => status < 0
  }

  /** What the preprocessors do with the frames offered in a round: how many they take, and what they produce. */
  datatype Processed = Processed(consumed: nat, produced: seq<Frame>)

  /** The preprocessors neither take nor produce more than they are offered. */
  ghost predicate Honest(chain: (nat, seq<Frame>, nat) -> Processed) {
    forall round, offered, room ::
      && chain(round, offered, room).consumed <= |offered|
      && |chain(round, offered, room).produced| <= room
  }

  /** One round of the preprocessors: the frames offered, the room for output, and what they made of them. */
  datatype Round = Round(offered: seq<Frame>, room: nat, result: Processed)

  /** The offered frames it took. */
  function Used(r: Round): seq<Frame> {
    if r.result.consumed <= |r.offered| then r.offered[..r.result.consumed] else r.offered
  }

  function Consumed(trace: seq<Round>): seq<Frame> {
    if trace == [] then [] else Consumed(trace[..|trace| - 1]) + Used(trace[|trace| - 1])
  }

  function Produced(trace: seq<Round>): seq<Frame> {
    if trace == [] then [] else Produced(trace[..|trace| - 1]) + trace[|trace| - 1].result.produced
  }

  function Most(a: nat, b: nat): nat {
    if a < b then b else a
  }

  /** How many offered frames are left after these rounds, of `left` before them. */
  function Left(trace: seq<Round>, left: nat): nat {
    if trace == [] then left else |trace[|trace| - 1].offered| - |Used(trace[|trace| - 1])|
  }

  /**
    The rounds of one request for `frames` frames, with `left` frames in the processing buffer: each
    offers at least as many, topping up what the round before left, and asks for what is still missing.
  */
  ghost predicate Asks(trace: seq<Round>, frames: nat, left: nat) {
    forall k :: 0 <= k < |trace| ==> AsksAt(trace[..k], trace[k], frames, left)
  }

  ghost predicate AsksAt(before: seq<Round>, r: Round, frames: nat, left: nat) {
    |r.offered| == Most(frames, Left(before, left)) && r.room == frames - |Produced(before)| && r.room > 0
  }

  /** What each round offered are the captured frames behind those consumed before it. */
  ghost predicate Offers(trace: seq<Round>, captured: seq<Frame>) {
    forall k :: 0 <= k < |trace| ==> Consumed(trace[..k]) + trace[k].offered <= captured
  }

  /** Each round's result is what the preprocessors do in it; they may remember all rounds before. */
  ghost predicate Records(trace: seq<Round>, chain: (nat, seq<Frame>, nat) -> Processed) {
    forall k :: 0 <= k < |trace| ==> trace[k].result == chain(k, trace[k].offered, trace[k].room)
  }

  lemma NoRounds(frames: nat, left: nat)
    ensures Asks([], frames, left) && Left([], left) == left && Produced([]) == []
  {
  }

  lemma LeftNext(trace: seq<Round>, r: Round, left: nat)
    ensures Left(trace + [r], left) == |r.offered| - |Used(r)|
  {
  }

  lemma HonestAt(chain: (nat, seq<Frame>, nat) -> Processed, round: nat, offered: seq<Frame>, room: nat)
    requires Honest(chain)
    ensures chain(round, offered, room).consumed <= |offered|
    ensures |chain(round, offered, room).produced| <= room
  {
  }

  lemma RoundNext(trace: seq<Round>, r: Round, chain: (nat, seq<Frame>, nat) -> Processed, captured: seq<Frame>)
    requires Records(trace, chain) && r.result == chain(|trace|, r.offered, r.room)
    requires Offers(trace, captured) && captured == Consumed(trace) + r.offered
    ensures Records(trace + [r], chain) && Offers(trace + [r], captured)
    ensures Consumed(trace + [r]) == Consumed(trace) + Used(r)
  {
    hide Records, Offers, Consumed, Produced;
    RecordsNext(trace, r, chain);
    OffersNext(trace, r, captured);
    SumsNext(trace, r);
  }

  lemma RecordsNext(trace: seq<Round>, r: Round, chain: (nat, seq<Frame>, nat) -> Processed)
    requires Records(trace, chain) && r.result == chain(|trace|, r.offered, r.room)
    ensures Records(trace + [r], chain)
  {
  }

  lemma AsksNext(trace: seq<Round>, r: Round, frames: nat, left: nat)
    requires Asks(trace, frames, left) && AsksAt(trace, r, frames, left)
    ensures Asks(trace + [r], frames, left)
  {
    hide AsksAt;
    forall k | 0 <= k < |trace| + 1 ensures AsksAt((trace + [r])[..k], (trace + [r])[k], frames, left) {
      assert (trace + [r])[..k] == trace[..k];
      assert trace[..|trace|] == trace;
    }
  }

  lemma OffersNext(trace: seq<Round>, r: Round, captured: seq<Frame>)
    requires Offers(trace, captured) && Consumed(trace) + r.offered <= captured
    ensures Offers(trace + [r], captured)
  {
    hide Consumed;
    forall k | 0 <= k < |trace| + 1 ensures Consumed((trace + [r])[..k]) + (trace + [r])[k].offered <= captured {
      assert (trace + [r])[..k] == trace[..k];
      assert trace[..|trace|] == trace;
    }
  }

  /** More captured frames do not change what was offered. */
  lemma OffersLater(trace: seq<Round>, captured: seq<Frame>, more: seq<Frame>)
    requires Offers(trace, captured)
    ensures Offers(trace, captured + more)
  {
    hide Consumed;
  }

  lemma SumsNext(trace: seq<Round>, r: Round)
    ensures Consumed(trace + [r]) == Consumed(trace) + Used(r)
    ensures Produced(trace + [r]) == Produced(trace) + r.result.produced
  {
    assert (trace + [r])[..|trace|] == trace;
  }

  lemma {:induction false} ProducedAppend(a: seq<Round>, b: seq<Round>)
    ensures Produced(a + b) == Produced(a) + Produced(b)
    decreases |b|
  {
    hide Produced;
    if b == [] {
      assert a + b == a;
      NoRounds(0, 0);
    } else {
      var front, last := b[..|b| - 1], b[|b| - 1];
      assert b == front + [last];
      ProducedAppend(a, front);
      Assoc(a, front, [last]);
      SumsNext(a + front, last);
      SumsNext(front, last);
      Assoc(Produced(a), Produced(front), last.result.produced);
    }
  }

  /** `process_frames` has returned, or is still waiting for the preprocessors to produce. */
  datatype Outcome = Returned(n: int) | Running

  /** The reads from `from` up to `to` have all delivered a period. */
  ghost predicate Clean(device: nat -> PcmRead, from: nat, to: nat) {
    forall k: nat :: from <= k < to ==> device(k).Period?
  }

  /** `n` is the error of the last of these reads, and the first among them; or there is no device to read. */
  ghost predicate Broke(device: nat -> PcmRead, pcm: bool, from: nat, to: nat, n: int) {
    if pcm then from < to && device(to - 1) == Error(n) && Clean(device, from, to - 1) else n == -ENODEV
  }

  lemma CleanNone(device: nat -> PcmRead, from: nat)
    ensures Clean(device, from, from)
  {
  }

  lemma CleanThen(device: nat -> PcmRead, pcm: bool, from: nat, mid: nat, to: nat, n: int)
    requires from <= mid <= to && Clean(device, from, mid)
    ensures Clean(device, mid, to) ==> Clean(device, from, to)
    ensures Broke(device, pcm, mid, to, n) ==> Broke(device, pcm, from, to, n)
  {
  }

  class TinyStreamIn {
    const device: nat -> PcmRead
    const chain: (nat, seq<Frame>, nat) -> Processed
    const periodSize: nat
    const pcm: bool
    var position: nat
    const buffer: array<Frame>
    var framesIn: nat
    var readStatus: int
    var procBuf: array<Frame>
    var procBufSize: nat
    var procFramesIn: nat
    /** How often the preprocessors have been called, over all requests. */
    var round: nat
    /** What happened in each of these rounds. */
    ghost var trace: seq<Round>

    ghost predicate Valid()
      reads this`position, this`framesIn, this`readStatus, this`procBuf, this`procBufSize, this`procFramesIn, buffer
      ensures Valid() ==> framesIn <= |Source(device, position)| && framesIn <= periodSize == buffer.Length
    {
      && Delivers(device, periodSize)
      && 0 < periodSize == buffer.Length
      && buffer != procBuf
      && framesIn <= periodSize
      && (framesIn > 0 && pcm ==> readStatus == 0)
      && procFramesIn <= procBufSize == procBuf.Length
      && framesIn <= |Source(device, position)|
      && Source(device, position) == Taken() + Tail()
    }

    /** The frames of the period buffer that were not handed out yet. */
    ghost function Tail(): seq<Frame>
      requires framesIn <= periodSize == buffer.Length
      reads this`framesIn, buffer
    {
      buffer[periodSize - framesIn..]
    }

    /** The frames that have left the period buffer. */
    ghost function Taken(): seq<Frame>
      requires framesIn <= |Source(device, position)|
      reads this`position, this`framesIn
    {
      Source(device, position)[..|Source(device, position)| - framesIn]
    }

    /** Every round was offered captured frames in order, and its result is the preprocessors'. */
    ghost predicate Recorded()
      requires framesIn <= |Source(device, position)|
      reads this`position, this`framesIn, this`round, this`trace
    {
      Honest(chain) && round == |trace| && Records(trace, chain) && Offers(trace, Taken())
    }

    /** No frame was lost, duplicated or reordered on its way to the preprocessors. */
    ghost predicate Conserved()
      requires Valid()
      reads this, buffer, procBuf
    {
      Recorded() && Taken() == Consumed(trace) + procBuf[..procFramesIn]
    }

    constructor (device: nat -> PcmRead, chain: (nat, seq<Frame>, nat) -> Processed, periodSize: nat, pcm: bool,
                 blank: Frame)
      requires Delivers(device, periodSize) && Honest(chain) && periodSize > 0
      ensures Valid() && Conserved() && position == 0 && trace == []
      ensures fresh(buffer) && fresh(procBuf)
    {
      this.device, this.chain, this.periodSize, this.pcm := device, chain, periodSize, pcm;
      buffer := new Frame[periodSize](_ => blank);
      procBuf := new Frame[0];
      position, framesIn, readStatus, procBufSize, procFramesIn, round := 0, 0, 0, 0, 0, 0;
      trace := [];
    }

    /** The pcm_read of a whole period into an empty period buffer. */
    method ReadPeriod()
      requires Valid() && framesIn == 0 && pcm
      modifies this`position, this`framesIn, this`readStatus, buffer
      ensures Valid() && Taken() == old(Taken()) && position == old(position) + 1
      ensures readStatus == 0 ==> framesIn == periodSize && device(old(position)).Period?
      ensures readStatus != 0 ==> framesIn == 0 && readStatus < 0 && device(old(position)) == Error(readStatus)
    {
      var r := device(position);
      position := position + 1;
      match r {
        case Error(status) =>
          readStatus := status;
        case Period(frames) =>
          readStatus := 0;
          forall i | 0 <= i < periodSize {
            buffer[i] := frames[i];
          }
          framesIn := periodSize;
          assert buffer[..] == frames;
      }
    }

    /** get_next_buffer: the cell the frames start at and how many there are; `ok` is false for a null buffer. */
    method GetNextBuffer(want: nat) returns (ok: bool, at: nat, count: nat)
      requires Valid()
      modifies this`position, this`framesIn, this`readStatus, buffer
      ensures Valid() && Taken() == old(Taken())
      ensures ok <==> readStatus == 0
      ensures ok ==> pcm && Clean(device, old(position), position) && position == old(position) + if old(framesIn) == 0 then 1 else 0
      ensures ok ==> count == (if want < framesIn then want else framesIn) && framesIn > 0
      ensures ok ==> at == periodSize - framesIn && buffer[at..at + count] == Tail()[..count]
      ensures !ok ==> count == 0 && readStatus < 0 && Broke(device, pcm, old(position), position, readStatus)
      ensures !ok ==> position == old(position) + if pcm then 1 else 0
    {
      hide Source, Delivers;
      ok, at, count := false, 0, 0;
      if !pcm {
        readStatus := -ENODEV;
        return;
      }
      if framesIn == 0 {
        ReadPeriod();
        if readStatus != 0 {
          return;
        }
      }
      count := if want > framesIn then framesIn else want;
      at := periodSize - framesIn;
      ok := true;
    }

    /** release_buffer. */
    method ReleaseBuffer(count: nat)
      requires Valid() && count <= framesIn
      modifies this`framesIn
      ensures Valid() && framesIn == old(framesIn) - count
      ensures Taken() == old(Taken()) + old(Tail())[..count]
      ensures count == 0 ==> Taken() == old(Taken())
    {
      framesIn := framesIn - count;
    }

    /**
      read_frames without a resampler: copies frames to `dest[at..]`. `got` is what was copied, also
      when an error ends the loop early.
    */
    method ReadFrames(dest: array<Frame>, at: nat, frames: nat) returns (n: int, ghost got: seq<Frame>)
      requires Valid() && dest != buffer && at + frames <= dest.Length
      modifies this`position, this`framesIn, this`readStatus, buffer, dest
      ensures Valid() && Taken() == old(Taken()) + got
      ensures n == frames || n < 0
      ensures n == frames ==> dest[at..at + frames] == got && Clean(device, old(position), position)
      ensures n < 0 ==> |got| < frames && Broke(device, pcm, old(position), position, n)
      ensures position >= old(position)
      ensures forall i :: 0 <= i < at ==> dest[i] == old(dest[i])
    {
      hide Source, Delivers, Valid, Taken, Tail, Clean, Broke;
      got := [];
      var framesWr := 0;
      CleanNone(device, position);
      while framesWr < frames
        invariant Valid() && 0 <= framesWr <= frames && |got| == framesWr
        invariant position >= old(position) && Clean(device, old(position), position)
        invariant Taken() == old(Taken()) + got
        invariant forall i :: 0 <= i < framesWr ==> dest[at + i] == got[i]
        invariant forall i :: 0 <= i < at ==> dest[i] == old(dest[i])
      {
        ghost var mid := position;
        var k := CopyFrames(dest, at + framesWr, frames - framesWr);
        CleanThen(device, pcm, old(position), mid, position, readStatus);
        if readStatus != 0 {
          n := readStatus;
          return;
        }
        ghost var part := dest[at + framesWr..at + framesWr + k];
        Assoc(old(Taken()), got, part);
        got := got + part;
        framesWr := framesWr + k;
      }
      n := framesWr;
    }

    /** One pass of the loop of read_frames. */
    method CopyFrames(dest: array<Frame>, at: nat, framesRd: nat) returns (k: nat)
      requires Valid() && dest != buffer && framesRd > 0 && at + framesRd <= dest.Length
      modifies this`position, this`framesIn, this`readStatus, buffer, dest
      ensures Valid() && k <= framesRd && old(position) <= position <= old(position) + 1
      ensures readStatus == 0 ==> k > 0 && Taken() == old(Taken()) + dest[at..at + k] && Clean(device, old(position), position)
      ensures readStatus != 0 ==> readStatus < 0 && Taken() == old(Taken()) && Broke(device, pcm, old(position), position, readStatus)
      ensures forall i :: 0 <= i < at ==> dest[i] == old(dest[i])
    {
      hide Source, Delivers, Valid, Taken, Tail;
      var ok, from, count := GetNextBuffer(framesRd);
      k := framesRd;
      if !ok {
        ReleaseBuffer(count);
        return;
      }
      k := count;
      Emit(dest, at, buffer[from..from + count]);
      ReleaseBuffer(count);
    }

    /** `realloc`: the frames in the buffer are kept. */
    method Grow(size: nat, blank: Frame)
      requires Valid() && procBufSize < size
      modifies this`procBuf, this`procBufSize
      ensures Valid() && procBufSize == size && fresh(procBuf)
      ensures procBuf[..procFramesIn] == old(procBuf[..procFramesIn])
    {
      var bigger := new Frame[size](_ => blank);
      forall i | 0 <= i < procFramesIn {
        bigger[i] := procBuf[i];
      }
      procBuf, procBufSize := bigger, size;
    }

    /** Tops the processing buffer up to `frames` frames; `got` is what was copied there. */
    method TopUp(frames: nat, blank: Frame) returns (status: int, ghost got: seq<Frame>)
      requires Valid() && procFramesIn < frames
      modifies this`position, this`framesIn, this`readStatus, this`procBuf, this`procBufSize, this`procFramesIn
      modifies buffer, procBuf
      ensures Valid() && (procBuf == old(procBuf) || fresh(procBuf))
      ensures Taken() == old(Taken()) + got
      ensures status == 0 ==> procFramesIn == frames && procBuf[..procFramesIn] == old(procBuf[..procFramesIn]) + got
      ensures position >= old(position) && (status == 0 ==> Clean(device, old(position), position))
      ensures status != 0 ==> status < 0 && Broke(device, pcm, old(position), position, status) && |got| < frames
      ensures status != 0 ==> procBuf[..procFramesIn] == old(procBuf[..procFramesIn])
    {
      hide Source, Delivers, Taken, Tail, Clean, Broke;
      status := 0;
      if procBufSize < frames {
        Grow(frames, blank);
      }
      ghost var kept := procBuf[..procFramesIn];
      var framesRd;
      framesRd, got := ReadFrames(procBuf, procFramesIn, frames - procFramesIn);
      assert procBuf[..procFramesIn] == kept;
      if framesRd < 0 {
        status := framesRd;
        return;
      }
      assert procBuf[..procFramesIn + framesRd] == kept + got;
      procFramesIn := procFramesIn + framesRd;
    }

    /**
      The first half of the loop of process_frames: tops the processing buffer up to `frames`. When
      the read fails, the frames it had already copied are `lost`.
    */
    method Reload(frames: nat, blank: Frame) returns (status: int, ghost lost: seq<Frame>)
      requires Valid() && Conserved()
      modifies this`position, this`framesIn, this`readStatus, this`procBuf, this`procBufSize, this`procFramesIn
      modifies buffer, procBuf
      ensures Valid() && (procBuf == old(procBuf) || fresh(procBuf))
      ensures status == 0 ==> Conserved() && procFramesIn == Most(frames, old(procFramesIn)) && lost == []
      ensures position >= old(position) && (status == 0 ==> Clean(device, old(position), position))
      ensures status != 0 ==> status < 0 && |lost| < frames && Broke(device, pcm, old(position), position, status)
      ensures status != 0 ==> Taken() == Consumed(trace) + procBuf[..procFramesIn] + lost
    {
      hide Source, Delivers, Offers, Consumed, Records, Honest;
      status, lost := 0, [];
      CleanNone(device, position);
      if procFramesIn < frames {
        ghost var taken, kept := Taken(), procBuf[..procFramesIn];
        ghost var got;
        status, got := TopUp(frames, blank);
        OffersLater(trace, taken, got);
        assert (Consumed(trace) + kept) + got == Consumed(trace) + (kept + got);
        if status != 0 {
          lost := got;
        }
      }
    }

    /**
      The second half: the preprocessors get the whole processing buffer and room for `room` frames
      at `out[at..]`; what they leave moves to the front of the buffer.
    */
    method Process(out: array<Frame>, at: nat, room: nat) returns (n: nat)
      requires Valid() && Conserved()
      requires at + room <= out.Length && out != buffer && out != procBuf
      modifies this`procFramesIn, this`round, this`trace, procBuf, out
      ensures Valid() && Conserved() && n <= room
      ensures var offered := old(procBuf[..procFramesIn]);
              trace == old(trace) + [Round(offered, room, chain(old(round), offered, room))]
      ensures out[at..at + n] == trace[|trace| - 1].result.produced
      ensures procFramesIn == old(procFramesIn) - |Used(trace[|trace| - 1])|
      ensures forall i :: 0 <= i < at ==> out[i] == old(out[i])
    {
      hide Source, Delivers, Consumed, Produced, Honest, Recorded;
      HonestChain();
      ghost var offered := procBuf[..procFramesIn];
      HonestAt(chain, round, procBuf[..procFramesIn], room);
      var p := chain(round, procBuf[..procFramesIn], room);
      Record(Round(offered, room, p));
      n := |p.produced|;
      Emit(out, at, p.produced);
      DropFront(p.consumed);
      Rejoin(Consumed(old(trace)), offered, p.consumed);
    }

    lemma HonestChain()
      requires Valid() && Recorded()
      ensures Honest(chain)
    {
    }

    lemma Rejoin(before: seq<Frame>, offered: seq<Frame>, k: nat)
      requires k <= |offered|
      ensures (before + offered[..k]) + offered[k..] == before + offered
    {
    }

    /** Another call of the preprocessors with all that is in the processing buffer. */
    method Record(ghost r: Round)
      requires Valid() && Recorded()
      requires r.result == chain(round, r.offered, r.room) && Taken() == Consumed(trace) + r.offered
      modifies this`round, this`trace
      ensures Valid() && Recorded() && Taken() == old(Taken()) && round == old(round) + 1
      ensures trace == old(trace) + [r] && Consumed(trace) == Consumed(old(trace)) + Used(r)
    {
      hide Source, Delivers, Offers, Consumed, Produced, Records, Honest;
      RoundNext(trace, r, chain, Taken());
      round, trace := round + 1, trace + [r];
    }

    /** A copy of frames to `out`, which goes behind what is there. */
    method Emit(out: array<Frame>, at: nat, frames: seq<Frame>)
      requires at + |frames| <= out.Length
      modifies out
      ensures out[at..at + |frames|] == frames
      ensures forall i :: 0 <= i < out.Length && !(at <= i < at + |frames|) ==> out[i] == old(out[i])
    {
      forall i | 0 <= i < |frames| {
        out[at + i] := frames[i];
      }
    }

    /** `memcpy(proc_buf, proc_buf + k, ...)`, as a move. */
    method DropFront(k: nat)
      requires Valid() && k <= procFramesIn
      modifies this`procFramesIn, procBuf
      ensures Valid() && procFramesIn == old(procFramesIn) - k && Taken() == old(Taken())
      ensures Recorded() == old(Recorded())
      ensures procBuf[..procFramesIn] == old(procBuf[..procFramesIn])[k..]
    {
      hide Source, Delivers, Offers, Records, Honest;
      procFramesIn := procFramesIn - k;
      forall i | 0 <= i < procFramesIn {
        procBuf[i] := procBuf[i + k];
      }
    }

    /** One pass of the loop of process_frames, when `done` of `frames` frames are out. */
    method OneRound(out: array<Frame>, frames: nat, done: nat, blank: Frame)
      returns (status: int, n: nat, ghost lost: seq<Frame>)
      requires Valid() && Conserved()
      requires done < frames <= out.Length && out != buffer && out != procBuf
      modifies this, buffer, procBuf, out
      ensures Valid() && (procBuf == old(procBuf) || fresh(procBuf)) && position >= old(position)
      ensures status == 0 ==> Conserved() && Clean(device, old(position), position) && done + n <= frames
      ensures status == 0 ==> |trace| == |old(trace)| + 1 && trace[..|old(trace)|] == old(trace)
      ensures status == 0 ==> var r := trace[|old(trace)|];
                              && |r.offered| == Most(frames, old(procFramesIn)) && r.room == frames - done
                              && out[done..done + n] == r.result.produced
                              && procFramesIn == |r.offered| - |Used(r)|
      ensures status != 0 ==> status < 0 && Broke(device, pcm, old(position), position, status) && |lost| < frames && trace == old(trace)
      ensures status != 0 ==> Taken() == Consumed(trace) + procBuf[..procFramesIn] + lost
      ensures forall i :: 0 <= i < done ==> out[i] == old(out[i])
    {
      hide Source, Delivers, Consumed, Produced, Offers, Records, Honest;
      n := 0;
      status, lost := Reload(frames, blank);
      if status < 0 {
        return;
      }
      n := Process(out, done, frames - done);
    }

    /**
      process_frames. `limit` is how many rounds we watch: if the preprocessors have not produced
      enough by then the outcome is `Running`. `tr` are the rounds it took.
    */
    method ProcessFrames(out: array<Frame>, frames: nat, limit: nat, blank: Frame)
      returns (outcome: Outcome, ghost tr: seq<Round>, ghost lost: seq<Frame>)
      requires Valid() && Conserved()
      requires frames <= out.Length && out != buffer && out != procBuf
      modifies this, buffer, procBuf, out
      ensures Valid() && (procBuf == old(procBuf) || fresh(procBuf)) && position >= old(position)
      ensures trace == old(trace) + tr && Asks(tr, frames, old(procFramesIn))
      ensures |Produced(tr)| <= frames && out[..|Produced(tr)|] == Produced(tr)
      ensures outcome.Running? ==> Conserved() && Clean(device, old(position), position) && |tr| == limit && |Produced(tr)| < frames
      ensures outcome.Returned? && outcome.n >= 0
              ==> Conserved() && Clean(device, old(position), position) && outcome.n == frames == |Produced(tr)|
      ensures outcome.Returned? && outcome.n < 0
              ==> Broke(device, pcm, old(position), position, outcome.n) && |lost| < frames
                  && Taken() == Consumed(trace) + procBuf[..procFramesIn] + lost
    {
      hide Source, Delivers, Consumed, Produced, Offers, Records, Honest, Asks, Left;
      hide Clean, Broke;
      ghost var left := procFramesIn;
      CleanNone(device, position);
      lost, tr := [], [];
      var framesWr, rounds := 0, 0;
      NoRounds(frames, left);
      assert trace == old(trace) + tr;
      assert out[..framesWr] == [];
      while framesWr < frames
        invariant Valid() && Conserved() && 0 <= framesWr <= frames && rounds == |tr| <= limit
        invariant trace == old(trace) + tr && Asks(tr, frames, left) && procFramesIn == Left(tr, left)
        invariant out[..framesWr] == Produced(tr) && |Produced(tr)| == framesWr
        invariant position >= old(position) && Clean(device, old(position), position)
        invariant out != procBuf && (procBuf == old(procBuf) || fresh(procBuf))
        decreases limit - rounds
      {
        if rounds == limit {
          outcome := Running;
          return;
        }
        ghost var sent, before, mid := out[..framesWr], trace, position;
        var status, n;
        status, n, lost := OneRound(out, frames, framesWr, blank);
        CleanThen(device, pcm, old(position), mid, position, status);
        if status < 0 {
          outcome := Returned(status);
          assert out[..framesWr] == sent;
          return;
        }
        ghost var r := trace[|before|];
        assert trace == old(trace) + (tr + [r]);
        assert out[..framesWr + n] == sent + out[framesWr..framesWr + n];
        SumsNext(tr, r);
        AsksNext(tr, r, frames, left);
        LeftNext(tr, r, left);
        tr := tr + [r];
        rounds := rounds + 1;
        if n == 0 {
          continue;
        }
        framesWr := framesWr + n;
      }
      outcome := Returned(framesWr);
    }

    /**
      A sequence of requests on one stream, up to the first that fails or does not return within
      `limit` rounds; `stop` is that one's outcome. `tr` are all rounds.
    */
    method Capture(requests: seq<nat>, out: array<Frame>, limit: nat, blank: Frame)
      returns (served: seq<seq<Frame>>, stop: Option<Outcome>, ghost tr: seq<Round>)
      requires Valid() && Conserved()
      requires forall r :: r in requests ==> r <= out.Length
      requires out != buffer && out != procBuf
      modifies this, buffer, procBuf, out
      ensures Valid() && trace == old(trace) + tr
      ensures |served| <= |requests| && forall i :: 0 <= i < |served| ==> |served[i]| == requests[i]
      ensures stop.None? <==> |served| == |requests|
      ensures stop.None? ==> Conserved() && Clean(device, old(position), position) && Produced(tr) == Concat(served)
      ensures stop.None? ==> Source(device, position) == Consumed(trace) + procBuf[..procFramesIn] + Tail()
      ensures stop.Some? ==> stop.value.Running? || (stop.value.n < 0 && Broke(device, pcm, old(position), position, stop.value.n))
      ensures stop.Some? ==> Concat(served) <= Produced(tr) && |Produced(tr)| <= |Concat(served)| + requests[|served|]
      ensures stop.Some? && stop.value.Running?
              ==> |tr| >= limit && Produced(tr[..|tr| - limit]) == Concat(served)
                  && |Produced(tr)| < |Concat(served)| + requests[|served|]
    {
      hide Source, Delivers, Consumed, Produced, Offers, Records, Honest, Asks, Left, Concat;
      hide Clean, Broke;
      served, stop, tr := [], None, [];
      CleanNone(device, position);
      NoRounds(0, 0);
      ConcatNone<Frame>();
      assert trace == old(trace) + tr;
      while |served| < |requests|
        invariant Valid() && Conserved() && |served| <= |requests|
        invariant position >= old(position) && Clean(device, old(position), position)
        invariant trace == old(trace) + tr && Produced(tr) == Concat(served)
        invariant forall i :: 0 <= i < |served| ==> |served[i]| == requests[i]
        invariant out != procBuf && (procBuf == old(procBuf) || fresh(procBuf))
      {
        assert requests[|served|] in requests;
        ghost var before, mid := tr, position;
        ghost var more, lost;
        var outcome;
        outcome, more, lost := ProcessFrames(out, requests[|served|], limit, blank);
        assert old(trace) + (before + more) == (old(trace) + before) + more;
        tr := before + more;
        ProducedAppend(before, more);
        CleanThen(device, pcm, old(position), mid, position, if outcome.Running? then 0 else outcome.n);
        if outcome.Running? || outcome.n < 0 {
          assert tr[..|before|] == before;
          stop := Some(outcome);
          return;
        }
        ConcatNext(served, out[..outcome.n]);
        served := served + [out[..outcome.n]];
      }
    }
  }

  lemma Periods(p: nat, i: nat, k: nat)
    requires i < k
    ensures 0 <= i * p && (i + 1) * p == i * p + p && (i + 1) * p <= k * p
  {
    if i + 1 < k {
      Periods(p, i, k - 1);
    }
    assert (k - 1) * p + p == k * p;
  }

  lemma SourceNext(device: nat -> PcmRead, k: nat)
    requires device(k).Period?
    ensures Source(device, k + 1) == Source(device, k) + device(k).frames
  {
  }

  /** The source is the periods of the successful reads, one behind the other. */
  lemma {:induction false} SourceOfPeriods(device: nat -> PcmRead, periodSize: nat, k: nat, i: nat)
    requires Delivers(device, periodSize) && i < k
    requires forall j: nat :: j < k ==> device(j).Period?
    ensures |Source(device, k)| == k * periodSize
    ensures 0 <= i * periodSize <= (i + 1) * periodSize <= k * periodSize
    ensures Source(device, k)[i * periodSize..(i + 1) * periodSize] == device(i).frames
    decreases k
  {
    Periods(periodSize, i, k);
    Periods(periodSize, k - 1, k);
    assert device(k - 1).Period?;
    SourceNext(device, k - 1);
    if k == 1 {
      assert Source(device, 0) == [];
    } else {
      var j := if i < k - 1 then i else 0;
      hide Source, Delivers;
      Periods(periodSize, j, k - 1);
      SourceOfPeriods(device, periodSize, k - 1, j);
      PeriodSizes(device, periodSize, k - 1);
      var before := Source(device, k - 1);
      if i < k - 1 {
        assert Source(device, k)[i * periodSize..(i + 1) * periodSize] == before[i * periodSize..(i + 1) * periodSize];
      } else {
        assert Source(device, k)[|before|..|before| + periodSize] == device(i).frames;
      }
    }
  }

  lemma PeriodSizes(device: nat -> PcmRead, periodSize: nat, k: nat)
    requires Delivers(device, periodSize) && device(k).Period?
    ensures |device(k).frames| == periodSize
  {
  }
}
